/** What an INI file says, line by line and word by word, told without the reader's searches. */
module IniLaws {
  import opened Bytes
  import opened CharText
  import opened IniText
  import opened IniConfig

  /* ---- white space ---- */

  /** Space, tab, newline, vertical tab, form feed, carriage return. */
  predicate IsWhite(c: char) {
    c == ' ' || c == '\t' || c == '\n' || c == '\U{B}' || c == '\U{C}' || c == '\r'
  }

  ghost predicate White(s: string) {
    forall i :: 0 <= i < |s| ==> IsWhite(s[i])
  }

  ghost predicate Snug(s: string) {
    s != "" ==> !IsWhite(s[0]) && !IsWhite(s[|s| - 1])
  }

  lemma {:induction false} RightTold(front: string, behind: string)
    requires White(behind) && (front != "" ==> !IsWhite(front[|front| - 1]))
    ensures RTrim(front + behind) == front
    decreases |behind|
  {
    var s := front + behind;
    if behind == "" {
      assert s == front;
    } else {
      assert s[..|s| - 1] == front + behind[..|behind| - 1];
      RightTold(front, behind[..|behind| - 1]);
    }
  }

  lemma {:induction false} LeftTold(before: string, core: string)
    requires White(before) && (core != "" ==> !IsWhite(core[0]))
    ensures LTrim(before + core) == core
  {
    hide LTrim;
    var s := before + core;
    var n := |s| - |LTrim(s)|;
    assert core != "" ==> s[|before|] == core[0];
    assert n < |s| ==> LTrim(s)[0] == s[n];
    assert n < |before| ==> s[n] == before[n];
    assert s[|before|..] == core;
  }

  /** Trimming takes the white space at both ends and nothing else. */
  lemma TrimTells(before: string, core: string, behind: string)
    requires White(before) && White(behind) && Snug(core)
    ensures Trimmed(before + core + behind) == core
  {
    hide RTrim, LTrim;
    if core == "" {
      RightTold("", before + behind);
      assert before + core + behind == "" + (before + behind);
      LeftTold("", "");
    } else {
      RightTold(before + core, behind);
      LeftTold(before, core);
    }
  }

  lemma LeftParts(t: string) returns (before: string)
    requires t != "" ==> !IsWhite(t[|t| - 1])
    ensures White(before) && Snug(LTrim(t)) && t == before + LTrim(t)
  {
    hide LTrim, White;
    var core := LTrim(t);
    var n := |t| - |core|;
    before := t[..n];
    assert core == t[n..];
    FrontIsWhite(t, n);
  }

  lemma FrontIsWhite(s: string, n: nat)
    requires n <= |s| && forall i :: 0 <= i < n ==> IsSpace(s[i])
    ensures White(s[..n])
  {
  }

  lemma TrimParts(s: string) returns (before: string, behind: string)
    ensures White(before) && White(behind) && Snug(Trimmed(s)) && s == before + Trimmed(s) + behind
  {
    hide LTrim, White, Snug;
    var t := RTrim(s);
    before := LeftParts(t);
    behind := s[|t|..];
    assert s == t + behind;
    RestIsWhite(s, |t|);
  }

  lemma RestIsWhite(s: string, n: nat)
    requires n <= |s| && forall i :: n <= i < |s| ==> IsSpace(s[i])
    ensures White(s[n..])
  {
  }

  lemma TrimAgain(before: string, s: string, behind: string)
    requires White(before) && White(behind)
    ensures Trimmed(before + s + behind) == Trimmed(s)
  {
    hide Trimmed;
    var front, back := TrimParts(s);
    assert before + s + behind == (before + front) + Trimmed(s) + (back + behind);
    TrimTells(before + front, Trimmed(s), back + behind);
  }

  /** A beginning without white space at its ends stays. */
  lemma {:induction false} FrontStays(front: string, rest: string)
    requires front != "" && Snug(front)
    ensures Trimmed(front + rest) == front + RTrim(rest)
  {
    hide Trimmed;
    var t := RTrim(rest);
    assert front + rest == "" + (front + t) + rest[|t|..];
    TrimTells("", front + t, rest[|t|..]);
  }

  /* ---- words ---- */

  /** Closed and Open are in quotes; an Open one lacks the quote behind. */
  datatype Word = Plain(text: string) | Closed(quote: char, text: string) | Open(quote: char, text: string)

  datatype Gapped = Gapped(gap: string, word: Word)

  function Spelling(w: Word): (r: string) {
    match w
    case Plain(text) => text
    case Closed(q, text) => [q] + text + [q]
    case Open(q, text) => [q] + text
  }

  /** Open words end in no white space, which would be trimmed. */
  ghost predicate IsWord(w: Word) {
    match w
    case Plain(text) =>
      text != "" && text[0] != '\'' && text[0] != '\"' && forall i :: 0 <= i < |text| ==> !IsWhite(text[i])
    case Closed(q, text) => (q == '\'' || q == '\"') && q !in text
    case Open(q, text) => (q == '\'' || q == '\"') && q !in text && (text != "" ==> !IsWhite(text[|text| - 1]))
  }

  predicate Joins(w: Word, gap: string) {
    !w.Open? && (w.Plain? ==> gap != "")
  }

  /** A gap is needed behind a plain word only; an open word is the last. */
  ghost predicate AreWords(ws: seq<Gapped>) {
    && (forall i :: 0 <= i < |ws| ==> White(ws[i].gap) && IsWord(ws[i].word))
    && (forall i :: 0 <= i < |ws| - 1 ==> Joins(ws[i].word, ws[i + 1].gap))
  }

  function Spelled(ws: seq<Gapped>): (r: string) {
    if ws == [] then "" else ws[0].gap + Spelling(ws[0].word) + Spelled(ws[1..])
  }

  function Texts(ws: seq<Gapped>): (r: seq<string>) {
    seq(|ws|, i requires 0 <= i < |ws| => ws[i].word.text)
  }

  lemma TextsStep(ws: seq<Gapped>)
    requires ws != []
    ensures Texts(ws) == [ws[0].word.text] + Texts(ws[1..])
  {
  }

  lemma SpellingIsSnug(w: Word)
    requires IsWord(w)
    ensures Spelling(w) != "" && Snug(Spelling(w))
  {
    var s := Spelling(w);
    assert !w.Plain? ==> s[0] == w.quote;
    assert w.Closed? ==> s[|s| - 1] == w.quote;
  }

  lemma WordTaken(w: Word, rest: string)
    requires IsWord(w) && (w.Plain? ==> rest == "" || IsWhite(rest[0])) && (w.Open? ==> rest == "")
    ensures Spelling(w) != "" && FirstToken(Spelling(w) + rest) == (w.text, rest)
  {
    hide FirstToken;
    SpellingIsSnug(w);
    var s := Spelling(w) + rest;
    match w
    case Plain(text) => PlainTaken(text, rest);
    case Closed(q, text) =>
      assert s == [q] + text + ([q] + rest);
      ClosedTokenRead(q, text, rest);
    case Open(q, text) =>
      assert s == [q] + text;
      OpenTaken(q, text);
  }

  lemma PlainTaken(text: string, rest: string)
    requires IsWord(Plain(text)) && (rest == "" || IsWhite(rest[0]))
    ensures FirstToken(text + rest) == (text, rest)
  {
    var s := text + rest;
    FirstSpaceIs(s, |text|);
    assert s[0] == text[0] && s[..|text|] == text && s[|text|..] == rest;
  }

  lemma OpenTaken(q: char, text: string)
    requires (q == '\'' || q == '\"') && q !in text
    ensures FirstToken([q] + text) == (text, "")
  {
    var s := [q] + text;
    assert s[1..|s|] == text;
    IndexIs(s, q, 1, |s|);
  }

  lemma {:induction false} FirstWordRead(gap: string, w: Word, rest: string)
    requires White(gap) && IsWord(w)
    requires (w.Plain? ==> RTrim(rest) == "" || IsWhite(rest[0])) && (w.Open? ==> RTrim(rest) == "")
    ensures SplitUp(gap + Spelling(w) + rest) == [w.text] + SplitUp(rest)
  {
    hide Trimmed, FirstToken, Spelling, IsWord, RTrim, Tokens, SplitUp;
    var (whole, left) := (Spelling(w) + rest, RTrim(rest));
    assert gap + Spelling(w) + rest == gap + whole + "";
    TrimAgain(gap, whole, "");
    SpellingIsSnug(w);
    FrontStays(Spelling(w), rest);
    WordTaken(w, left);
    LeftTrimmed(rest);
    TokensStep(Spelling(w) + left, w.text, left);
    SplitOfTrimmed(gap + whole + "", Spelling(w) + left);
  }

  lemma {:induction false} SplitOfTrimmed(s: string, t: string)
    requires Trimmed(s) == t && (t != "" ==> !IsSpace(t[0]))
    ensures SplitUp(s) == Tokens(t)
  {
    hide Trimmed, Tokens;
  }

  /** What split_up gives for words in all the forms it takes. */
  lemma {:induction false} WordsRead(ws: seq<Gapped>, behind: string)
    requires AreWords(ws) && White(behind)
    ensures SplitUp(Spelled(ws) + behind) == Texts(ws)
    decreases |ws|
  {
    hide Trimmed, FirstToken, Spelling, IsWord, RTrim, SplitUp, White;
    LeftOfWhite(behind);
    if ws == [] {
      NothingRead(behind);
      assert Spelled(ws) + behind == behind;
      assert Texts(ws) == [];
    } else {
      var (gap, w, rest) := (ws[0].gap, ws[0].word, Spelled(ws[1..]) + behind);
      assert Spelled(ws) + behind == gap + Spelling(w) + rest;
      OpenIsLast(ws);
      assert ws[1..] == [] ==> rest == behind;
      GapBehind(ws, behind);
      FirstWordRead(gap, w, rest);
      WordsRead(ws[1..], behind);
      TextsStep(ws);
    }
  }

  lemma NothingRead(behind: string)
    requires White(behind)
    ensures SplitUp(behind) == []
  {
    assert "" + "" + behind == behind;
    TrimTells("", "", behind);
  }

  lemma GapBehind(ws: seq<Gapped>, behind: string)
    requires AreWords(ws) && ws != []
    ensures ws[0].word.Plain? && ws[1..] != [] ==>
              Spelled(ws[1..]) != "" && IsWhite((Spelled(ws[1..]) + behind)[0])
  {
    hide IsWord, Spelling;
    if ws[0].word.Plain? && |ws| > 1 {
      assert Joins(ws[0].word, ws[0 + 1].gap);
      assert ws[1..][0] == ws[1];
    }
  }

  lemma OpenIsLast(ws: seq<Gapped>)
    requires AreWords(ws) && ws != []
    ensures ws[0].word.Open? ==> ws[1..] == []
  {
    if |ws| > 1 {
      assert Joins(ws[0].word, ws[0 + 1].gap);
    }
  }

  lemma {:induction false} LeftOfWhite(s: string)
    requires White(s)
    ensures RTrim(s) == ""
  {
    var t := RTrim(s);
    assert t != "" ==> IsWhite(s[|t| - 1]);
  }

  lemma {:induction false} TokensStep(s: string, text: string, left: string)
    requires s != "" && !IsSpace(s[0]) && FirstToken(s) == (text, left)
    ensures Tokens(s) == [text] + SplitUp(left)
  {
    TrimmedShrinks(left);
  }

  lemma {:induction false} LeftTrimmed(s: string)
    ensures SplitUp(RTrim(s)) == SplitUp(s) && SplitUp(Trimmed(s)) == SplitUp(s)
  {
    hide Tokens;
    var t := RTrim(s);
    assert RTrim(t) == t;
    var front, back := TrimParts(s);
    TrimTells("", Trimmed(s), "");
    assert "" + Trimmed(s) + "" == Trimmed(s);
  }

  /* ---- dotted names ---- */

  /** The names of the enclosing subcommands and the option's own. */
  type Path = path: seq<string> | path != [] witness [""]

  function Dotted(path: seq<string>): (r: string) {
    if path == [] then "" else if |path| == 1 then path[0] else path[0] + "." + Dotted(path[1..])
  }

  /** Names that can be told apart in a line; white space is allowed between them. */
  ghost predicate IsPath(path: Path) {
    && (|path| > 1 ==> path[|path| - 1] != "")
    && (forall i :: 0 <= i < |path| ==> '.' !in path[i] && '=' !in path[i] && '\n' !in path[i])
    && Snug(Dotted(path)) && (Dotted(path) != "" ==> Dotted(path)[0] != '[' && Dotted(path)[0] != ';')
  }

  lemma {:induction false} PiecesFirst(first: string, rest: string, delim: char)
    requires delim !in first
    ensures Pieces(first + ([delim] + rest), delim) == [first] + Pieces(rest, delim)
  {
    var s := first + ([delim] + rest);
    assert s[0..|first|] == first;
    IndexIs(s, delim, 0, |first|);
    assert s[..|first|] == first && s[|first| + 1..] == rest;
  }

  lemma {:induction false} OnlyPiece(s: string, delim: char)
    requires s != [] && delim !in s
    ensures Pieces(s, delim) == [s]
  {
    assert s[0..|s|] == s == s[..|s|];
    IndexIs(s, delim, 0, |s|);
  }

  lemma {:induction false} DottedPieces(path: seq<string>)
    requires path != [] && path[|path| - 1] != "" && forall i :: 0 <= i < |path| ==> '.' !in path[i]
    ensures Pieces(Dotted(path), '.') == path && Dotted(path) != ""
    ensures '.' in Dotted(path) <==> |path| > 1
    decreases |path|
  {
    hide Pieces;
    if |path| == 1 {
      OnlyPiece(path[0], '.');
    } else {
      PiecesFirst(path[0], Dotted(path[1..]), '.');
      DottedPieces(path[1..]);
      assert Dotted(path) == path[0] + (['.'] + Dotted(path[1..]));
      assert Dotted(path)[|path[0]|] == '.';
    }
  }

  lemma {:induction false} DottedLacks(path: seq<string>, c: char)
    requires c != '.' && forall i :: 0 <= i < |path| ==> c !in path[i]
    ensures c !in Dotted(path)
    decreases |path|
  {
    if |path| > 1 {
      DottedLacks(path[1..], c);
    }
  }

  /** The section is a parent unless it is called default, in any case of letters. */
  function Item(section: string, path: Path, inputs: seq<string>): (r: ConfigItem) {
    ConfigItem((if Alike(section, "default") then [] else [section]) + path[..|path| - 1], path[|path| - 1], inputs)
  }

  ghost function Named(section: string, name: string, inputs: seq<string>): (r: ConfigItem) {
    var parents := if ToLower(section) != "default" then [section] else [];
    if Index(name, '.', 0) == |name| then ConfigItem(parents, name, inputs)
    else
      var plist := Split(name, '.');
      ConfigItem(parents + plist[..|plist| - 1], plist[|plist| - 1], inputs)
  }

  lemma {:induction false} NamedTold(section: string, path: Path, inputs: seq<string>)
    requires IsPath(path)
    ensures Named(section, Dotted(path), inputs) == Item(section, path, inputs)
  {
    hide Pieces, Alike, ToLower;
    LowerMeansAlike(section, "default");
    assert ToLower("default") == "default" by { DefaultIsLower(); }
    var name := Dotted(path);
    if name == "" {
      assert |path| == 1 by {
        if |path| > 1 {
          DottedPieces(path);
        }
      }
    } else {
      DottedPieces(path);
      assert name[0..|name|] == name;
    }
    assert |path| == 1 ==> path[..0] == [];
  }

  lemma DefaultIsLower()
    ensures ToLower("default") == "default"
  {
  }

  /* ---- lines ---- */

  datatype Core = Heading(section: string) | Note(text: string) | Blank | Bare(path: Path)
                | Setting(path: Path, gap: string, value: string)

  datatype Line = Line(before: string, core: Core, behind: string)

  function CoreText(core: Core): (r: string) {
    match core
    case Heading(section) => "[" + section + "]"
    case Note(text) => ";" + text
    case Blank => ""
    case Bare(path) => Dotted(path)
    case Setting(path, gap, value) => Dotted(path) + gap + "=" + value
  }

  function LineText(line: Line): (r: string) {
    line.before + CoreText(line.core) + line.behind
  }

  ghost predicate IsLine(line: Line) {
    && '\n' !in LineText(line) && White(line.before) && White(line.behind)
    && (line.core.Bare? ==> IsPath(line.core.path) && Dotted(line.core.path) != "")
    && (line.core.Setting? ==> IsPath(line.core.path) && White(line.core.gap))
    && (line.core.Setting? && Dotted(line.core.path) == "" ==> line.core.gap == "")
  }

  function SectionAfter(core: Core, section: string): (r: string) {
    if core.Heading? then core.section else section
  }

  /** A name alone is on; a setting has the words behind the first equals sign. */
  function ItemsTold(core: Core, section: string): (r: seq<ConfigItem>) {
    match core
    case Bare(path) => [Item(section, path, ["ON"])]
    case Setting(path, _, value) => [Item(section, path, SplitUp(value))]
    case _ => []
  }

  function Told(lines: seq<Line>, section: string): (r: seq<ConfigItem>) {
    if lines == [] then []
    else ItemsTold(lines[0].core, section) + Told(lines[1..], SectionAfter(lines[0].core, section))
  }

  function TextOf(lines: seq<Line>): (r: string) {
    if lines == [] then "" else LineText(lines[0]) + "\n" + TextOf(lines[1..])
  }

  /** What the reader does with a trimmed line. */
  ghost predicate ReadAs(line: string, section: string, items: seq<ConfigItem>, next: string) {
    if IsHeading(line) then items == [] && next == line[1..|line| - 1]
    else next == section && items == if line != [] && line[0] != ';' then [ItemOf(line, section)] else []
  }

  lemma {:induction false} ParseStep(line: string, section: string, items: seq<ConfigItem>, next: string,
                                     more: seq<string>)
    requires ReadAs(Trimmed(line), section, items, next)
    ensures ParseLines([line] + more, section) == items + ParseLines(more, next)
  {
    hide ItemOf, Trimmed, IsHeading;
    assert ([line] + more)[0] == line && ([line] + more)[1..] == more;
  }

  lemma HeadingRead(section: string, was: string)
    ensures ReadAs("[" + section + "]", was, [], section)
  {
    hide ItemOf;
    var s := "[" + section + "]";
    assert s[1..|s| - 1] == section;
  }

  lemma NoteRead(text: string, section: string)
    ensures ReadAs(Trimmed(";" + text), section, [], section)
  {
    hide ItemOf;
    TrimKeepsFirst(";" + text);
  }

  lemma BareItem(name: string, section: string)
    requires '=' !in name && Snug(name)
    ensures ItemOf(name, section) == Named(section, name, ["ON"])
  {
    hide Trimmed, Split, SplitUp, ToLower;
    assert name[0..|name|] == name == name[..|name|];
    IndexIs(name, '=', 0, |name|);
    TrimTells("", name, "");
    assert "" + name + "" == name;
  }

  lemma {:induction false} BareRead(path: Path, section: string)
    requires IsPath(path) && Dotted(path) != ""
    ensures ReadAs(Dotted(path), section, [Item(section, path, ["ON"])], section)
  {
    hide Dotted, ItemOf, Named, Item;
    DottedLacks(path, '=');
    BareItem(Dotted(path), section);
    NamedTold(section, path, ["ON"]);
  }

  /** The text in front of a setting's value. */
  function SettingHead(path: Path, gap: string): (r: string) {
    Dotted(path) + gap + "="
  }

  lemma {:induction false} HeadIsSnug(path: Path, gap: string)
    requires IsPath(path) && White(gap) && (Dotted(path) == "" ==> gap == "")
    ensures var s := SettingHead(path, gap); s != "" && Snug(s) && s[0] != '[' && s[0] != ';'
  {
    var s := SettingHead(path, gap);
    assert Dotted(path) == "" ==> s == "=";
    assert Dotted(path) != "" ==> s[0] == Dotted(path)[0];
    assert s[|s| - 1] == '=';
  }

  lemma SettingItem(path: Path, gap: string, value: string, section: string)
    requires IsPath(path) && White(gap)
    ensures ItemOf(SettingHead(path, gap) + value, section) == Item(section, path, SplitUp(value))
  {
    hide Trimmed, SplitUp;
    var (name, line) := (Dotted(path) + gap, SettingHead(path, gap) + value);
    DottedLacks(path, '=');
    assert '=' !in name && line[0..|name|] == name == line[..|name|] && line[|name|] == '=';
    IndexIs(line, '=', 0, |name|);
    assert line[|name| + 1..] == value;
    TrimTells("", Dotted(path), gap);
    assert "" + Dotted(path) + gap == name;
    LeftTrimmed(value);
    assert ItemOf(line, section) == Named(section, Dotted(path), SplitUp(value));
    NamedTold(section, path, SplitUp(value));
  }

  lemma {:induction false} SettingRead(path: Path, gap: string, value: string, section: string)
    requires IsPath(path) && White(gap) && (Dotted(path) == "" ==> gap == "")
    ensures ReadAs(Trimmed(Dotted(path) + gap + "=" + value), section, [Item(section, path, SplitUp(value))], section)
  {
    hide Trimmed, SplitUp, ItemOf, Snug;
    var head := SettingHead(path, gap);
    HeadIsSnug(path, gap);
    FrontStays(head, value);
    SettingItem(path, gap, RTrim(value), section);
    LeftTrimmed(value);
    assert (head + RTrim(value))[0] == head[0];
  }

  /** One line of any kind, under any section. */
  lemma LineRead(line: Line, section: string)
    requires IsLine(line)
    ensures ReadAs(Trimmed(LineText(line)), section, ItemsTold(line.core, section), SectionAfter(line.core, section))
  {
    hide Trimmed, ReadAs, IsPath, SplitUp, Item;
    var (before, behind, text) := (line.before, line.behind, CoreText(line.core));
    match line.core
    case Heading(name) =>
      assert text[|text| - 1] == ']';
      TrimTells(before, text, behind);
      HeadingRead(name, section);
    case Note(note) =>
      TrimAgain(before, text, behind);
      NoteRead(note, section);
    case Blank =>
      TrimTells(before, "", behind);
      assert ReadAs("", section, [], section) by { BlankRead(section); }
    case Bare(path) =>
      assert Snug(text) by { PathIsSnug(path); }
      TrimTells(before, text, behind);
      BareRead(path, section);
    case Setting(path, gap, value) =>
      TrimAgain(before, text, behind);
      SettingRead(path, gap, value, section);
  }

  lemma BlankRead(section: string)
    ensures ReadAs("", section, [], section)
  {
    hide ItemOf;
  }

  lemma {:induction false} PathIsSnug(path: Path)
    requires IsPath(path)
    ensures Snug(Dotted(path))
  {
  }

  /* ---- the file ---- */

  lemma AreLines(lines: seq<Line>)
    requires lines != [] && forall line <- lines :: IsLine(line)
    ensures IsLine(lines[0]) && forall line <- lines[1..] :: IsLine(line)
  {
    assert lines[0] in lines;
  }

  lemma {:induction false} LinesTold(lines: seq<Line>, section: string)
    requires forall line <- lines :: IsLine(line)
    ensures ParseLines(Lines(TextOf(lines)), section) == Told(lines, section)
    decreases |lines|
  {
    hide Lines, IsLine, LineText, ItemsTold, ParseLines, SectionAfter;
    if lines == [] {
      NoLines();
      NothingParsed(section);
    } else {
      AreLines(lines);
      LinesTold(lines[1..], SectionAfter(lines[0].core, section));
      FirstLineParsed(lines[0], TextOf(lines[1..]), section);
    }
  }

  /** The text without the newline at the end of its last line. */
  function Unended(lines: seq<Line>): (r: string)
    requires lines != []
    ensures TextOf(lines) == r + "\n"
  {
    if |lines| == 1 then
      assert TextOf(lines[1..]) == "";
      LineText(lines[0])
    else LineText(lines[0]) + "\n" + Unended(lines[1..])
  }

  lemma {:induction false} UnendedTold(lines: seq<Line>, section: string)
    requires lines != [] && forall line <- lines :: IsLine(line)
    ensures ParseLines(Lines(Unended(lines)), section) == Told(lines, section)
    decreases |lines|
  {
    hide Lines, IsLine, LineText, ItemsTold, ParseLines, SectionAfter;
    AreLines(lines);
    if |lines| == 1 {
      LastLineParsed(lines[0], section);
      assert Told(lines[1..], SectionAfter(lines[0].core, section)) == [];
    } else {
      UnendedTold(lines[1..], SectionAfter(lines[0].core, section));
      FirstLineParsed(lines[0], Unended(lines[1..]), section);
    }
  }

  lemma OnlyLine(text: string)
    requires text != "" && '\n' !in text
    ensures Lines(text) == [text]
  {
    OnlyPiece(text, '\n');
  }

  lemma {:induction false} NothingParsed(section: string)
    ensures ParseLines([], section) == []
  {
  }

  lemma {:induction false} FirstLineParsed(line: Line, rest: string, section: string)
    requires IsLine(line)
    ensures ParseLines(Lines(LineText(line) + "\n" + rest), section) ==
            ItemsTold(line.core, section) + ParseLines(Lines(rest), SectionAfter(line.core, section))
  {
    hide ReadAs, Lines, ParseLines, ItemsTold, IsPath;
    LineRead(line, section);
    OneLine(LineText(line));
    LinesAppend(LineText(line) + "\n", rest);
    ParseStep(LineText(line), section, ItemsTold(line.core, section), SectionAfter(line.core, section), Lines(rest));
  }

  lemma {:induction false} LastLineParsed(line: Line, section: string)
    requires IsLine(line)
    ensures ParseLines(Lines(LineText(line)), section) == ItemsTold(line.core, section)
  {
    hide ReadAs, ParseLines, Lines, Item, IsPath;
    var text := LineText(line);
    NothingParsed(section);
    if text == "" {
      NoLines();
      assert line.core.Blank?;
    } else {
      OnlyLine(text);
      assert [text] + [] == [text];
      LineRead(line, section);
      NothingParsed(SectionAfter(line.core, section));
      ParseStep(text, section, ItemsTold(line.core, section), SectionAfter(line.core, section), []);
    }
  }

  /** A whole file: headings, comments, blank lines, names alone and settings, with or
      without a newline at the end of the last line. */
  lemma {:induction false} FileTold(lines: seq<Line>)
    requires forall line <- lines :: IsLine(line)
    ensures FromConfig(TextOf(lines)) == Told(lines, "default")
    ensures lines != [] ==> FromConfig(Unended(lines)) == Told(lines, "default")
  {
    hide Told, TextOf, IsLine, Lines, ParseLines;
    LinesTold(lines, "default");
    if lines != [] {
      UnendedTold(lines, "default");
    }
  }

  /* ---- flags ---- */

  /** The number that decimal digits stand for. */
  function Numeral(digits: string): (n: nat)
    requires AllDigits(digits)
  {
    if digits == "" then 0
    else 10 * Numeral(digits[..|digits| - 1]) + (digits[|digits| - 1] as int - '0' as int)
  }

  lemma {:induction false} NumeralScanned(digits: string, rest: string)
    requires AllDigits(digits) && (rest == "" || !IsDigit(rest[0]))
    ensures ScanDecimal(0, digits + rest) == Numeral(digits)
  {
    IniConfig.ScanAppend(0, digits, rest);
    NumeralOf(digits);
  }

  lemma {:induction false} NumeralOf(digits: string)
    requires AllDigits(digits)
    ensures ScanDecimal(0, digits) == Numeral(digits)
    decreases |digits|
  {
    if digits != "" {
      var (front, last) := (digits[..|digits| - 1], digits[|digits| - 1..]);
      NumeralOf(front);
      IniConfig.ScanAppend(0, front, last);
      assert digits == front + last;
    }
  }

  predicate IsSign(sign: string) {
    sign == "" || sign == "+" || sign == "-"
  }

  lemma LowerJoined(a: string, b: string)
    ensures ToLower(a + b) == ToLower(a) + ToLower(b)
  {
  }

  lemma WhiteStaysLow(s: string)
    requires White(s) || AllDigits(s) || IsSign(s)
    ensures ToLower(s) == s
  {
  }

  lemma {:induction false} StoulSkips(before: string, s: string)
    requires White(before)
    ensures Stoul(before + s) == Stoul(s)
    decreases |before|
  {
    if before == "" {
      assert before + s == s;
    } else {
      assert (before + s)[1..] == before[1..] + s;
      StoulSkips(before[1..], s);
    }
  }

  lemma {:induction false} StoulNumber(sign: string, digits: string, rest: string)
    requires IsSign(sign) && digits != "" && AllDigits(digits) && (rest == "" || !IsDigit(rest[0]))
    ensures Stoul(sign + digits + rest) ==
            if Numeral(digits) > 0xFFFF_FFFF_FFFF_FFFF then Failure(OutOfRange)
            else if sign == "-" && Numeral(digits) > 0 then Success(0x1_0000_0000_0000_0000 - Numeral(digits))
            else Success(Numeral(digits))
  {
    hide ScanDecimal;
    var (s, t) := (sign + digits + rest, digits + rest);
    NumeralScanned(digits, rest);
    assert t[0] == digits[0];
    if sign == "" {
      assert s == t;
    } else {
      assert s[0] == sign[0] && s[1..] == t;
    }
  }

  /** A flag gets one result for the words of agreement and none for those of denial, in
      any case of letters. */
  lemma {:induction false} FlagTold(item: ConfigItem, v: string)
    requires item.inputs == [v]
    ensures Alike(v, "true") || Alike(v, "on") || Alike(v, "yes") ==> ToFlag(item) == Success([""])
    ensures Alike(v, "false") || Alike(v, "off") || Alike(v, "no") ==> ToFlag(item) == Success([])
  {
    hide Stoul, Alike, ToLower;
    LowWords();
    LowerMeansAlike(v, "true");
    LowerMeansAlike(v, "on");
    LowerMeansAlike(v, "yes");
    LowerMeansAlike(v, "false");
    LowerMeansAlike(v, "off");
    LowerMeansAlike(v, "no");
    assert Empties(1) == [""];
  }

  lemma LowWords()
    ensures ToLower("true") == "true" && ToLower("on") == "on" && ToLower("yes") == "yes"
    ensures ToLower("false") == "false" && ToLower("off") == "off" && ToLower("no") == "no"
  {
  }

  /** Otherwise it gets as many as the number at the beginning says; a negative number
      counts down from 2^64. */
  lemma {:induction false} FlagNumber(item: ConfigItem, before: string, sign: string, digits: string, rest: string)
    requires item.inputs == [before + (sign + digits + rest)] && White(before)
    requires IsSign(sign) && digits != "" && AllDigits(digits) && (rest == "" || !IsDigit(rest[0]))
    ensures var n := Numeral(digits);
            ToFlag(item) ==
            if n > 0xFFFF_FFFF_FFFF_FFFF then Failure(OutOfRange)
            else Success(seq(if sign == "-" && n > 0 then 0x1_0000_0000_0000_0000 - n else n, _ => ""))
  {
    hide Stoul, ToLower, Numeral;
    var low := before + (sign + digits + ToLower(rest));
    LowerJoined(before, sign + digits + rest);
    LowerJoined(sign + digits, rest);
    LowerJoined(sign, digits);
    WhiteStaysLow(before);
    WhiteStaysLow(sign);
    WhiteStaysLow(digits);
    StoulSkips(before, sign + digits + ToLower(rest));
    StoulNumber(sign, digits, ToLower(rest)) by {
      assert rest != "" ==> ToLower(rest)[0] == LowerChar(rest[0]) by { FirstLow(rest); }
    }
    assert ToLower(item.inputs[0]) == low;
    NoWord(before, sign + digits + ToLower(rest), digits[0]);
  }

  lemma FirstLow(s: string)
    ensures s != "" ==> ToLower(s)[0] == LowerChar(s[0])
  {
  }

  /** A text with a digit in it is none of the words. */
  lemma NoWord(before: string, s: string, digit: char)
    requires IsDigit(digit) && digit in s
    ensures before + s !in ["true", "on", "yes", "false", "off", "no"]
  {
    assert digit in before + s;
  }

  /** Anything else is refused. */
  lemma {:induction false} FlagRefused(item: ConfigItem, before: string, sign: string, rest: string)
    requires White(before) && IsSign(sign) && (rest == "" || !IsDigit(rest[0]))
    requires sign == "" && rest != "" ==> !IsWhite(rest[0]) && rest[0] != '+' && rest[0] != '-'
    requires item.inputs == [before + (sign + rest)]
    requires forall w <- ["true", "on", "yes", "false", "off", "no"] :: !Alike(before + (sign + rest), w)
    ensures ToFlag(item) == Failure(NotTrueFalse)
  {
    hide Alike, ToLower;
    var v := before + (sign + rest);
    LowWords();
    LowerMeansAlike(v, "true");
    LowerMeansAlike(v, "on");
    LowerMeansAlike(v, "yes");
    LowerMeansAlike(v, "false");
    LowerMeansAlike(v, "off");
    LowerMeansAlike(v, "no");
    LowerJoined(before, sign + rest);
    LowerJoined(sign, rest);
    WhiteStaysLow(before);
    WhiteStaysLow(sign);
    FirstLow(rest);
    StoulSkips(before, sign + ToLower(rest));
    NoNumber(sign, ToLower(rest));
  }

  lemma {:induction false} NoNumber(sign: string, rest: string)
    requires IsSign(sign) && (rest == "" || !IsDigit(rest[0]))
    requires sign == "" && rest != "" ==> !IsWhite(rest[0]) && rest[0] != '+' && rest[0] != '-'
    ensures Stoul(sign + rest) == Failure(NotTrueFalse)
  {
    var s := sign + rest;
    if sign == "" {
      assert s == rest;
    } else {
      assert s[1..] == rest;
    }
  }

  /** A list of any other length is refused too. */
  lemma FlagAlone(item: ConfigItem)
    ensures |item.inputs| != 1 <==> ToFlag(item) == Failure(TooManyInputs)
  {
    if |item.inputs| == 1 {
      NeverTooMany(ToLower(item.inputs[0]));
    }
  }

  lemma {:induction false} NeverTooMany(s: string)
    ensures Stoul(s) != Failure(TooManyInputs)
    decreases |s|
  {
    if s != "" && IsSpace(s[0]) {
      NeverTooMany(s[1..]);
    }
  }
}
