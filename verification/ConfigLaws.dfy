/** What configuration files mean, told from the written lines: which option holds what
    after a read. */
module ConfigLaws {
  import opened Bytes
  import opened ConfigFiles
  import opened ConfigProofs

  /** A line as it is written: a name, '=' and a value, or a text without '='. */
  datatype Line = Pair(key: string, value: string) | Bare(text: string)

  type Written = map<string, seq<Line>>

  ghost predicate GoodLine(line: Line) {
    match line
    case Pair(key, _) => '=' !in key
    case Bare(text) => '=' !in text
  }

  function LineText(line: Line): (s: string) {
    match line
    case Pair(key, value) => key + "=" + value
    case Bare(text) => text
  }

  /** The name before the '=', or else the whole line. */
  function NameOf(line: Line): (s: string) {
    match line
    case Pair(key, _) => key
    case Bare(text) => text
  }

  /** A line without '=' has itself as value. */
  function ValueGiven(line: Line): (s: string) {
    match line
    case Pair(_, value) => value
    case Bare(text) => text
  }

  /** The files hold these lines. */
  ghost predicate HoldsLines(fs: Files, written: Written) {
    && fs.Keys == written.Keys
    && forall f <- fs :: |fs[f]| == |written[f]| && forall i :: 0 <= i < |fs[f]| ==>
         GoodLine(written[f][i]) && fs[f][i] == LineText(written[f][i])
  }

  lemma {:induction false} EqualsFound(key: string, rest: string)
    requires '=' !in key && (rest == [] || rest[0] == '=')
    ensures EqualsAt(key + rest) == |key|
    decreases |key|
  {
    if key == [] {
      assert key + rest == rest;
    } else {
      assert (key + rest)[1..] == key[1..] + rest;
      EqualsFound(key[1..], rest);
    }
  }

  lemma LineTold(line: Line)
    requires GoodLine(line)
    ensures Key(LineText(line)) == NameOf(line) && Value(LineText(line)) == ValueGiven(line)
  {
    match line
    case Pair(key, value) =>
      EqualsFound(key, "=" + value);
      assert key + "=" + value == key + ("=" + value);
    case Bare(text) =>
      EqualsFound(text, []);
      assert text + [] == text;
  }

  /** Every line can be written in one of the two ways. */
  lemma EveryLine(text: string) returns (line: Line)
    ensures GoodLine(line) && LineText(line) == text
  {
    var k := EqualsAt(text);
    if k < |text| {
      line := Pair(text[..k], text[k + 1..]);
    } else {
      assert text[..k] == text;
      line := Bare(text);
    }
  }

  /* ---- one assignment ---- */

  /** What an option holds once the text has been assigned to it. */
  ghost predicate Takes(read: ReadNumber, before: Setting, value: string, after: Setting) {
    match before
    case Text(_) => after == Text(value)
    case Flag(_) => after == Flag(value in {"true", "True", "1"})
    case Number(_) => read(value).Some? && after == Number(read(value).value % 4294967296)
  }

  /** The file whose only line assigns to an option changes that option alone. */
  lemma {:induction false} OneLineReads(fs: Files, read: ReadNumber, options: Options, file: string, line: Line)
    requires GoodLine(line) && NameOf(line) in options
    requires file in fs && fs[file] == [LineText(line)]
    ensures var (k, v, r) := (NameOf(line), ValueGiven(line), ParseFile(fs, read, options, [file]));
            && (r.error.None? <==> !options[k].Number? || read(v).Some?)
            && (r.error.None? ==> Takes(read, options[k], v, r.options[k]) && r.options == options[k := r.options[k]])
            && (r.error.Some? ==> r == Outcome(options, Some(NotANumber(v))))
  {
    LineTold(line);
    var lines := fs[file];
    assert lines[0] == LineText(line) && lines[1..] == [];
    OnlyLine(fs, read, options, [file], LineText(line));
  }

  lemma {:induction false} OnlyLine(fs: Files, read: ReadNumber, options: Options, files: seq<string>, text: string)
    requires files != [] && Chain(fs, files) && Key(text) in options
    ensures var r := ParseLines(fs, read, options, files, [text]);
            match Assigned(read, options[Key(text)], Value(text))
            case Some(setting) => r == Outcome(options[Key(text) := setting], None)
            case None => r == Outcome(options, Some(NotANumber(Value(text))))
  {
    hide Assigned, Key, Value;
    ChainBound(fs, files);
    var r := ParseLine(fs, read, options, files, text);
    assert [text][1..] == [];
    if r.error.None? {
      assert ParseLines(fs, read, r.options, files, []) == Outcome(r.options, None);
    }
  }

  /** A line "config=" names another file, which is read in its place. */
  lemma {:induction false} IncludeReads(fs: Files, read: ReadNumber, options: Options, file: string, other: string)
    requires "config" !in options && file in fs && fs[file] == ["config=" + other]
    ensures ParseFile(fs, read, options, [file]) == ParseFile(fs, read, options, [file, other])
    ensures other == file ==> ParseFile(fs, read, options, [file]) == Outcome(options, Some(Loop(file)))
    ensures other !in fs ==> ParseFile(fs, read, options, [file]) == Outcome(options, Some(Unreadable(other)))
  {
    hide Key, Value, ParseLine;
    var line := Pair("config", other);
    LineTold(line);
    assert LineText(line) == "config=" + other;
    assert [file] + [other] == [file, other] && [file, other][..1] == [file];
    IncludeLine(fs, read, options, [file], "config=" + other);
    OneFile(fs, read, options, file);
  }

  lemma {:induction false} OneFile(fs: Files, read: ReadNumber, options: Options, file: string)
    requires file in fs
    ensures Chain(fs, [file]) && ParseFile(fs, read, options, [file]) == ParseLines(fs, read, options, [file], fs[file])
  {
    ChainBound(fs, [file]);
  }

  lemma {:induction false} IncludeLine(fs: Files, read: ReadNumber, options: Options, files: seq<string>, text: string)
    requires files != [] && Chain(fs, files) && Key(text) == "config" && "config" !in options
    ensures (files + [Value(text)])[..|files|] == files
    ensures ParseLines(fs, read, options, files, [text]) == ParseFile(fs, read, options, files + [Value(text)])
  {
    hide Key, Value, ParseFile;
    ChainBound(fs, files);
    var r := ParseLine(fs, read, options, files, text);
    assert [text][1..] == [];
    if r.error.None? {
      assert ParseLines(fs, read, r.options, files, []) == Outcome(r.options, None);
    }
  }

  /* ---- all assignments ---- */

  /** The assignments that the last of the files stands for: of its lines those that name an
      option, in order, and for each that includes a file the assignments of that file. */
  function Made(fs: Files, written: Written, names: set<string>, files: seq<string>): (r: seq<(string, string)>)
    requires files != [] && Chain(fs, files[..|files| - 1]) && fs.Keys == written.Keys
    decreases |fs| + 1 - |files|, 1, 0
  {
    var n := |files| - 1;
    if files[n] in files[..n] || files[n] !in fs then []
    else
      ChainBound(fs, files);
      MadeBy(fs, written, names, files, written[files[n]])
  }

  function MadeBy(fs: Files, written: Written, names: set<string>, files: seq<string>, lines: seq<Line>)
    : (r: seq<(string, string)>)
    requires files != [] && Chain(fs, files) && fs.Keys == written.Keys
    decreases |fs| + 1 - |files|, 0, |lines|
  {
    ChainBound(fs, files);
    if lines == [] then []
    else
      var name, value := NameOf(lines[0]), ValueGiven(lines[0]);
      var first := if name in names then [(name, value)]
                   else if name != "config" then []
                   else
                     assert (files + [value])[..|files|] == files;
                     Made(fs, written, names, files + [value]);
      first + MadeBy(fs, written, names, files, lines[1..])
  }

  lemma {:induction false} MadeIsFlat(fs: Files, written: Written, names: set<string>, files: seq<string>)
    requires files != [] && Chain(fs, files[..|files| - 1]) && HoldsLines(fs, written)
    ensures Made(fs, written, names, files) == Flatten(fs, names, files)
    decreases |fs| + 1 - |files|, 1, 0
  {
    hide FlattenLines, MadeBy;
    var n := |files| - 1;
    if !(files[n] in files[..n] || files[n] !in fs) {
      ChainBound(fs, files);
      MadeByIsFlat(fs, written, names, files, fs[files[n]], written[files[n]]);
    }
  }

  lemma {:induction false} MadeByIsFlat(fs: Files, written: Written, names: set<string>, files: seq<string>,
                                        texts: seq<string>, lines: seq<Line>)
    requires files != [] && Chain(fs, files) && HoldsLines(fs, written) && |texts| == |lines|
    requires forall i :: 0 <= i < |texts| ==> GoodLine(lines[i]) && texts[i] == LineText(lines[i])
    ensures MadeBy(fs, written, names, files, lines) == FlattenLines(fs, names, files, texts)
    decreases |fs| + 1 - |files|, 0, |lines|
  {
    hide Key, Value, NameOf, ValueGiven, LineText, Flatten, Made, HoldsLines;
    ChainBound(fs, files);
    if lines != [] {
      LineTold(lines[0]);
      assert texts[0] == LineText(lines[0]);
      var name, value := NameOf(lines[0]), ValueGiven(lines[0]);
      if name !in names && name == "config" {
        assert (files + [value])[..|files|] == files;
        MadeIsFlat(fs, written, names, files + [value]);
      }
      MadeByIsFlat(fs, written, names, files, texts[1..], lines[1..]);
    }
  }

  /** The last assignment to a name is the i-th. */
  ghost predicate LastAt(made: seq<(string, string)>, name: string, i: nat) {
    i < |made| && made[i].0 == name && forall j :: i < j < |made| ==> made[j].0 != name
  }

  lemma {:induction false} LastFound(made: seq<(string, string)>, name: string)
    ensures LastValue(made, name).None? <==> forall j :: 0 <= j < |made| ==> made[j].0 != name
    ensures forall i: nat :: LastAt(made, name, i) ==> LastValue(made, name) == Some(made[i].1)
    decreases |made|
  {
    if made != [] {
      var n := |made| - 1;
      LastFound(made[..n], name);
      forall i: nat | LastAt(made, name, i) && i < n ensures LastAt(made[..n], name, i) {
      }
    }
  }

  /** Every option holds what the last of all assignments to it gives, or what it held
      before when there is none. */
  ghost predicate Settled(read: ReadNumber, before: Options, after: Options, made: seq<(string, string)>) {
    && after.Keys == before.Keys
    && (forall k <- before, i: nat :: LastAt(made, k, i) ==> Takes(read, before[k], made[i].1, after[k]))
    && (forall k <- before :: (forall j :: 0 <= j < |made| ==> made[j].0 != k) ==> after[k] == before[k])
  }

  lemma WinsMeansSettled(read: ReadNumber, before: Options, after: Options, made: seq<(string, string)>)
    requires LastWins(read, before, after, made)
    ensures Settled(read, before, after, made)
  {
    forall k <- before, i: nat | LastAt(made, k, i) ensures Takes(read, before[k], made[i].1, after[k]) {
      LastFound(made, k);
    }
    forall k <- before | forall j :: 0 <= j < |made| ==> made[j].0 != k ensures after[k] == before[k] {
      LastFound(made, k);
    }
  }

  /** So it is after every successful read. */
  lemma {:induction false} EveryOptionTold(fs: Files, written: Written, read: ReadNumber, options: Options,
                                           file: string)
    requires HoldsLines(fs, written) && ParseFile(fs, read, options, [file]).error.None?
    ensures Settled(read, options, ParseFile(fs, read, options, [file]).options,
                    Made(fs, written, options.Keys, [file]))
  {
    hide ParseFile, Made, Flatten, LastWins, Settled;
    MadeIsFlat(fs, written, options.Keys, [file]);
    LastAssignmentWins(fs, read, options, file);
    WinsMeansSettled(read, options, ParseFile(fs, read, options, [file]).options,
                     Made(fs, written, options.Keys, [file]));
  }
}
