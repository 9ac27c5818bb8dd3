/** Reading an INI file that was written for a tree of applications gives exactly
    the options that were given, in order. */
module IniRoundTrip {
  import opened CharText
  import opened IniText
  import opened IniConfig
  import opened IniLaws

  /* ---- names ---- */

  predicate LaterChar(c: char) {
    IsLetter(c) || IsDigit(c) || c == '_' || c == '.' || c == '-'
  }

  /** valid_name_string, without dots. */
  ghost predicate PlainName(name: string) {
    name != [] && FirstChar(name[0]) && (forall i :: 1 <= i < |name| ==> LaterChar(name[i])) && '.' !in name
  }

  ghost predicate PlainPath(path: seq<string>) {
    forall name <- path :: PlainName(name)
  }

  /** The names of the enclosing subcommands, each followed by a dot. */
  function Prefix(path: seq<string>): (r: string) {
    if path == [] then "" else path[0] + "." + Prefix(path[1..])
  }

  lemma {:induction false} PrefixPush(path: seq<string>, name: string)
    ensures Prefix(path + [name]) == Prefix(path) + name + "."
  {
    if path == [] {
      assert path + [name] == [name] && Prefix([]) == "";
    } else {
      assert (path + [name])[1..] == path[1..] + [name];
      PrefixPush(path[1..], name);
      assert path[0] + "." + (Prefix(path[1..]) + name + ".") == path[0] + "." + Prefix(path[1..]) + name + ".";
    }
  }

  /** Characters of dotted names: no white space, no '=', no newline. */
  ghost predicate NameChars(s: string) {
    forall i :: 0 <= i < |s| ==> LaterChar(s[i])
  }

  lemma {:induction false} DottedFirst(path: seq<string>, name: string)
    requires path != []
    ensures Prefix(path) + name == path[0] + ("." + (Prefix(path[1..]) + name))
  {
  }

  lemma {:induction false} DottedChars(path: seq<string>, name: string)
    requires PlainPath(path) && PlainName(name)
    ensures var s := Prefix(path) + name; NameChars(s) && s != [] && FirstChar(s[0])
  {
    hide Prefix;
    if path == [] {
      assert Prefix(path) + name == name by { PrefixOfNone(); }
    } else {
      assert PlainName(path[0]);
      assert PlainPath(path[1..]) by {
        assert forall n <- path[1..] :: n in path;
      }
      DottedChars(path[1..], name);
      DottedFirst(path, name);
    }
  }

  lemma PrefixOfNone()
    ensures Prefix([]) == ""
  {
  }

  lemma {:induction false} PrefixIsDotted(path: seq<string>, name: string)
    ensures Prefix(path) + name == Dotted(path + [name])
    decreases |path|
  {
    if path == [] {
      assert path + [name] == [name];
    } else {
      assert (path + [name])[1..] == path[1..] + [name];
      PrefixIsDotted(path[1..], name);
    }
  }

  lemma {:induction false} PlainIsPath(path: seq<string>, name: string)
    requires PlainPath(path) && PlainName(name)
    ensures IsPath(path + [name]) && Prefix(path) + name == Dotted(path + [name]) != ""
  {
    hide Dotted, Prefix;
    var whole := path + [name];
    PrefixIsDotted(path, name);
    DottedChars(path, name);
    forall i | 0 <= i < |whole| ensures PlainName(whole[i]) {
      assert i < |path| ==> path[i] in path;
    }
  }

  /* ---- texts that are read as items, piece by piece ---- */

  ghost predicate NoHeadings(lines: seq<string>) {
    forall line <- lines :: !IsHeading(Trimmed(line))
  }

  lemma {:induction false} ParseAppend(a: seq<string>, b: seq<string>, both: seq<string>, section: string)
    requires NoHeadings(a) && both == a + b
    ensures ParseLines(both, section) == ParseLines(a, section) + ParseLines(b, section)
    decreases a
  {
    hide ItemOf, IsHeading, Trimmed;
    if a == [] {
      assert both == b;
    } else {
      assert a[0] in a;
      assert both[0] == a[0] && both[1..] == a[1..] + b;
      assert forall line <- a[1..] :: line in a;
      ParseAppend(a[1..], b, both[1..], section);
    }
  }

  /** A text of whole lines that is read as these items. */
  ghost predicate Reads(text: string, items: seq<ConfigItem>) {
    && (text == [] || text[|text| - 1] == '\n')
    && NoHeadings(Lines(text))
    && ParseLines(Lines(text), "default") == items
  }

  lemma ReadsAppend(a: string, x: seq<ConfigItem>, b: string, y: seq<ConfigItem>)
    requires Reads(a, x) && Reads(b, y)
    ensures Reads(a + b, x + y)
  {
    hide Lines, ParseLines, IsHeading, Trimmed;
    LinesAppend(a, b);
    ParseAppend(Lines(a), Lines(b), Lines(a + b), "default");
  }

  lemma ReadsNothing()
    ensures Reads("", [])
  {
  }

  /** What a line is read as, when it is no heading. */
  function LineItems(line: string): (r: seq<ConfigItem>) {
    if Trimmed(line) == [] || Trimmed(line)[0] == ';' then [] else [ItemOf(Trimmed(line), "default")]
  }

  lemma LineReads(line: string)
    requires '\n' !in line && !IsHeading(Trimmed(line))
    ensures Reads(line + "\n", LineItems(line))
  {
    hide Lines, IsHeading, Trimmed, ItemOf;
    OneLine(line);
    assert [line][1..] == [];
    assert ParseLines([], "default") == [];
  }

  /* ---- comments ---- */

  lemma CommentLine(text: string)
    requires '\n' !in text
    ensures Reads("; " + text + "\n", [])
  {
    hide Trimmed;
    var line := "; " + text;
    TrimKeepsFirst(line);
    LineReads(line);
  }

  /** A description written as a comment is skipped, however many lines it has. */
  lemma {:induction false} CommentReads(description: string)
    ensures Reads("; " + FixNewlines("; ", description) + "\n", [])
    decreases |description|
  {
    hide FixNewlines, Reads;
    var k := Index(description, '\n', 0);
    assert description[0..k] == description[..k];
    FixFirst("; ", description, k);
    CommentLine(description[..k]);
    if k < |description| {
      var rest := FixNewlines("; ", description[k + 1..]);
      CommentReads(description[k + 1..]);
      ReadsAppend("; " + description[..k] + "\n", [], "; " + rest + "\n", []);
      CommentTwoParts(description[..k], rest);
      var none: seq<ConfigItem> := [];
      assert none + none == none;
      assert FixNewlines("; ", description) == description[..k] + ("\n" + "; " + rest);
    } else {
      assert description[..k] + "" == description[..k];
    }
  }

  lemma CommentTwoParts(first: string, rest: string)
    ensures "; " + (first + ("\n" + "; " + rest)) + "\n" == ("; " + first + "\n") + ("; " + rest + "\n")
  {
  }

  /* ---- one option ---- */

  /** Whether the option is written at all. */
  predicate IsWritten(opt: Opt, defaultAlso: bool) {
    && opt.lnames != [] && opt.configurable
    && (opt.results != [] || (defaultAlso && (opt.typeSize == 0 || opt.defaultVal != "")))
  }

  /** What it was given, a flag's count as one word; without that the words of its default. */
  function InputsOf(opt: Opt): (r: seq<string>) {
    if opt.typeSize != 0 then if opt.results != [] then opt.results else SplitUp(opt.defaultVal)
    else if opt.results == [] then ["false"]
    else if |opt.results| == 1 then ["true"]
    else [Digits(|opt.results|)]
  }

  /** What should be read back for an option. */
  function ItemsOf(opt: Opt, path: seq<string>, defaultAlso: bool): (r: seq<ConfigItem>) {
    if IsWritten(opt, defaultAlso) then [ConfigItem(path, opt.lnames[0], InputsOf(opt))] else []
  }

  ghost predicate GoodArgument(arg: string) {
    arg != [] && '\n' !in arg && Quotable(arg)
  }

  ghost predicate GoodOption(opt: Opt, defaultAlso: bool) {
    IsWritten(opt, defaultAlso) ==>
      && PlainName(opt.lnames[0])
      && (opt.typeSize != 0 && opt.results == [] ==> '\n' !in opt.defaultVal)
      && (opt.typeSize != 0 ==> forall arg <- opt.results :: GoodArgument(arg))
  }

  /** A value that is read back as this list. */
  ghost predicate ValueReads(value: string, inputs: seq<string>) {
    value != [] && '\n' !in value && SplitUp(value) == inputs
  }

  lemma {:induction false} JoinHasNoNewline(args: seq<string>)
    requires forall arg <- args :: '\n' !in arg
    ensures '\n' !in IniJoin(args)
  {
    hide Quoted;
    if args != [] {
      assert args[0] in args;
      assert forall arg <- args[1..] :: arg in args;
      JoinHasNoNewline(args[1..]);
      QuotedHasNoNewline(args[0]);
    }
  }

  lemma QuotedHasNoNewline(arg: string)
    requires '\n' !in arg
    ensures '\n' !in Quoted(arg)
  {
  }

  lemma {:induction false} ArgumentsRead(args: seq<string>)
    requires args != [] && AllQuotable(args) && forall arg <- args :: '\n' !in arg
    ensures ValueReads(IniJoin(args), args)
  {
    hide Quotable, SplitUp, IniJoin;
    JoinHasNoNewline(args);
    JoinIsTight(args);
    SplitUndoesJoin(args);
  }

  lemma PlainWord(v: string)
    requires v != [] && forall i :: 0 <= i < |v| ==> LaterChar(v[i])
    ensures GoodArgument(v) && IniJoin([v]) == v
  {
    FirstSpaceIs(v, |v|);
  }

  lemma FlagIsWord(n: nat)
    requires n > 0
    ensures FlagValue(n) != [] && forall i :: 0 <= i < |FlagValue(n)| ==> LaterChar(FlagValue(n)[i])
  {
  }

  lemma {:induction false} NameLineReads(path: seq<string>, lname: string, value: string)
    requires PlainPath(path) && PlainName(lname) && '\n' !in value
    ensures Reads(Prefix(path) + lname + "=" + value + "\n", [ConfigItem(path, lname, SplitUp(value))])
  {
    hide PlainName, PlainPath, SplitUp, Reads, Dotted, IsPath, ReadAs, Prefix;
    var (head, whole) := (Prefix(path) + lname, path + [lname]);
    PlainIsPath(path, lname);
    DottedChars(path, lname);
    assert head + "=" + value == Dotted(whole) + "" + "=" + value;
    SettingRead(whole, "", value, "default");
    SettingHasItem(head + "=", value);
    NoParent(path, lname, SplitUp(value));
    ItemLineReads(head + "=" + value, ConfigItem(path, lname, SplitUp(value)));
  }

  lemma ItemLineReads(line: string, item: ConfigItem)
    requires '\n' !in line && ReadAs(Trimmed(line), "default", [item], "default")
    requires var s := Trimmed(line); s != [] && s[0] != ';' && !IsHeading(s)
    ensures Reads(line + "\n", [item])
  {
    hide Trimmed, ItemOf, Reads;
    LineReads(line);
  }

  /** Such a line is neither blank nor a comment nor a heading. */
  lemma SettingHasItem(head: string, value: string)
    requires |head| > 1 && FirstChar(head[0]) && head[|head| - 1] == '='
    ensures var s := Trimmed(head + value); s != [] && s[0] != ';' && !IsHeading(s)
  {
    hide Trimmed;
    FrontStays(head, value);
  }

  lemma NoParent(path: seq<string>, lname: string, inputs: seq<string>)
    ensures Item("default", path + [lname], inputs) == ConfigItem(path, lname, inputs)
  {
    assert (path + [lname])[..|path|] == path;
    assert [] + path == path;
  }

  lemma ValueOfReads(opt: Opt, defaultAlso: bool)
    requires GoodOption(opt, defaultAlso) && IsWritten(opt, defaultAlso)
    ensures ValueReads(ValueOf(opt, defaultAlso), InputsOf(opt))
  {
    hide ValueReads, IniJoin, Quotable, Digits, SplitUp, PlainName;
    if opt.typeSize == 0 {
      var v := if opt.results == [] then "false" else FlagValue(|opt.results|);
      if opt.results != [] {
        FlagIsWord(|opt.results|);
      }
      PlainWord(v);
      ArgumentsRead([v]);
    } else if opt.results != [] {
      assert forall arg <- opt.results :: GoodArgument(arg);
      ArgumentsRead(opt.results);
    } else {
      DefaultReads(opt.defaultVal);
    }
  }

  lemma DefaultReads(value: string)
    requires value != "" && '\n' !in value
    ensures ValueReads(value, SplitUp(value))
  {
  }

  lemma {:induction false} CommentBefore(description: string, blank: string, line: string, items: seq<ConfigItem>)
    requires (blank == "" || blank == "\n") && Reads(line, items)
    ensures Reads(blank + ("; " + FixNewlines("; ", description) + "\n") + line, items)
  {
    hide Reads, FixNewlines;
    var comment := "; " + FixNewlines("; ", description) + "\n";
    CommentReads(description);
    BlankReads();
    ReadsNothing();
    var none: seq<ConfigItem> := [];
    assert none + none == none && none + items == items;
    ReadsAppend(blank, none, comment, none);
    ReadsAppend(blank + comment, none, line, items);
  }

  lemma OptionTextIs(opt: Opt, prefix: string, defaultAlso: bool, descriptions: bool, first: bool)
    ensures opt.lnames == [] || !opt.configurable || ValueOf(opt, defaultAlso) == [] ==>
              OptionText(opt, prefix, defaultAlso, descriptions, first) == ""
    ensures opt.lnames != [] && opt.configurable && ValueOf(opt, defaultAlso) != [] ==>
              var line := prefix + opt.lnames[0] + "=" + ValueOf(opt, defaultAlso) + "\n";
              OptionText(opt, prefix, defaultAlso, descriptions, first) ==
              if descriptions && opt.description != []
              then (if first then "" else "\n") + ("; " + FixNewlines("; ", opt.description) + "\n") + line
              else line
  {
    hide ValueOf, FixNewlines;
    if opt.lnames != [] {
      var line := prefix + opt.lnames[0] + "=" + ValueOf(opt, defaultAlso) + "\n";
      assert "" + line == line;
    }
  }

  /** The text written for one option, comment included, is read as that option. */
  lemma {:induction false} OptionReads(opt: Opt, path: seq<string>, defaultAlso: bool, descriptions: bool, first: bool)
    requires PlainPath(path) && GoodOption(opt, defaultAlso)
    ensures Reads(OptionText(opt, Prefix(path), defaultAlso, descriptions, first), ItemsOf(opt, path, defaultAlso))
  {
    hide Reads, PlainName, PlainPath, GoodArgument, ValueOf, FixNewlines, InputsOf, OptionText, Prefix;
    OptionTextIs(opt, Prefix(path), defaultAlso, descriptions, first);
    if IsWritten(opt, defaultAlso) {
      ValueOfReads(opt, defaultAlso);
      var line := Prefix(path) + opt.lnames[0] + "=" + ValueOf(opt, defaultAlso) + "\n";
      NameLineReads(path, opt.lnames[0], ValueOf(opt, defaultAlso));
      CommentBefore(opt.description, if first then "" else "\n", line, ItemsOf(opt, path, defaultAlso));
    } else {
      ReadsNothing();
      NoValue(opt, defaultAlso);
    }
  }

  lemma NoValue(opt: Opt, defaultAlso: bool)
    ensures opt.lnames != [] && opt.configurable && !IsWritten(opt, defaultAlso) ==> ValueOf(opt, defaultAlso) == ""
  {
  }

  lemma BlankReads()
    ensures Reads("\n", [])
  {
    hide Reads, ItemOf;
    assert Trimmed("") == "";
    LineReads("");
    assert "" + "\n" == "\n";
  }

  /* ---- the tree ---- */

  function OptionItems(opts: seq<Opt>, path: seq<string>, defaultAlso: bool): (r: seq<ConfigItem>) {
    if opts == [] then [] else ItemsOf(opts[0], path, defaultAlso) + OptionItems(opts[1..], path, defaultAlso)
  }

  /** The options that were given, with the subcommands they belong to, in order. */
  function Items(app: App, path: seq<string>, defaultAlso: bool): (r: seq<ConfigItem>)
    decreases app, 1
  {
    OptionItems(app.options, path, defaultAlso) + SubItems(app, 0, path, defaultAlso)
  }

  function SubItems(app: App, i: nat, path: seq<string>, defaultAlso: bool): (r: seq<ConfigItem>)
    requires i <= |app.subs|
    decreases app, 0, |app.subs| - i
  {
    if i == |app.subs| then []
    else Items(app.subs[i], path + [app.subs[i].name], defaultAlso) + SubItems(app, i + 1, path, defaultAlso)
  }

  ghost predicate GoodApp(app: App, defaultAlso: bool) {
    && (forall opt <- app.options :: GoodOption(opt, defaultAlso))
    && (forall sub <- app.subs :: PlainName(sub.name) && GoodApp(sub, defaultAlso))
  }

  lemma {:induction false} OptionsRead(opts: seq<Opt>, path: seq<string>, defaultAlso: bool, descriptions: bool,
                                       out: string, items: seq<ConfigItem>)
    requires PlainPath(path) && (forall opt <- opts :: GoodOption(opt, defaultAlso)) && Reads(out, items)
    ensures Reads(OptionsText(opts, Prefix(path), defaultAlso, descriptions, out),
                  items + OptionItems(opts, path, defaultAlso))
    decreases |opts|
  {
    hide Reads, PlainPath, GoodOption, OptionText, ItemsOf;
    if opts == [] {
      assert items + [] == items;
    } else {
      assert opts[0] in opts;
      assert forall opt <- opts[1..] :: opt in opts;
      OptionReads(opts[0], path, defaultAlso, descriptions, out == []);
      var text := OptionText(opts[0], Prefix(path), defaultAlso, descriptions, out == []);
      var more := ItemsOf(opts[0], path, defaultAlso);
      ReadsAppend(out, items, text, more);
      OptionsRead(opts[1..], path, defaultAlso, descriptions, out + text, items + more);
      assert items + more + OptionItems(opts[1..], path, defaultAlso) == items + OptionItems(opts, path, defaultAlso);
    }
  }

  lemma {:induction false} AppReads(app: App, path: seq<string>, defaultAlso: bool, descriptions: bool)
    requires PlainPath(path) && GoodApp(app, defaultAlso)
    ensures Reads(ToConfig(app, defaultAlso, descriptions, Prefix(path)), Items(app, path, defaultAlso))
    decreases app, 1
  {
    hide Reads, PlainPath, GoodOption, OptionsText, OptionItems, SubsText, SubItems, Prefix;
    ReadsNothing();
    OptionsRead(app.options, path, defaultAlso, descriptions, "", []);
    assert [] + OptionItems(app.options, path, defaultAlso) == OptionItems(app.options, path, defaultAlso);
    SubsRead(app, 0, path, defaultAlso, descriptions);
    ReadsAppend(OptionsText(app.options, Prefix(path), defaultAlso, descriptions, ""),
                OptionItems(app.options, path, defaultAlso),
                SubsText(app, 0, defaultAlso, descriptions, Prefix(path)), SubItems(app, 0, path, defaultAlso));
  }

  lemma {:induction false} SubsRead(app: App, i: nat, path: seq<string>, defaultAlso: bool, descriptions: bool)
    requires PlainPath(path) && GoodApp(app, defaultAlso) && i <= |app.subs|
    ensures Reads(SubsText(app, i, defaultAlso, descriptions, Prefix(path)), SubItems(app, i, path, defaultAlso))
    decreases app, 0, |app.subs| - i
  {
    hide Reads, PlainName, GoodOption, ToConfig, Items;
    if i == |app.subs| {
      ReadsNothing();
    } else {
      var sub := app.subs[i];
      PrefixPush(path, sub.name);
      AppReads(sub, path + [sub.name], defaultAlso, descriptions);
      SubsRead(app, i + 1, path, defaultAlso, descriptions);
      ReadsAppend(ToConfig(sub, defaultAlso, descriptions, Prefix(path) + sub.name + "."),
                  Items(sub, path + [sub.name], defaultAlso),
                  SubsText(app, i + 1, defaultAlso, descriptions, Prefix(path)),
                  SubItems(app, i + 1, path, defaultAlso));
    }
  }

  /** Written with or without defaults, with or without descriptions as comments, and read
      back: exactly the options given, each with its subcommand path, its first long name
      and its results, in the order of the tree; with defaults also those that have one. */
  lemma {:induction false} ConfigRoundTrip(app: App, defaultAlso: bool, descriptions: bool)
    requires GoodApp(app, defaultAlso)
    ensures FromConfig(ToConfig(app, defaultAlso, descriptions, "")) == Items(app, [], defaultAlso)
  {
    hide ToConfig, Lines, ParseLines, NoHeadings;
    AppReads(app, [], defaultAlso, descriptions);
    assert Prefix([]) == "";
  }
}
