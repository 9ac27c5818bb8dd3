/** Writing the options of an application as an INI file and reading them back. */
module IniConfig {
  import opened Bytes
  import opened CharText
  import opened IniText

  /* ---- splitting at a delimiter, as getline does ---- */

  /** The pieces between delimiters; an empty last piece is not delivered. */
  function Pieces(s: string, delim: char): (r: seq<string>)
    decreases |s|
  {
    if s == [] then []
    else
      var k := Index(s, delim, 0);
      [s[..k]] + if k == |s| then [] else Pieces(s[k + 1..], delim)
  }

  function Split(s: string, delim: char): (elems: seq<string>)
    ensures |elems| > 0
  {
    if s == [] then [""] else Pieces(s, delim)
  }

  method SplitAt(s: string, delim: char) returns (elems: seq<string>)
    ensures elems == Split(s, delim)
  {
    if s == [] {
      return [""];
    }
    elems := [];
    var rest := s;
    while rest != []
      invariant Pieces(s, delim) == elems + Pieces(rest, delim)
      decreases |rest|
    {
      var k := Index(rest, delim, 0);
      elems := elems + [rest[..k]];
      rest := if k == |rest| then [] else rest[k + 1..];
    }
  }

  function Lines(text: string): (r: seq<string>) {
    Pieces(text, '\n')
  }

  lemma {:induction false} LinesAppend(a: string, b: string)
    requires a == [] || a[|a| - 1] == '\n'
    ensures Lines(a + b) == Lines(a) + Lines(b)
    decreases |a|
  {
    hide Lines, Index;
    if a == [] {
      assert a + b == b && Lines(a) == [] by { NoLines(); }
    } else {
      var k := Index(a, '\n', 0);
      FirstLine(a, b, k);
      LinesAppend(a[k + 1..], b);
      LinesFrom(a, k);
      LinesFrom(a + b, k);
    }
  }

  lemma NoLines()
    ensures Lines([]) == []
  {
  }

  lemma {:induction false} LinesFrom(s: string, k: nat)
    requires s != [] && k == Index(s, '\n', 0) < |s|
    ensures Lines(s) == [s[..k]] + Lines(s[k + 1..])
  {
  }

  lemma {:induction false} FirstLine(a: string, b: string, k: nat)
    requires a != [] && a[|a| - 1] == '\n' && k == Index(a, '\n', 0)
    ensures k < |a| && k == Index(a + b, '\n', 0)
    ensures (a + b)[..k] == a[..k] && (a + b)[k + 1..] == a[k + 1..] + b
  {
    hide Index;
    assert a[0..|a|][|a| - 1] == '\n';
    assert (a + b)[0..k] == a[0..k];
    IndexIs(a + b, '\n', 0, k);
  }

  lemma OneLine(line: string)
    requires '\n' !in line
    ensures Lines(line + "\n") == [line]
  {
    var s := line + "\n";
    assert s[0..|line|] == line;
    IndexIs(s, '\n', 0, |line|);
    assert s[..|line|] == line && s[|line| + 1..] == [];
    assert Pieces([], '\n') == [];
  }

  /* ---- the application ---- */

  datatype Opt = Opt(lnames: seq<string>, configurable: bool, typeSize: int, results: seq<string>,
                     defaultVal: string, description: string)

  datatype App = App(name: string, options: seq<Opt>, subs: seq<App>)

  datatype ConfigItem = ConfigItem(parents: seq<string>, name: string, inputs: seq<string>)

  /* ---- numbers and flags ---- */

  function Digits(n: nat): (s: string)
    ensures |s| > 0 && AllDigits(s)
  {
    if n < 10 then ['0' + n as char] else Digits(n / 10) + ['0' + (n % 10) as char]
  }

  function ScanDecimal(acc: nat, s: string): (r: nat)
    decreases s
  {
    if s == [] || !IsDigit(s[0]) then acc else ScanDecimal(10 * acc + (s[0] - '0') as nat, s[1..])
  }

  lemma {:induction false} ScanAppend(acc: nat, s: string, t: string)
    requires AllDigits(s)
    ensures ScanDecimal(acc, s + t) == ScanDecimal(ScanDecimal(acc, s), t)
    decreases s
  {
    if s == [] {
      assert s + t == t;
    } else {
      assert (s + t)[1..] == s[1..] + t;
      ScanAppend(10 * acc + (s[0] - '0') as nat, s[1..], t);
    }
  }

  lemma {:induction false} ScanOfDigits(n: nat)
    ensures ScanDecimal(0, Digits(n)) == n
  {
    if n >= 10 {
      ScanOfDigits(n / 10);
      ScanAppend(0, Digits(n / 10), ['0' + (n % 10) as char]);
    }
  }

  const MAX_ULONG: nat := 0xFFFF_FFFF_FFFF_FFFF

  datatype FlagError = NotTrueFalse | TooManyInputs | OutOfRange

  /** std::stoul: white space, a sign, digits; a negative number wraps around. */
  function Stoul(s: string): (r: Result<nat, FlagError>) {
    if s == [] then Failure(NotTrueFalse)
    else if IsSpace(s[0]) then Stoul(s[1..])
    else
      var digits := if s[0] == '-' || s[0] == '+' then s[1..] else s;
      if digits == [] || !IsDigit(digits[0]) then Failure(NotTrueFalse)
      else
        var n := ScanDecimal(0, digits);
        if n > MAX_ULONG then Failure(OutOfRange)
        else Success(if s[0] == '-' && n > 0 then MAX_ULONG + 1 - n else n)
  }

  function Empties(n: nat): (r: seq<string>) {
    seq(n, _ => "")
  }

  /** The results a flag gets from a configuration item: one empty string a time. */
  function ToFlag(item: ConfigItem): (r: Result<seq<string>, FlagError>) {
    if |item.inputs| != 1 then Failure(TooManyInputs)
    else
      var val := ToLower(item.inputs[0]);
      if val == "true" || val == "on" || val == "yes" then Success(Empties(1))
      else if val == "false" || val == "off" || val == "no" then Success([])
      else match Stoul(val)
           case Success(n) => Success(Empties(n))
           case Failure(e) => Failure(e)
  }

  /** What to_config writes for a flag that was given n times. */
  function FlagValue(n: nat): (r: string) {
    if n == 0 then "" else if n == 1 then "true" else Digits(n)
  }

  lemma LowerDigits(s: string)
    requires AllDigits(s)
    ensures ToLower(s) == s
  {
  }

  /** Every flag that was given keeps its count. */
  lemma FlagRoundTrip(parents: seq<string>, name: string, n: nat)
    requires 1 <= n <= MAX_ULONG
    ensures ToFlag(ConfigItem(parents, name, [FlagValue(n)])) == Success(Empties(n))
  {
    if n == 1 {
      assert ToLower("true") == "true";
    } else {
      LowerDigits(Digits(n));
      ScanOfDigits(n);
    }
  }

  /* ---- writing ---- */

  /** fix_newlines: the leader after every newline. */
  function FixNewlines(leader: string, input: string): (r: string) {
    if input == [] then []
    else if input[0] == '\n' then ['\n'] + leader + FixNewlines(leader, input[1..])
    else [input[0]] + FixNewlines(leader, input[1..])
  }

  /** The value written for an option; empty when it is left out. */
  function ValueOf(opt: Opt, defaultAlso: bool): (r: string) {
    if opt.typeSize != 0 then
      if |opt.results| > 0 then IniJoin(opt.results)
      else if defaultAlso && opt.defaultVal != [] then opt.defaultVal
      else ""
    else if |opt.results| == 0 && defaultAlso then "false"
    else FlagValue(|opt.results|)
  }

  /** What one option adds to an output that so far is `out`. */
  function OptionText(opt: Opt, prefix: string, defaultAlso: bool, descriptions: bool, first: bool): (r: string) {
    if opt.lnames == [] || !opt.configurable || ValueOf(opt, defaultAlso) == [] then ""
    else
      (if descriptions && opt.description != [] then
         (if first then "" else "\n") + ("; " + FixNewlines("; ", opt.description) + "\n")
       else "")
      + (prefix + opt.lnames[0] + "=" + ValueOf(opt, defaultAlso) + "\n")
  }

  function OptionsText(opts: seq<Opt>, prefix: string, defaultAlso: bool, descriptions: bool, out: string)
    : (r: string)
  {
    if opts == [] then out
    else OptionsText(opts[1..], prefix, defaultAlso, descriptions,
                     out + OptionText(opts[0], prefix, defaultAlso, descriptions, out == []))
  }

  function ToConfig(app: App, defaultAlso: bool, descriptions: bool, prefix: string): (r: string)
    decreases app, 1
  {
    OptionsText(app.options, prefix, defaultAlso, descriptions, "")
    + SubsText(app, 0, defaultAlso, descriptions, prefix)
  }

  function SubsText(app: App, i: nat, defaultAlso: bool, descriptions: bool, prefix: string): (r: string)
    requires i <= |app.subs|
    decreases app, 0, |app.subs| - i
  {
    if i == |app.subs| then ""
    else ToConfig(app.subs[i], defaultAlso, descriptions, prefix + app.subs[i].name + ".")
         + SubsText(app, i + 1, defaultAlso, descriptions, prefix)
  }

  lemma {:induction false} FixFirst(leader: string, s: string, k: nat)
    requires k <= |s| && '\n' !in s[..k] && (k < |s| ==> s[k] == '\n')
    ensures FixNewlines(leader, s) == s[..k] + if k == |s| then "" else "\n" + leader + FixNewlines(leader, s[k + 1..])
  {
    if k == 0 {
      assert s[..0] == "";
    } else {
      var t := s[1..];
      assert s[0] == s[..k][0];
      assert t[..k - 1] == s[..k][1..];
      FixFirst(leader, t, k - 1);
      assert s[..k] == [s[0]] + t[..k - 1];
      if k < |s| {
        assert t[k - 1 + 1..] == s[k + 1..];
      }
    }
  }

  lemma Spliced(head: string, rest: string, k: nat, leader: string)
    requires k < |rest| && rest[k] == '\n'
    ensures var (input, at, next) := (head + rest, |head| + k, head + (rest[..k] + "\n" + leader));
            && input[..at + 1] + leader + input[at + 1..] == next + rest[k + 1..]
            && |next| == at + 1 + |leader|
  {
    var input, at := head + rest, |head| + k;
    assert input[..at + 1] == head + rest[..k] + "\n";
    assert input[at + 1..] == rest[k + 1..];
  }

  lemma Regrouped(head: string, start: string, leader: string, fixed: string)
    ensures head + (start + ("\n" + leader + fixed)) == head + (start + "\n" + leader) + fixed
  {
  }

  /** fix_newlines edits the text in place, searching on from the last character of
      the leader it has just put in. On a text with a newline the loop does not end
      when the leader is empty or ends in a newline, since it then finds the same
      newline, or the leader's, again and again. */
  method FixNewlinesIn(leader: string, text: string) returns (input: string)
    requires leader != [] && leader[|leader| - 1] != '\n'
    ensures input == FixNewlines(leader, text)
  {
    hide FixNewlines;
    input := text;
    var n: nat := 0;
    ghost var head: string, rest := "", text;
    while n < |input|
      invariant input == head + rest && n <= |input|
      invariant n == |head| || (n + 1 == |head| && input[n] != '\n')
      invariant FixNewlines(leader, text) == head + FixNewlines(leader, rest)
      decreases |rest|, |input| - n
    {
      ghost var k := Index(rest, '\n', 0);
      assert rest[0..k] == rest[..k];
      FixFirst(leader, rest, k);
      NextNewline(input, head, rest, n);
      n := Index(input, '\n', n);
      if n == |input| {
        break;
      }
      Spliced(head, rest, k, leader);
      Regrouped(head, rest[..k], leader, FixNewlines(leader, rest[k + 1..]));
      ghost var next := head + (rest[..k] + "\n" + leader);
      input := input[..n + 1] + leader + input[n + 1..];
      n := n + |leader|;
      assert next[n] == leader[|leader| - 1] by { LastOf(head + (rest[..k] + "\n"), leader, next); }
      head, rest := next, rest[k + 1..];
    }
    if rest == "" {
      FixFirst(leader, "", 0);
    }
  }

  lemma LastOf(a: string, leader: string, s: string)
    requires leader != [] && |s| == |a| + |leader| && s == a + leader
    ensures s[|s| - 1] == leader[|leader| - 1]
  {
  }

  lemma {:induction false} NextNewline(input: string, head: string, rest: string, n: nat)
    requires input == head + rest && (n == |head| || (n + 1 == |head| && input[n] != '\n')) && n <= |input|
    ensures Index(input, '\n', n) == |head| + Index(rest, '\n', 0)
  {
    var k := Index(rest, '\n', 0);
    forall i | n <= i < |head| + k ensures input[i] != '\n' {
      if i >= |head| {
        assert input[i] == rest[0..k][i - |head|];
      }
    }
    IndexIs(input, '\n', n, |head| + k);
  }

  /** The value that to_config writes for one option. */
  method WriteValue(opt: Opt, defaultAlso: bool) returns (value: string)
    ensures value == ValueOf(opt, defaultAlso)
  {
    hide IniJoin, Digits;
    value := "";
    if opt.typeSize != 0 {
      if |opt.results| > 0 {
        value := JoinArguments(opt.results);
      } else if defaultAlso && opt.defaultVal != [] {
        value := opt.defaultVal;
      }
    } else if |opt.results| == 1 {
      value := "true";
    } else if |opt.results| > 1 {
      value := Digits(|opt.results|);
    } else if |opt.results| == 0 && defaultAlso {
      value := "false";
    }
  }

  method WriteOption(opt: Opt, prefix: string, defaultAlso: bool, descriptions: bool, before: string)
    returns (out: string)
    ensures out == before + OptionText(opt, prefix, defaultAlso, descriptions, before == [])
  {
    hide ValueOf, FixNewlines;
    out := before;
    assert before + "" == before;
    if opt.lnames != [] && opt.configurable {
      var name := prefix + opt.lnames[0];
      var value := WriteValue(opt, defaultAlso);
      if value != [] {
        ghost var comment := "";
        if descriptions && opt.description != [] {
          if out != [] {
            out := out + "\n";
          }
          var text := FixNewlinesIn("; ", opt.description);
          out := out + ("; " + text + "\n");
          comment := (if before == [] then "" else "\n") + ("; " + text + "\n");
        }
        assert out == before + comment;
        out := out + (name + "=" + value + "\n");
        assert out == before + (comment + (name + "=" + value + "\n"));
      }
    }
  }

  method WriteConfig(app: App, defaultAlso: bool, descriptions: bool, prefix: string) returns (out: string)
    ensures out == ToConfig(app, defaultAlso, descriptions, prefix)
    decreases app
  {
    hide OptionText;
    out := "";
    for i := 0 to |app.options|
      invariant OptionsText(app.options, prefix, defaultAlso, descriptions, "")
                == OptionsText(app.options[i..], prefix, defaultAlso, descriptions, out)
    {
      out := WriteOption(app.options[i], prefix, defaultAlso, descriptions, out);
      assert app.options[i..][1..] == app.options[i + 1..];
    }
    for i := 0 to |app.subs|
      invariant ToConfig(app, defaultAlso, descriptions, prefix)
                == out + SubsText(app, i, defaultAlso, descriptions, prefix)
    {
      var text := WriteConfig(app.subs[i], defaultAlso, descriptions, prefix + app.subs[i].name + ".");
      out := out + text;
    }
  }

  /* ---- reading ---- */

  /** The item that a line naming an option gives, under the section heading. */
  function ItemOf(line: string, section: string): (r: ConfigItem) {
    var pos := Index(line, '=', 0);
    var name := Trimmed(line[..pos]);
    var inputs := if pos == |line| then ["ON"] else SplitUp(Trimmed(line[pos + 1..]));
    var parents := if ToLower(section) != "default" then [section] else [];
    if Index(name, '.', 0) == |name| then ConfigItem(parents, name, inputs)
    else
      var plist := Split(name, '.');
      ConfigItem(parents + plist[..|plist| - 1], plist[|plist| - 1], inputs)
  }

  predicate IsHeading(line: string) {
    |line| > 1 && line[0] == '[' && line[|line| - 1] == ']'
  }

  /** The items of the lines from a section on. */
  function ParseLines(lines: seq<string>, section: string): (r: seq<ConfigItem>) {
    if lines == [] then []
    else
      var line := Trimmed(lines[0]);
      if IsHeading(line) then ParseLines(lines[1..], line[1..|line| - 1])
      else if line != [] && line[0] != ';' then [ItemOf(line, section)] + ParseLines(lines[1..], section)
      else ParseLines(lines[1..], section)
  }

  function FromConfig(text: string): (r: seq<ConfigItem>) {
    ParseLines(Lines(text), "default")
  }

  method ParseItem(line: string, section: string) returns (out: ConfigItem)
    requires line != []
    ensures out == ItemOf(line, section)
  {
    hide SplitUp, Trimmed, ToLower, Split;
    var pos := Index(line, '=', 0);
    var name := Trim(line[..pos]);
    var items := ["ON"];
    if pos != |line| {
      var item := Trim(line[pos + 1..]);
      items := SplitUpString(item);
    }
    var parents := [];
    if ToLower(section) != "default" {
      parents := [section];
    }
    if Index(name, '.', 0) != |name| {
      var plist := SplitAt(name, '.');
      name := plist[|plist| - 1];
      parents := parents + plist[..|plist| - 1];
    } else {
      assert parents + [] == parents;
    }
    out := ConfigItem(parents, name, items);
  }

  method ReadConfig(text: string) returns (output: seq<ConfigItem>)
    ensures output == FromConfig(text)
  {
    hide Trimmed, ItemOf, ToLower;
    var section := "default";
    output := [];
    var rest := text;
    while rest != []
      invariant FromConfig(text) == output + ParseLines(Lines(rest), section)
      decreases |rest|
    {
      var k := Index(rest, '\n', 0);
      var line := Trim(rest[..k]);
      ghost var lines := Lines(rest);
      rest := if k == |rest| then [] else rest[k + 1..];
      assert lines[1..] == Lines(rest);
      if IsHeading(line) {
        section := line[1..|line| - 1];
      } else if line != [] && line[0] != ';' {
        var out := ParseItem(line, section);
        output := output + [out];
      }
    }
  }
}
