/** The string tools behind INI files: trimming, splitting, joining with quotes. */
module IniText {

  predicate IsSpace(c: char) {
    c == ' ' || '\t' <= c <= '\r'
  }

  const SQUOTE: char := '\''
  const DQUOTE: char := '\"'

  /** Index of the first c at or after `from`, or the length. */
  function Index(s: string, c: char, from: nat): (k: nat)
    requires from <= |s|
    ensures from <= k <= |s| && c !in s[from..k]
    ensures k < |s| ==> s[k] == c
    decreases |s| - from
  {
    if from == |s| || s[from] == c then from else Index(s, c, from + 1)
  }

  lemma {:induction false} IndexIs(s: string, c: char, from: nat, k: nat)
    requires from <= k <= |s| && c !in s[from..k] && (k < |s| ==> s[k] == c)
    ensures Index(s, c, from) == k
    decreases k - from
  {
    if from < k {
      assert s[from..k][0] == s[from];
      assert s[from + 1..k] == s[from..k][1..];
      IndexIs(s, c, from + 1, k);
    }
  }

  /* ---- trimming ---- */

  function RTrim(s: string): (t: string)
    ensures t <= s && (t != [] ==> !IsSpace(t[|t| - 1]))
    ensures forall i :: |t| <= i < |s| ==> IsSpace(s[i])
  {
    if s != [] && IsSpace(s[|s| - 1]) then RTrim(s[..|s| - 1]) else s
  }

  function LTrim(s: string): (t: string)
    ensures |t| <= |s| && t == s[|s| - |t|..] && (t != [] ==> !IsSpace(t[0]))
    ensures forall i :: 0 <= i < |s| - |t| ==> IsSpace(s[i])
  {
    if s != [] && IsSpace(s[0]) then LTrim(s[1..]) else s
  }

  function Trimmed(s: string): (r: string) {
    LTrim(RTrim(s))
  }

  method TrimRight(str: string) returns (t: string)
    ensures t == RTrim(str)
  {
    var end := |str|;
    assert str[..end] == str;
    while end > 0 && IsSpace(str[end - 1])
      invariant 0 <= end <= |str| && RTrim(str) == RTrim(str[..end])
    {
      assert str[..end][..end - 1] == str[..end - 1];
      end := end - 1;
    }
    t := str[..end];
  }

  method TrimLeft(str: string) returns (t: string)
    ensures t == LTrim(str)
  {
    var start := 0;
    while start < |str| && IsSpace(str[start])
      invariant 0 <= start <= |str| && LTrim(str) == LTrim(str[start..])
    {
      assert str[start..][1..] == str[start + 1..];
      start := start + 1;
    }
    t := str[start..];
  }

  method Trim(str: string) returns (t: string)
    ensures t == Trimmed(str)
  {
    t := TrimRight(str);
    t := TrimLeft(t);
  }

  /** Nothing to trim. */
  ghost predicate Tight(s: string) {
    s != [] ==> !IsSpace(s[0]) && !IsSpace(s[|s| - 1])
  }

  lemma TightStays(s: string)
    requires Tight(s)
    ensures Trimmed(s) == s
  {
  }

  lemma {:induction false} RTrimAfterSpace(s: string)
    ensures RTrim([' '] + s) == if RTrim(s) == [] then [] else [' '] + RTrim(s)
    decreases |s|
  {
    var t := [' '] + s;
    if s == [] {
      assert t[..0] == [];
    } else if IsSpace(s[|s| - 1]) {
      assert t[..|t| - 1] == [' '] + s[..|s| - 1];
      RTrimAfterSpace(s[..|s| - 1]);
    }
  }

  lemma SpaceBeforeIsTrimmed(s: string)
    ensures Trimmed([' '] + s) == Trimmed(s)
  {
    hide RTrim;
    RTrimAfterSpace(s);
    if RTrim(s) != [] {
      assert ([' '] + RTrim(s))[1..] == RTrim(s);
    }
  }

  lemma TrimKeepsFirst(s: string)
    requires s != [] && !IsSpace(s[0])
    ensures Trimmed(s) != [] && Trimmed(s)[0] == s[0]
  {
    var t := RTrim(s);
    assert t != [] by {
      assert !IsSpace(s[0]);
    }
  }

  /* ---- split_up ---- */

  function FirstSpace(s: string): (k: nat)
    ensures k <= |s| && (k < |s| ==> IsSpace(s[k]))
    ensures forall i :: 0 <= i < k ==> !IsSpace(s[i])
  {
    if s == [] || IsSpace(s[0]) then 0 else 1 + FirstSpace(s[1..])
  }

  lemma {:induction false} FirstSpaceIs(s: string, k: nat)
    requires k <= |s| && (k < |s| ==> IsSpace(s[k])) && forall i :: 0 <= i < k ==> !IsSpace(s[i])
    ensures FirstSpace(s) == k
  {
    if k > 0 {
      FirstSpaceIs(s[1..], k - 1);
    }
  }

  /** The first token of a trimmed, non-empty string, and what follows it. */
  function FirstToken(s: string): (r: (string, string))
    requires s != []
    ensures |r.1| < |s| || (r.1 == s && IsSpace(s[0]))
  {
    if s[0] == SQUOTE || s[0] == DQUOTE then
      var end := Index(s, s[0], 1);
      (s[1..end], if end < |s| then s[end + 1..] else [])
    else
      var end := FirstSpace(s);
      (s[..end], s[end..])
  }

  lemma TrimmedShrinks(s: string)
    ensures |Trimmed(s)| <= |s| && (Trimmed(s) != [] ==> !IsSpace(Trimmed(s)[0]))
  {
  }

  /** The tokens of a trimmed string. */
  function Tokens(s: string): (r: seq<string>)
    requires s != [] ==> !IsSpace(s[0])
    decreases |s|
  {
    if s == [] then []
    else
      TrimmedShrinks(FirstToken(s).1);
      [FirstToken(s).0] + Tokens(Trimmed(FirstToken(s).1))
  }

  function SplitUp(str: string): (r: seq<string>) {
    TrimmedShrinks(str);
    Tokens(Trimmed(str))
  }

  /** One turn of the loop: the token that is pushed, and what is left of the string. */
  method TakeToken(str: string) returns (token: string, rest: string)
    requires str != []
    ensures (token, rest) == FirstToken(str)
  {
    assert str[1..|str|] == str[1..] && str[..|str|] == str && str[|str|..] == "";
    if str[0] == SQUOTE || str[0] == DQUOTE {
      var end := Index(str, str[0], 1);
      if end != |str| {
        token, rest := str[1..end], str[end + 1..];
      } else {
        token, rest := str[1..], "";
      }
    } else {
      var it := FirstSpace(str);
      if it != |str| {
        token, rest := str[..it], str[it..];
      } else {
        token, rest := str, "";
      }
    }
  }

  method SplitUpString(arg: string) returns (output: seq<string>)
    ensures output == SplitUp(arg)
  {
    hide Trimmed, FirstToken;
    TrimmedShrinks(arg);
    var str := Trim(arg);
    output := [];
    while str != []
      invariant str != [] ==> !IsSpace(str[0])
      invariant SplitUp(arg) == output + Tokens(str)
      decreases |str|
    {
      var token, rest := TakeToken(str);
      output := output + [token];
      TrimmedShrinks(rest);
      str := Trim(rest);
    }
  }

  /* ---- ini_join ---- */

  /** One argument as it is written: quoted when it contains white space. */
  function Quoted(arg: string): (s: string)
    ensures arg != [] ==> s != []
  {
    if FirstSpace(arg) == |arg| then arg
    else if DQUOTE !in arg then [DQUOTE] + arg + [DQUOTE]
    else [SQUOTE] + arg + [SQUOTE]
  }

  function IniJoin(args: seq<string>): (r: string) {
    if args == [] then []
    else if |args| == 1 then Quoted(args[0])
    else Quoted(args[0]) + ([' '] + IniJoin(args[1..]))
  }

  lemma {:induction false} JoinPush(args: seq<string>, arg: string)
    ensures IniJoin(args + [arg]) == (if args == [] then Quoted(arg) else IniJoin(args) + ([' '] + Quoted(arg)))
  {
    hide Quoted;
    if |args| == 1 {
      assert (args + [arg])[1..] == [arg];
    } else if |args| > 1 {
      assert (args + [arg])[1..] == args[1..] + [arg];
      JoinPush(args[1..], arg);
      assert IniJoin(args + [arg]) == Quoted(args[0]) + ([' '] + (IniJoin(args[1..]) + ([' '] + Quoted(arg))));
      assert IniJoin(args) + ([' '] + Quoted(arg)) == Quoted(args[0]) + ([' '] + IniJoin(args[1..]))
             + ([' '] + Quoted(arg));
    } else {
      assert args + [arg] == [arg];
    }
  }

  method JoinArguments(args: seq<string>) returns (s: string)
    ensures s == IniJoin(args)
  {
    hide Quoted;
    s := "";
    for start := 0 to |args|
      invariant s == IniJoin(args[..start])
    {
      assert args[..start + 1] == args[..start] + [args[start]];
      JoinPush(args[..start], args[start]);
      if start > 0 {
        s := s + [' '];
      }
      var arg := args[start];
      var quoted := QuoteArgument(arg);
      s := s + quoted;
    }
    assert args[..|args|] == args;
  }

  method QuoteArgument(arg: string) returns (s: string)
    ensures s == Quoted(arg)
  {
    var it := FirstSpace(arg);
    if it == |arg| {
      s := arg;
    } else if DQUOTE !in arg {
      s := [DQUOTE] + arg + [DQUOTE];
    } else {
      s := [SQUOTE] + arg + [SQUOTE];
    }
  }

  /** The arguments that the quoting rule can protect. */
  predicate Quotable(arg: string)
    requires arg != []
  {
    if FirstSpace(arg) < |arg| then DQUOTE !in arg || SQUOTE !in arg
    else arg[0] != DQUOTE && arg[0] != SQUOTE
  }

  lemma QuotedIsTight(arg: string)
    requires arg != []
    ensures Tight(Quoted(arg))
  {
    if FirstSpace(arg) < |arg| {
      var s := Quoted(arg);
      assert s[|s| - 1] == SQUOTE || s[|s| - 1] == DQUOTE;
    }
  }

  lemma {:induction false} PlainArgumentRead(arg: string, rest: string)
    requires arg != [] && FirstSpace(arg) == |arg| && (rest == [] || rest[0] == ' ')
    ensures Quotable(arg) ==> FirstToken(arg + rest) == (arg, rest)
    ensures !Quotable(arg) ==> FirstToken(arg + rest).0 != arg
  {
    hide Index;
    var s := arg + rest;
    assert s[0] == arg[0];
    if Quotable(arg) {
      FirstSpaceIs(s, |arg|);
      assert s[..|arg|] == arg && s[|arg|..] == rest;
    } else {
      QuotedTokenLacksQuote(s);
      assert arg[0] in arg;
    }
  }

  lemma QuotedTokenLacksQuote(s: string)
    requires s != [] && (s[0] == SQUOTE || s[0] == DQUOTE)
    ensures s[0] !in FirstToken(s).0
  {
  }

  lemma ClosedTokenRead(q: char, arg: string, rest: string)
    requires (q == SQUOTE || q == DQUOTE) && q !in arg
    ensures FirstToken([q] + arg + ([q] + rest)) == (arg, rest)
  {
    hide FirstSpace;
    var s := [q] + arg + ([q] + rest);
    assert s[1..|arg| + 1] == arg;
    IndexIs(s, q, 1, |arg| + 1);
    assert s[|arg| + 2..] == rest;
  }

  /** A written argument is read back exactly when it is quotable. */
  lemma FirstTokenOfQuoted(arg: string, rest: string)
    requires arg != [] && (rest == [] || rest[0] == ' ')
    ensures Quotable(arg) ==> FirstToken(Quoted(arg) + rest) == (arg, rest)
    ensures !Quotable(arg) ==> FirstToken(Quoted(arg) + rest).0 != arg
  {
    hide FirstToken, FirstSpace;
    if FirstSpace(arg) == |arg| {
      PlainArgumentRead(arg, rest);
    } else {
      var q := Quoted(arg)[0];
      var s := Quoted(arg) + rest;
      assert s == [q] + arg + ([q] + rest);
      if Quotable(arg) {
        ClosedTokenRead(q, arg, rest);
      } else {
        QuotedTokenLacksQuote(s);
        assert q in arg;
      }
    }
  }

  lemma {:induction false} JoinIsTight(args: seq<string>)
    requires [] !in args
    ensures Tight(IniJoin(args)) && (args != [] ==> IniJoin(args) != [])
  {
    if args != [] {
      hide Quoted;
      assert args[0] in args;
      QuotedIsTight(args[0]);
      if |args| > 1 {
        assert forall arg <- args[1..] :: arg in args;
        JoinIsTight(args[1..]);
      }
    }
  }

  /** Non-empty arguments survive being written and split again exactly when each of
      them is quotable. */
  lemma {:induction false} SplitUndoesJoinOfNonEmpty(args: seq<string>)
    requires [] !in args
    ensures SplitUp(IniJoin(args)) == args <==> AllQuotable(args)
  {
    hide Quoted, Trimmed, FirstToken, Quotable;
    JoinIsTight(args);
    TightStays(IniJoin(args));
    if args == [] {
    } else {
      assert args[0] in args;
      var rest := if |args| == 1 then [] else [' '] + IniJoin(args[1..]);
      assert IniJoin(args) == Quoted(args[0]) + rest;
      FirstTokenOfQuoted(args[0], rest);
      assert forall arg <- args[1..] :: arg in args;
      JoinIsTight(args[1..]);
      SplitUndoesJoinOfNonEmpty(args[1..]);
      TightStays(IniJoin(args[1..]));
      if |args| == 1 {
        assert IniJoin(args[1..]) == [] == rest;
      } else {
        SpaceBeforeIsTrimmed(IniJoin(args[1..]));
      }
      assert args == [args[0]] + args[1..];
      assert forall arg :: arg in args <==> arg == args[0] || arg in args[1..];
      if Quotable(args[0]) {
        assert SplitUp(IniJoin(args)) == [args[0]] + SplitUp(IniJoin(args[1..]));
      } else {
        assert SplitUp(IniJoin(args))[0] != args[0];
      }
    }
  }

  /* ---- empty arguments ---- */

  predicate IsQuote(c: char) {
    c == SQUOTE || c == DQUOTE
  }

  function QuoteCount(s: string): (r: nat) {
    if s == [] then 0 else (if IsQuote(s[0]) then 1 else 0) + QuoteCount(s[1..])
  }

  lemma {:induction false} QuoteCountAppend(s: string, t: string)
    ensures QuoteCount(s + t) == QuoteCount(s) + QuoteCount(t)
    decreases |s|
  {
    if s == [] {
      assert s + t == t;
    } else {
      assert (s + t)[1..] == s[1..] + t;
      QuoteCountAppend(s[1..], t);
    }
  }

  lemma {:induction false} NoQuotes(s: string)
    requires forall i :: 0 <= i < |s| ==> !IsQuote(s[i])
    ensures QuoteCount(s) == 0
  {
    if s != [] {
      NoQuotes(s[1..]);
    }
  }

  lemma {:induction false} QuoteCountSplit(s: string, k: nat)
    requires k <= |s|
    ensures QuoteCount(s) == QuoteCount(s[..k]) + QuoteCount(s[k..])
  {
    assert s == s[..k] + s[k..];
    QuoteCountAppend(s[..k], s[k..]);
  }

  lemma {:induction false} QuoteCountRTrim(s: string)
    ensures QuoteCount(RTrim(s)) == QuoteCount(s)
  {
    hide QuoteCount, RTrim;
    var t := RTrim(s);
    assert s[..|t|] == t;
    QuoteCountSplit(s, |t|);
    NoQuotes(s[|t|..]);
  }

  lemma {:induction false} QuoteCountLTrim(s: string)
    ensures QuoteCount(LTrim(s)) == QuoteCount(s)
  {
    hide QuoteCount, LTrim;
    var t := LTrim(s);
    var k := |s| - |t|;
    assert s[k..] == t;
    QuoteCountSplit(s, k);
    NoQuotes(s[..k]);
  }

  lemma {:induction false} QuoteCountTrimmed(s: string)
    ensures QuoteCount(Trimmed(s)) == QuoteCount(s)
  {
    hide QuoteCount, RTrim, LTrim;
    QuoteCountRTrim(s);
    QuoteCountLTrim(RTrim(s));
  }

  /** A token that can only have been read between quotes. */
  predicate NeedsQuotes(token: string) {
    token == [] || FirstSpace(token) < |token| || IsQuote(token[0])
  }

  function TotalQuotes(tokens: seq<string>): (r: nat) {
    if tokens == [] then 0 else QuoteCount(tokens[0]) + TotalQuotes(tokens[1..])
  }

  /** How many tokens need quotes around them when they are read. */
  function Needy(tokens: seq<string>): (r: nat) {
    if tokens == [] then 0 else (if NeedsQuotes(tokens[0]) then 1 else 0) + Needy(tokens[1..])
  }

  /** How many arguments get quotes around them when they are written. */
  function Spaced(args: seq<string>): (r: nat) {
    if args == [] then 0 else (if FirstSpace(args[0]) < |args[0]| then 1 else 0) + Spaced(args[1..])
  }

  lemma {:induction false} QuotedCount(arg: string)
    ensures QuoteCount(Quoted(arg)) == QuoteCount(arg) + if FirstSpace(arg) < |arg| then 2 else 0
  {
    if FirstSpace(arg) < |arg| {
      var q := Quoted(arg)[0];
      assert QuoteCount([q]) == 1 by {
        assert [q][1..] == [];
      }
      QuoteCountAppend([q], arg);
      QuoteCountAppend([q] + arg, [q]);
    }
  }

  /** Writing adds two quotes for every argument with white space. */
  lemma {:induction false} JoinCount(args: seq<string>)
    ensures QuoteCount(IniJoin(args)) == TotalQuotes(args) + 2 * Spaced(args)
    decreases |args|
  {
    if args != [] {
      hide Quoted, FirstSpace;
      QuotedCount(args[0]);
      JoinCount(args[1..]);
      if |args| > 1 {
        var more := IniJoin(args[1..]);
        QuoteCountAppend([' '], more);
        NoQuotes([' ']);
        QuoteCountAppend(Quoted(args[0]), [' '] + more);
      }
    }
  }

  lemma {:induction false} QuotedTokenCount(s: string)
    requires s != [] && IsQuote(s[0])
    ensures var (token, rest) := FirstToken(s);
            QuoteCount(s) + (if rest == [] then 1 else 0) >= QuoteCount(token) + QuoteCount(rest) + 2
  {
    var end := Index(s, s[0], 1);
    QuoteCountSplit(s[1..], end - 1);
    assert s[1..][..end - 1] == s[1..end] && s[1..][end - 1..] == s[end..];
    if end < |s| {
      assert s[end..][0] == s[0] && s[end..][1..] == s[end + 1..];
    }
  }

  lemma {:induction false} PlainTokenCount(s: string)
    requires s != [] && !IsSpace(s[0]) && !IsQuote(s[0])
    ensures var (token, rest) := FirstToken(s);
            QuoteCount(s) == QuoteCount(token) + QuoteCount(rest) && !NeedsQuotes(token)
  {
    hide QuoteCount;
    var end := FirstSpace(s);
    QuoteCountSplit(s, end);
    FirstSpaceIs(s[..end], end);
    assert s[..end][0] == s[0];
  }

  /** Reading a token that needs quotes uses up two, except at the end of the text. */
  lemma {:induction false} FirstTokenCount(s: string)
    requires s != [] && !IsSpace(s[0])
    ensures var (token, rest) := FirstToken(s);
            QuoteCount(s) + (if rest == [] then 1 else 0) >=
              QuoteCount(token) + QuoteCount(rest) + if NeedsQuotes(token) then 2 else 0
  {
    hide FirstToken, QuoteCount, NeedsQuotes;
    if IsQuote(s[0]) {
      QuotedTokenCount(s);
    } else {
      PlainTokenCount(s);
    }
  }

  lemma {:induction false} TokensCount(s: string)
    requires s != [] ==> !IsSpace(s[0])
    ensures QuoteCount(s) + 1 >= TotalQuotes(Tokens(s)) + 2 * Needy(Tokens(s))
    decreases |s|
  {
    if s != [] {
      hide FirstToken, Trimmed, NeedsQuotes;
      var (token, rest) := FirstToken(s);
      FirstTokenCount(s);
      TrimmedShrinks(rest);
      QuoteCountTrimmed(rest);
      TokensCount(Trimmed(rest));
      if rest == [] {
        NothingTrimmed();
      }
      assert Tokens(s)[0] == token && Tokens(s)[1..] == Tokens(Trimmed(rest));
    }
  }

  lemma NothingTrimmed()
    ensures Trimmed([]) == []
  {
  }

  lemma {:induction false} SpacedAreNeedy(args: seq<string>)
    ensures Spaced(args) <= Needy(args)
    ensures [] in args ==> Spaced(args) < Needy(args)
    decreases |args|
  {
    if args != [] {
      SpacedAreNeedy(args[1..]);
      assert [] in args ==> args[0] == [] || [] in args[1..];
    }
  }

  predicate AllQuotable(args: seq<string>) {
    forall arg <- args :: arg != [] && Quotable(arg)
  }

  /** A list of arguments survives being written and split again exactly when each of
      them is non-empty and quotable. An empty argument cannot come back from what is
      written: read between quotes it would use up two that writing did not add. */
  lemma {:induction false} SplitUndoesJoin(args: seq<string>)
    ensures SplitUp(IniJoin(args)) == args <==> AllQuotable(args)
  {
    if [] in args {
      hide Trimmed, Tokens;
      var text := IniJoin(args);
      JoinCount(args);
      TrimmedShrinks(text);
      QuoteCountTrimmed(text);
      TokensCount(Trimmed(text));
      SpacedAreNeedy(args);
    } else {
      SplitUndoesJoinOfNonEmpty(args);
    }
  }

  /** An empty argument before others leaves only a space behind, and is lost. */
  lemma {:induction false} EmptyArgumentIsLost(args: seq<string>)
    requires args != []
    ensures SplitUp(IniJoin([[]] + args)) == SplitUp(IniJoin(args))
  {
    hide Trimmed, Tokens;
    assert ([[]] + args)[1..] == args;
    assert IniJoin([[]] + args) == Quoted([]) + ([' '] + IniJoin(args));
    assert Quoted([]) + ([' '] + IniJoin(args)) == [' '] + IniJoin(args);
    SpaceBeforeIsTrimmed(IniJoin(args));
  }
}
