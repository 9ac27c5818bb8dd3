/** The argument loop of the command-line parser, over a tree of applications. */
module ArgSpec {
  import opened Bytes
  import opened CharText

  /* ---- what does not change while parsing ---- */

  datatype OptInfo = OptInfo(snames: seq<string>, lnames: seq<string>, pname: string, ignoreCase: bool,
                             itemsExpected: int, required: bool)

  datatype AppInfo = AppInfo(name: string, ignoreCase: bool, options: seq<OptInfo>, subs: seq<nat>, parent: Option<nat>,
                             fallthrough: bool, prefixCommand: bool, subcommandMax: nat)

  /** Applications by number; a subcommand has a higher number than its parent. */
  type Tree = seq<AppInfo>

  ghost predicate IsTree(tree: Tree) {
    forall a :: 0 <= a < |tree| ==>
      && (tree[a].parent.Some? ==> tree[a].parent.value < a)
      && forall i :: 0 <= i < |tree[a].subs| ==> a < tree[a].subs[i] < |tree|
  }

  /* ---- what does ---- */

  datatype Classifier = NoKind | PositionalMark | Short | Long | Subcommand

  datatype AppState = AppState(results: seq<seq<string>>, parseOrder: seq<nat>, missing: seq<(Classifier, string)>,
                               parsed: bool, parsedSubs: seq<nat>)

  /** The arguments are in reverse: the next one is the last element. */
  datatype State = State(apps: seq<AppState>, args: seq<string>)

  ghost predicate Fits(tree: Tree, apps: seq<AppState>) {
    && IsTree(tree) && |apps| == |tree|
    && forall a :: 0 <= a < |tree| ==> |apps[a].results| == |tree[a].options|
  }

  datatype Error = SubcommandMissing | TooFewArguments | NotAnOption

  datatype Outcome = Ok(state: State) | Thrown(error: Error)

  /* ---- looking at one argument ---- */

  predicate SameName(a: string, b: string, ignoreCase: bool) {
    if ignoreCase then ToLower(a) == ToLower(b) else a == b
  }

  predicate HasName(names: seq<string>, name: string, ignoreCase: bool) {
    exists n <- names :: SameName(n, name, ignoreCase)
  }

  predicate LooksShort(s: string) {
    |s| > 1 && s[0] == '-' && FirstChar(s[1])
  }

  predicate LooksLong(s: string) {
    |s| > 2 && s[0] == '-' && s[1] == '-' && FirstChar(s[2])
  }

  function IndexOf(s: string, c: char): (k: nat)
    ensures k <= |s|
  {
    if s == [] || s[0] == c then 0 else 1 + IndexOf(s[1..], c)
  }

  /** The first of an application's subcommands with this name, still to be parsed
      or not. */
  function FindSub(tree: Tree, subs: seq<nat>, name: string): (r: Option<nat>)
    requires forall i :: 0 <= i < |subs| ==> subs[i] < |tree|
    ensures r.Some? ==> r.value in subs
  {
    if subs == [] then None
    else if SameName(tree[subs[0]].name, name, tree[subs[0]].ignoreCase) then Some(subs[0])
    else FindSub(tree, subs[1..], name)
  }

  predicate OffersSub(tree: Tree, apps: seq<AppState>, subs: seq<nat>, name: string)
    requires |apps| == |tree| && forall i :: 0 <= i < |subs| ==> subs[i] < |tree|
  {
    exists s <- subs :: SameName(tree[s].name, name, tree[s].ignoreCase) && !apps[s].parsed
  }

  /** Whether the argument names a subcommand here or further up. */
  predicate ValidSubcommand(tree: Tree, apps: seq<AppState>, a: nat, current: string)
    requires Fits(tree, apps) && a < |tree|
    decreases a
  {
    var full := tree[a].subcommandMax != 0 && |apps[a].parsedSubs| >= tree[a].subcommandMax;
    (!full && OffersSub(tree, apps, tree[a].subs, current))
    || (tree[a].parent.Some? && ValidSubcommand(tree, apps, tree[a].parent.value, current))
  }

  function Recognize(tree: Tree, apps: seq<AppState>, a: nat, current: string): (r: Classifier)
    requires Fits(tree, apps) && a < |tree|
  {
    if current == "--" then PositionalMark
    else if ValidSubcommand(tree, apps, a, current) then Subcommand
    else if LooksLong(current) then Long
    else if LooksShort(current) then Short
    else NoKind
  }

  /** The last option that still wants positionals decides the count. */
  function CountRemaining(opts: seq<OptInfo>, results: seq<seq<string>>, required: bool): (n: nat)
    requires |opts| == |results|
  {
    if opts == [] then 0
    else
      var k := |opts| - 1;
      var o, count := opts[k], |results[k]|;
      if o.pname != [] && (!required || o.required) && o.itemsExpected > 0 && count < o.itemsExpected
      then o.itemsExpected - count
      else CountRemaining(opts[..k], results[..k], required)
  }

  /* ---- consuming arguments ---- */

  /** The measure: every argument counts its length and one more. */
  function Weight(args: seq<string>): (r: nat) {
    if args == [] then 0 else Weight(args[..|args| - 1]) + |args[|args| - 1]| + 1
  }

  function Back(args: seq<string>): (r: string)
    requires args != []
  {
    args[|args| - 1]
  }

  function Popped(args: seq<string>): (r: seq<string>)
    requires args != []
  {
    args[..|args| - 1]
  }

  /** add_result and the entry in the parse order. */
  function AddResult(apps: seq<AppState>, a: nat, o: nat, s: string): (apps': seq<AppState>)
    requires a < |apps| && o < |apps[a].results|
    ensures |apps'| == |apps| && forall i :: 0 <= i < |apps| ==> |apps'[i].results| == |apps[i].results|
  {
    apps[a := apps[a].(results := apps[a].results[o := apps[a].results[o] + [s]],
                       parseOrder := apps[a].parseOrder + [o])]
  }

  function AddMissing(apps: seq<AppState>, a: nat, kind: Classifier, s: string): (apps': seq<AppState>)
    requires a < |apps|
    ensures |apps'| == |apps| && forall i :: 0 <= i < |apps| ==> |apps'[i].results| == |apps[i].results|
  {
    apps[a := apps[a].(missing := apps[a].missing + [(kind, s)])]
  }

  /** The first positional option that takes more. */
  function FindPositional(opts: seq<OptInfo>, results: seq<seq<string>>, i: nat): (r: Option<nat>)
    requires |opts| == |results| && i <= |opts|
    ensures r.Some? ==> r.value < |opts|
    decreases |opts| - i
  {
    if i == |opts| then None
    else if opts[i].pname != [] && (|results[i]| < opts[i].itemsExpected || opts[i].itemsExpected < 0) then Some(i)
    else FindPositional(opts, results, i + 1)
  }

  function FindNamed(opts: seq<OptInfo>, name: string, long: bool, i: nat): (r: Option<nat>)
    requires i <= |opts|
    ensures r.Some? ==> r.value < |opts|
    decreases |opts| - i
  {
    if i == |opts| then None
    else if HasName(if long then opts[i].lnames else opts[i].snames, name, opts[i].ignoreCase) then Some(i)
    else FindNamed(opts, name, long, i + 1)
  }

  /** A prefix command keeps everything that is left, in order. */
  function AllMissing(st: State, a: nat): (st': State)
    requires a < |st.apps|
    ensures st'.args == [] && |st'.apps| == |st.apps|
    ensures forall i :: 0 <= i < |st.apps| ==> |st'.apps[i].results| == |st.apps[i].results|
    decreases |st.args|
  {
    if st.args == [] then st
    else AllMissing(State(AddMissing(st.apps, a, NoKind, Back(st.args)), Popped(st.args)), a)
  }

  function ParsePositional(tree: Tree, st: State, a: nat): (st': State)
    requires Fits(tree, st.apps) && a < |tree| && st.args != []
    ensures Fits(tree, st'.apps) && Weight(st'.args) < Weight(st.args)
    decreases a
  {
    var positional := Back(st.args);
    match FindPositional(tree[a].options, st.apps[a].results, 0)
    case Some(o) => State(AddResult(st.apps, a, o, positional), Popped(st.args))
    case None =>
      if tree[a].parent.Some? && tree[a].fallthrough then ParsePositional(tree, st, tree[a].parent.value)
      else
        var st' := State(AddMissing(st.apps, a, NoKind, positional), Popped(st.args));
        if tree[a].prefixCommand then AllMissing(st', a) else st'
  }

  /** Eats arguments for an option without an upper limit. */
  function EatUnlimited(tree: Tree, st: State, a: nat, o: nat, num: int, collected: nat): (st': State)
    requires Fits(tree, st.apps) && a < |tree| && o < |tree[a].options| && num < 0
    ensures Fits(tree, st'.apps) && Weight(st'.args) <= Weight(st.args)
    decreases |st.args|
  {
    if st.args != [] && Recognize(tree, st.apps, a, Back(st.args)) == NoKind
       && !(collected >= -num && CountRemaining(tree[a].options, st.apps[a].results, false) > 0)
    then EatUnlimited(tree, State(AddResult(st.apps, a, o, Back(st.args)), Popped(st.args)), a, o, num, collected + 1)
    else if st.args != [] && Recognize(tree, st.apps, a, Back(st.args)) == PositionalMark
    then State(st.apps, Popped(st.args))
    else st
  }

  /** Eats exactly `num` arguments. */
  function EatExactly(tree: Tree, st: State, a: nat, o: nat, num: nat): (r: Outcome)
    requires Fits(tree, st.apps) && a < |tree| && o < |tree[a].options|
    ensures r.Ok? ==> Fits(tree, r.state.apps) && Weight(r.state.args) <= Weight(st.args)
    decreases num
  {
    if num == 0 then Ok(st)
    else if st.args == [] then Thrown(TooFewArguments)
    else EatExactly(tree, State(AddResult(st.apps, a, o, Back(st.args)), Popped(st.args)), a, o, num - 1)
  }

  /** What a long option carries after '='. */
  function LongName(current: string): (r: string)
    requires LooksLong(current)
  {
    var loc := IndexOf(current, '=');
    if loc < 2 then [] else current[2..loc]
  }

  function LongValue(current: string): (r: string) {
    var loc := IndexOf(current, '=');
    if loc < |current| then current[loc + 1..] else []
  }

  lemma {:induction false} WeightPush(args: seq<string>, s: string)
    ensures Weight(args + [s]) == Weight(args) + |s| + 1
  {
    assert (args + [s])[..|args|] == args;
  }

  /** What the found option takes: the value after '=' or glued to a short name,
      then further arguments; what is left of a group of flags goes back. */
  function TakeOption(tree: Tree, st: State, a: nat, o: nat, value: string, rest: string): (r: Outcome)
    requires Fits(tree, st.apps) && a < |tree| && o < |tree[a].options|
    ensures r.Ok? ==> Fits(tree, r.state.apps)
    ensures r.Ok? ==> Weight(r.state.args) <= Weight(st.args) + if rest == [] then 0 else |rest| + 2
  {
    var num := tree[a].options[o].itemsExpected;
    var left := if num > 0 then num - 1 else num;
    if value != [] then
      var st' := State(AddResult(st.apps, a, o, value), st.args);
      PushBack(TakeMore(tree, st', a, o, left, 1), rest)
    else if num == 0 then
      PushBack(Ok(State(AddResult(st.apps, a, o, ""), st.args)), rest)
    else if rest != [] then
      TakeMore(tree, State(AddResult(st.apps, a, o, rest), st.args), a, o, left, 1)
    else TakeMore(tree, st, a, o, num, 0)
  }

  function TakeMore(tree: Tree, st: State, a: nat, o: nat, num: int, collected: nat): (r: Outcome)
    requires Fits(tree, st.apps) && a < |tree| && o < |tree[a].options|
    ensures r.Ok? ==> Fits(tree, r.state.apps) && Weight(r.state.args) <= Weight(st.args)
  {
    if num < 0 then Ok(EatUnlimited(tree, st, a, o, num, collected)) else EatExactly(tree, st, a, o, num)
  }

  function PushBack(r: Outcome, rest: string): (r': Outcome)
    ensures r'.Ok? <==> r.Ok?
    ensures r.Ok? ==> r'.state.apps == r.state.apps
    ensures r.Ok? ==> Weight(r'.state.args) == Weight(r.state.args) + if rest == [] then 0 else |rest| + 2
  {
    if r.Thrown? || rest == [] then r
    else
      WeightPush(r.state.args, "-" + rest);
      Ok(State(r.state.apps, r.state.args + ["-" + rest]))
  }

  function ParseArg(tree: Tree, st: State, a: nat, long: bool): (r: Outcome)
    requires Fits(tree, st.apps) && a < |tree| && st.args != []
    ensures r.Ok? ==> Fits(tree, r.state.apps) && Weight(r.state.args) < Weight(st.args)
    decreases a
  {
    var current := Back(st.args);
    if !(if long then LooksLong(current) else LooksShort(current)) then Thrown(NotAnOption)
    else
      var name := if long then LongName(current) else current[1..2];
      match FindNamed(tree[a].options, name, long, 0)
      case Some(o) =>
        TakeOption(tree, State(st.apps, Popped(st.args)), a, o, if long then LongValue(current) else [],
                   if long then [] else current[2..])
      case None =>
        if tree[a].parent.Some? && tree[a].fallthrough then ParseArg(tree, st, tree[a].parent.value, long)
        else Ok(State(AddMissing(st.apps, a, if long then Long else Short, current), Popped(st.args)))
  }

  /* ---- the loop ---- */

  function MarkParsed(apps: seq<AppState>, a: nat): (r: seq<AppState>)
    requires a < |apps|
  {
    apps[a := apps[a].(parsed := true)]
  }

  function MarkSub(apps: seq<AppState>, a: nat, sub: nat): (r: seq<AppState>)
    requires a < |apps|
  {
    if sub in apps[a].parsedSubs then apps else apps[a := apps[a].(parsedSubs := apps[a].parsedSubs + [sub])]
  }

  /** One subcommand parses everything that follows its name. */
  function ParseSubcommand(tree: Tree, st: State, a: nat): (r: Outcome)
    requires Fits(tree, st.apps) && a < |tree| && st.args != []
    ensures r.Ok? ==> Fits(tree, r.state.apps) && Weight(r.state.args) < Weight(st.args)
    decreases Weight(st.args), 0, a
  {
    if CountRemaining(tree[a].options, st.apps[a].results, true) > 0 then Ok(ParsePositional(tree, st, a))
    else match FindSub(tree, tree[a].subs, Back(st.args))
         case Some(sub) => ParseAll(tree, State(MarkSub(st.apps, a, sub), Popped(st.args)), sub)
         case None =>
           if tree[a].parent.Some? then ParseSubcommand(tree, st, tree[a].parent.value)
           else Thrown(SubcommandMissing)
  }

  datatype Step = Step(outcome: Outcome, positionalOnly: bool)

  function ParseSingle(tree: Tree, st: State, a: nat, positionalOnly: bool): (r: Step)
    requires Fits(tree, st.apps) && a < |tree| && st.args != []
    ensures r.outcome.Ok? ==> Fits(tree, r.outcome.state.apps) && Weight(r.outcome.state.args) < Weight(st.args)
    decreases Weight(st.args), 1, a
  {
    match if positionalOnly then NoKind else Recognize(tree, st.apps, a, Back(st.args))
    case PositionalMark =>
      Step(Ok(State(AddMissing(st.apps, a, PositionalMark, Back(st.args)), Popped(st.args))), true)
    case Subcommand => Step(ParseSubcommand(tree, st, a), positionalOnly)
    case Long => Step(ParseArg(tree, st, a, true), positionalOnly)
    case Short => Step(ParseArg(tree, st, a, false), positionalOnly)
    case NoKind => Step(Ok(ParsePositional(tree, st, a)), positionalOnly)
  }

  /** The while loop of _parse, until no argument is left. */
  function ParseLoop(tree: Tree, st: State, a: nat, positionalOnly: bool): (r: Outcome)
    requires Fits(tree, st.apps) && a < |tree|
    ensures r.Ok? ==> Fits(tree, r.state.apps) && r.state.args == []
    decreases Weight(st.args), 2, a
  {
    if st.args == [] then Ok(st)
    else
      var step := ParseSingle(tree, st, a, positionalOnly);
      if step.outcome.Thrown? then step.outcome
      else ParseLoop(tree, step.outcome.state, a, step.positionalOnly)
  }

  function ParseAll(tree: Tree, st: State, a: nat): (r: Outcome)
    requires Fits(tree, st.apps) && a < |tree|
    ensures r.Ok? ==> Fits(tree, r.state.apps) && r.state.args == []
    decreases Weight(st.args), 3, a
  {
    ParseLoop(tree, State(MarkParsed(st.apps, a), st.args), a, false)
  }
}
