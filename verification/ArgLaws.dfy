/** What the argument loop does, told case by case without its own searches: which option
    an argument goes to, how many values an option takes, what is a subcommand. */
module ArgLaws {
  import opened CharText
  import opened ArgSpec

  /* ---- names ---- */

  /** The same text, or the same up to the case of letters. */
  ghost predicate NameFits(a: string, b: string, ignoreCase: bool) {
    if ignoreCase then Alike(a, b) else a == b
  }

  lemma SameNameFits(a: string, b: string, ignoreCase: bool)
    ensures SameName(a, b, ignoreCase) <==> NameFits(a, b, ignoreCase)
  {
    hide Alike, ToLower;
    LowerMeansAlike(a, b);
  }

  /** One of the option's long or short names. */
  ghost predicate IsCalled(opt: OptInfo, name: string, long: bool) {
    exists n :: n in (if long then opt.lnames else opt.snames) && NameFits(n, name, opt.ignoreCase)
  }

  lemma CalledMeansHas(opt: OptInfo, name: string, long: bool)
    ensures IsCalled(opt, name, long) <==> HasName(if long then opt.lnames else opt.snames, name, opt.ignoreCase)
  {
    hide NameFits, SameName;
    forall n ensures SameName(n, name, opt.ignoreCase) <==> NameFits(n, name, opt.ignoreCase) {
      SameNameFits(n, name, opt.ignoreCase);
    }
  }

  /** The first option of that name in the order of declaration. */
  ghost predicate FirstCalled(opts: seq<OptInfo>, name: string, long: bool, o: nat) {
    o < |opts| && IsCalled(opts[o], name, long) && forall i :: 0 <= i < o ==> !IsCalled(opts[i], name, long)
  }

  lemma {:induction false} NamedFrom(opts: seq<OptInfo>, name: string, long: bool, from: nat)
    requires from <= |opts| && forall i :: 0 <= i < from ==> !IsCalled(opts[i], name, long)
    ensures match FindNamed(opts, name, long, from)
            case Some(o) => FirstCalled(opts, name, long, o)
            case None => forall i :: 0 <= i < |opts| ==> !IsCalled(opts[i], name, long)
    decreases |opts| - from
  {
    hide IsCalled, HasName;
    if from < |opts| {
      CalledMeansHas(opts[from], name, long);
      if !IsCalled(opts[from], name, long) {
        NamedFrom(opts, name, long, from + 1);
      }
    }
  }

  /* ---- positionals ---- */

  /** A positional that has fewer values than it expects, or expects any number. */
  predicate Wants(opt: OptInfo, given: nat) {
    opt.pname != "" && (given < opt.itemsExpected || opt.itemsExpected < 0)
  }

  ghost predicate FirstWanting(opts: seq<OptInfo>, results: seq<seq<string>>, o: nat)
    requires |opts| == |results|
  {
    o < |opts| && Wants(opts[o], |results[o]|) && forall i :: 0 <= i < o ==> !Wants(opts[i], |results[i]|)
  }

  ghost predicate NoneWants(opts: seq<OptInfo>, results: seq<seq<string>>)
    requires |opts| == |results|
  {
    forall i :: 0 <= i < |opts| ==> !Wants(opts[i], |results[i]|)
  }

  lemma {:induction false} PositionalFrom(opts: seq<OptInfo>, results: seq<seq<string>>, from: nat)
    requires |opts| == |results| && from <= |opts| && forall i :: 0 <= i < from ==> !Wants(opts[i], |results[i]|)
    ensures match FindPositional(opts, results, from)
            case Some(o) => FirstWanting(opts, results, o)
            case None => NoneWants(opts, results)
    decreases |opts| - from
  {
    if from < |opts| && !Wants(opts[from], |results[from]|) {
      PositionalFrom(opts, results, from + 1);
    }
  }

  /** The state after an option has got values. */
  function WithValues(apps: seq<AppState>, a: nat, o: nat, values: seq<string>): (apps': seq<AppState>)
    requires a < |apps| && o < |apps[a].results|
  {
    apps[a := apps[a].(results := apps[a].results[o := apps[a].results[o] + values],
                       parseOrder := apps[a].parseOrder + seq(|values|, _ => o))]
  }

  /** The state after arguments were found to belong nowhere. */
  function WithMissing(apps: seq<AppState>, a: nat, kind: Classifier, left: seq<string>): (apps': seq<AppState>)
    requires a < |apps|
  {
    apps[a := apps[a].(missing := apps[a].missing + Kinds(kind, left))]
  }

  /** Arguments with the kind they were taken for. */
  function Kinds(kind: Classifier, left: seq<string>): (r: seq<(Classifier, string)>)
    ensures |r| == |left| && forall i :: 0 <= i < |r| ==> r[i] == (kind, left[i])
  {
    seq(|left|, i requires 0 <= i < |left| => (kind, left[i]))
  }

  /** The arguments in the order in which they are taken. */
  function InOrder(args: seq<string>): (r: seq<string>)
    ensures |r| == |args| && forall i :: 0 <= i < |r| ==> r[i] == args[|args| - 1 - i]
  {
    seq(|args|, i requires 0 <= i < |args| => args[|args| - 1 - i])
  }

  lemma OneValue(apps: seq<AppState>, a: nat, o: nat, s: string)
    requires a < |apps| && o < |apps[a].results|
    ensures AddResult(apps, a, o, s) == WithValues(apps, a, o, [s])
  {
    assert seq(1, _ => o) == [o];
  }

  lemma OneMissing(apps: seq<AppState>, a: nat, kind: Classifier, s: string)
    requires a < |apps|
    ensures AddMissing(apps, a, kind, s) == WithMissing(apps, a, kind, [s])
  {
    assert Kinds(kind, [s]) == [(kind, s)];
  }

  lemma MissingJoined(apps: seq<AppState>, a: nat, kind: Classifier, s: seq<string>, t: seq<string>)
    requires a < |apps|
    ensures WithMissing(WithMissing(apps, a, kind, s), a, kind, t) == WithMissing(apps, a, kind, s + t)
  {
    var x, y := WithMissing(WithMissing(apps, a, kind, s), a, kind, t), WithMissing(apps, a, kind, s + t);
    assert x[a].missing == y[a].missing;
  }

  lemma ValuesJoined(apps: seq<AppState>, a: nat, o: nat, s: seq<string>, t: seq<string>)
    requires a < |apps| && o < |apps[a].results|
    ensures WithValues(WithValues(apps, a, o, s), a, o, t) == WithValues(apps, a, o, s + t)
  {
    var x, y := WithValues(WithValues(apps, a, o, s), a, o, t), WithValues(apps, a, o, s + t);
    assert x[a].results[o] == y[a].results[o];
    assert x[a].results == y[a].results && x[a].parseOrder == y[a].parseOrder;
  }

  lemma NoMissing(apps: seq<AppState>, a: nat, kind: Classifier)
    requires a < |apps|
    ensures WithMissing(apps, a, kind, []) == apps
  {
    assert WithMissing(apps, a, kind, [])[a].missing == apps[a].missing;
  }

  lemma InOrderStep(args: seq<string>)
    requires args != []
    ensures InOrder(args) == [Back(args)] + InOrder(Popped(args))
  {
  }

  lemma {:induction false} AllMissingInOrder(st: State, a: nat)
    requires a < |st.apps|
    ensures AllMissing(st, a) == State(WithMissing(st.apps, a, NoKind, InOrder(st.args)), [])
    decreases |st.args|
  {
    hide WithMissing, AddMissing;
    if st.args == [] {
      NoMissing(st.apps, a, NoKind);
    } else {
      var apps := AddMissing(st.apps, a, NoKind, Back(st.args));
      OneMissing(st.apps, a, NoKind, Back(st.args));
      AllMissingInOrder(State(apps, Popped(st.args)), a);
      MissingJoined(st.apps, a, NoKind, [Back(st.args)], InOrder(Popped(st.args)));
      InOrderStep(st.args);
    }
  }

  /** Where an argument that is no option goes: to the first positional that wants it; if
      there is none, on to the parent by fallthrough; else into the missing list, with all
      that follow it when the application is a prefix for another command. */
  lemma PositionalGoes(tree: Tree, st: State, a: nat)
    requires Fits(tree, st.apps) && a < |tree| && st.args != []
    ensures var (opts, results, rest) := (tree[a].options, st.apps[a].results, st.args[..|st.args| - 1]);
            var s := st.args[|st.args| - 1];
            && (forall o: nat :: FirstWanting(opts, results, o) ==>
                  ParsePositional(tree, st, a) == State(WithValues(st.apps, a, o, [s]), rest))
            && (NoneWants(opts, results) && tree[a].parent.Some? && tree[a].fallthrough ==>
                  ParsePositional(tree, st, a) == ParsePositional(tree, st, tree[a].parent.value))
            && (NoneWants(opts, results) && !(tree[a].parent.Some? && tree[a].fallthrough) ==>
                  ParsePositional(tree, st, a) ==
                  if tree[a].prefixCommand then State(WithMissing(st.apps, a, NoKind, InOrder(st.args)), [])
                  else State(WithMissing(st.apps, a, NoKind, [s]), rest))
  {
    hide WithValues, WithMissing, AddResult, AddMissing, Weight;
    var (opts, results, rest) := (tree[a].options, st.apps[a].results, st.args[..|st.args| - 1]);
    var s := Back(st.args);
    PositionalFrom(opts, results, 0);
    OneMissing(st.apps, a, NoKind, s);
    match FindPositional(opts, results, 0)
    case Some(o) =>
      OneValue(st.apps, a, o, s);
      OnlyFirst(opts, results, o);
    case None =>
      AllMissingInOrder(State(AddMissing(st.apps, a, NoKind, s), rest), a);
      MissingJoined(st.apps, a, NoKind, [s], InOrder(rest));
      InOrderStep(st.args);
  }

  lemma OnlyFirst(opts: seq<OptInfo>, results: seq<seq<string>>, o: nat)
    requires |opts| == |results| && FirstWanting(opts, results, o)
    ensures !NoneWants(opts, results) && forall p: nat :: FirstWanting(opts, results, p) ==> p == o
  {
    forall p: nat | FirstWanting(opts, results, p) ensures p == o {
      assert p < o || o < p || p == o;
    }
  }

  /* ---- a line of plain arguments ---- */

  predicate BeginsName(c: char) {
    'A' <= c <= 'Z' || 'a' <= c <= 'z' || c == '_'
  }

  /** Neither the mark "--" nor an option by its looks. */
  predicate PlainArgument(s: string) {
    && s != "--"
    && !(|s| >= 2 && s[0] == '-' && BeginsName(s[1]))
    && !(|s| >= 3 && s[0] == '-' && s[1] == '-' && BeginsName(s[2]))
  }

  /** An application by itself. */
  ghost predicate Alone(tree: Tree, a: nat) {
    a < |tree| && tree[a].subs == [] && tree[a].parent.None?
  }

  lemma PlainRecognized(tree: Tree, apps: seq<AppState>, a: nat, s: string)
    requires Fits(tree, apps) && Alone(tree, a) && PlainArgument(s)
    ensures Recognize(tree, apps, a, s) == NoKind
  {
  }

  /** No positional takes any number of values. */
  ghost predicate Bounded(opts: seq<OptInfo>) {
    forall i :: 0 <= i < |opts| ==> opts[i].pname != "" ==> opts[i].itemsExpected >= 0
  }

  /** How many values the first k options take as positionals. */
  function Room(opts: seq<OptInfo>, k: nat): (r: nat)
    requires Bounded(opts) && k <= |opts|
  {
    if k == 0 then 0 else Room(opts, k - 1) + if opts[k - 1].pname == "" then 0 else opts[k - 1].itemsExpected
  }

  lemma {:induction false} RoomGrows(opts: seq<OptInfo>, i: nat, k: nat)
    requires Bounded(opts) && i <= k <= |opts|
    ensures Room(opts, i) <= Room(opts, k)
    decreases k
  {
    if i < k {
      RoomGrows(opts, i, k - 1);
    }
  }

  /** The arguments from lo to hi, as far as there are any. */
  function Cut(args: seq<string>, lo: nat, hi: nat): (r: seq<string>)
    requires lo <= hi
  {
    if |args| <= lo then [] else if |args| <= hi then args[lo..] else args[lo..hi]
  }

  /** Each option has its slice of the arguments, and the missing list has the surplus. */
  ghost predicate Sliced(opts: seq<OptInfo>, app: AppState, args: seq<string>) {
    && Bounded(opts) && |app.results| == |opts|
    && SlicedFrom(opts, app.results, args) && app.missing == Kinds(NoKind, Surplus(opts, args))
  }

  ghost predicate SlicedFrom(opts: seq<OptInfo>, results: seq<seq<string>>, args: seq<string>)
    requires Bounded(opts) && |results| == |opts|
  {
    forall i :: 0 <= i < |opts| ==> IsSlice(opts, i, results[i], args)
  }

  ghost predicate IsSlice(opts: seq<OptInfo>, i: nat, values: seq<string>, args: seq<string>)
    requires Bounded(opts) && i < |opts|
  {
    Room(opts, i) <= Room(opts, i + 1) && values == Cut(args, Room(opts, i), Room(opts, i + 1))
  }

  function Surplus(opts: seq<OptInfo>, args: seq<string>): (r: seq<string>)
    requires Bounded(opts)
  {
    if |args| <= Room(opts, |opts|) then [] else args[Room(opts, |opts|)..]
  }

  /** The option in whose slice place m is. */
  lemma {:induction false} OwnerOf(opts: seq<OptInfo>, m: nat, k: nat) returns (o: nat)
    requires Bounded(opts) && k <= |opts| && m < Room(opts, k)
    ensures o < k && Room(opts, o) <= m < Room(opts, o + 1)
    decreases k
  {
    if m < Room(opts, k - 1) {
      o := OwnerOf(opts, m, k - 1);
    } else {
      o := k - 1;
    }
  }

  lemma SliceWants(opts: seq<OptInfo>, i: nat, values: seq<string>, args: seq<string>)
    requires Bounded(opts) && i < |opts| && IsSlice(opts, i, values, args)
    ensures |args| >= Room(opts, i + 1) ==> !Wants(opts[i], |values|)
    ensures Room(opts, i) <= |args| < Room(opts, i + 1) ==> Wants(opts[i], |values|)
  {
  }

  lemma CutNext(args: seq<string>, m: nat, lo: nat, hi: nat)
    requires m < |args| && lo <= hi
    ensures Cut(args[..m + 1], lo, hi) ==
            if lo <= m < hi then Cut(args[..m], lo, hi) + [args[m]] else Cut(args[..m], lo, hi)
  {
    var s, t := args[..m + 1], args[..m];
    assert s == t + [args[m]];
    if lo <= m < hi {
      assert s[lo..] == t[lo..] + [args[m]];
    } else if m >= hi {
      assert s[lo..hi] == t[lo..hi];
    }
  }

  lemma {:induction false} SurplusGrows(opts: seq<OptInfo>, args: seq<string>, m: nat, n: nat)
    requires Bounded(opts) && m <= n <= |args|
    ensures n <= Room(opts, |opts|) ==> Surplus(opts, args[..n]) == Surplus(opts, args[..m])
    ensures Room(opts, |opts|) <= m ==> Surplus(opts, args[..n]) == Surplus(opts, args[..m]) + args[m..n]
  {
    hide Room;
    var r := Room(opts, |opts|);
    if r <= m {
      Tails(args, r, m, n);
      assert m == r ==> args[..m][r..] == [];
    }
  }

  lemma Tails(args: seq<string>, r: nat, m: nat, n: nat)
    requires r <= m <= n <= |args|
    ensures args[..n][r..] == args[..m][r..] + args[m..n]
  {
  }

  /** What one more argument means for one option. */
  lemma SliceNext(opts: seq<OptInfo>, i: nat, values: seq<string>, args: seq<string>, m: nat)
    requires Bounded(opts) && i < |opts| && m < |args| && IsSlice(opts, i, values, args[..m])
    ensures Room(opts, i) <= m < Room(opts, i + 1) ==> IsSlice(opts, i, values + [args[m]], args[..m + 1])
    ensures !(Room(opts, i) <= m < Room(opts, i + 1)) ==> IsSlice(opts, i, values, args[..m + 1])
  {
    hide Room, Cut;
    CutNext(args, m, Room(opts, i), Room(opts, i + 1));
  }

  /** The owner's turn: it is the first that wants the argument. */
  lemma OwnerWants(opts: seq<OptInfo>, results: seq<seq<string>>, args: seq<string>, o: nat)
    requires Bounded(opts) && |results| == |opts| && SlicedFrom(opts, results, args)
    requires o < |opts| && Room(opts, o) <= |args| < Room(opts, o + 1)
    ensures FirstWanting(opts, results, o)
  {
    hide Wants, Cut, Room;
    forall i | 0 <= i < o ensures !Wants(opts[i], |results[i]|) {
      assert IsSlice(opts, i, results[i], args);
      RoomGrows(opts, i + 1, o);
      SliceWants(opts, i, results[i], args);
    }
    assert IsSlice(opts, o, results[o], args);
    SliceWants(opts, o, results[o], args);
  }

  lemma OwnerTakes(opts: seq<OptInfo>, results: seq<seq<string>>, args: seq<string>, m: nat, o: nat)
    requires Bounded(opts) && |results| == |opts| && m < |args| && SlicedFrom(opts, results, args[..m])
    requires o < |opts| && Room(opts, o) <= m < Room(opts, o + 1)
    ensures SlicedFrom(opts, results[o := results[o] + [args[m]]], args[..m + 1])
  {
    hide Room, IsSlice;
    var after := results[o := results[o] + [args[m]]];
    forall i | 0 <= i < |opts| ensures IsSlice(opts, i, after[i], args[..m + 1]) {
      assert IsSlice(opts, i, results[i], args[..m]);
      SliceNext(opts, i, results[i], args, m);
      if i < o {
        RoomGrows(opts, i + 1, o);
      } else if i > o {
        RoomGrows(opts, o + 1, i);
      }
    }
  }

  lemma {:induction false} NoneTakes(opts: seq<OptInfo>, results: seq<seq<string>>, args: seq<string>)
    requires Bounded(opts) && |results| == |opts| && SlicedFrom(opts, results, args)
    requires Room(opts, |opts|) <= |args|
    ensures NoneWants(opts, results)
  {
    hide Wants, Cut, Room;
    forall i | 0 <= i < |opts| ensures !Wants(opts[i], |results[i]|) {
      assert IsSlice(opts, i, results[i], args);
      RoomGrows(opts, i + 1, |opts|);
      SliceWants(opts, i, results[i], args);
    }
  }

  /** Once all have what they expect, more arguments change nothing for them. */
  lemma {:induction false} SlicesStay(opts: seq<OptInfo>, results: seq<seq<string>>, args: seq<string>, m: nat, n: nat)
    requires Bounded(opts) && |results| == |opts| && m <= n <= |args| && SlicedFrom(opts, results, args[..m])
    requires Room(opts, |opts|) <= m
    ensures SlicedFrom(opts, results, args[..n])
  {
    hide Cut, Room;
    forall i | 0 <= i < |opts| ensures IsSlice(opts, i, results[i], args[..n]) {
      assert IsSlice(opts, i, results[i], args[..m]);
      RoomGrows(opts, i + 1, |opts|);
      CutSame(args, m, n, Room(opts, i), Room(opts, i + 1));
    }
  }

  lemma CutSame(args: seq<string>, m: nat, n: nat, lo: nat, hi: nat)
    requires lo <= hi <= m <= n <= |args|
    ensures Cut(args[..n], lo, hi) == Cut(args[..m], lo, hi)
  {
    assert args[..n][lo..hi] == args[lo..hi] && args[..m][lo..hi] == args[lo..hi];
    assert lo == m ==> args[lo..hi] == [];
    assert hi == m ==> args[..m][lo..] == args[lo..hi];
    assert hi == n ==> args[..n][lo..] == args[lo..hi];
  }

  /** Nothing but the results, the parse order and the missing list of the application
      has changed. */
  ghost predicate OnlyHere(apps: seq<AppState>, apps': seq<AppState>, a: nat) {
    && |apps'| == |apps| && a < |apps|
    && (forall b :: 0 <= b < |apps| && b != a ==> apps'[b] == apps[b])
    && apps'[a].parsed == apps[a].parsed && apps'[a].parsedSubs == apps[a].parsedSubs
  }

  lemma {:induction false} LineFrom(tree: Tree, apps: seq<AppState>, a: nat, args: seq<string>, m: nat)
    returns (end: seq<AppState>)
    requires Fits(tree, apps) && Alone(tree, a) && m <= |args| && forall s <- args :: PlainArgument(s)
    requires Sliced(tree[a].options, apps[a], args[..m])
    ensures ParseLoop(tree, State(apps, InOrder(args[m..])), a, false) == Ok(State(end, []))
    ensures OnlyHere(apps, end, a) && Sliced(tree[a].options, end[a], args)
    decreases |args| - m
  {
    hide Sliced, PlainArgument, Recognize, ParsePositional, Weight;
    var st := State(apps, InOrder(args[m..]));
    if m == |args| {
      end := apps;
      assert args[..m] == args && st.args == [];
    } else {
      var s, opts := args[m], tree[a].options;
      assert st.args[|st.args| - 1] == s && st.args[..|st.args| - 1] == InOrder(args[m + 1..]);
      PlainRecognized(tree, apps, a, s);
      var st' := ParsePositional(tree, st, a);
      assert ParseSingle(tree, st, a, false) == Step(Ok(st'), false);
      var n := OnePlainArgument(tree, st, a, args, m);
      end := LineFrom(tree, st'.apps, a, args, n);
    }
  }

  /** One turn: the argument is taken or missing, or all the rest is missing. */
  lemma OnePlainArgument(tree: Tree, st: State, a: nat, args: seq<string>, m: nat) returns (n: nat)
    requires Fits(tree, st.apps) && Alone(tree, a) && m < |args| && st.args == InOrder(args[m..])
    requires Sliced(tree[a].options, st.apps[a], args[..m])
    ensures m < n <= |args|
    ensures var st' := ParsePositional(tree, st, a);
            && st'.args == InOrder(args[n..]) && OnlyHere(st.apps, st'.apps, a)
            && Sliced(tree[a].options, st'.apps[a], args[..n])
  {
    hide ParsePositional, Room, SlicedFrom, Kinds;
    if m < Room(tree[a].options, |tree[a].options|) {
      n := m + 1;
      OneTaken(tree, st, a, args, m);
    } else {
      n := OneLeft(tree, st, a, args, m);
    }
  }

  lemma {:induction false} OneTaken(tree: Tree, st: State, a: nat, args: seq<string>, m: nat)
    requires Fits(tree, st.apps) && Alone(tree, a) && m < |args| && st.args == InOrder(args[m..])
    requires Sliced(tree[a].options, st.apps[a], args[..m]) && m < Room(tree[a].options, |tree[a].options|)
    ensures var st' := ParsePositional(tree, st, a);
            && st'.args == InOrder(args[m + 1..]) && OnlyHere(st.apps, st'.apps, a)
            && Sliced(tree[a].options, st'.apps[a], args[..m + 1])
  {
    hide ParsePositional, Room, SlicedFrom, Kinds, Surplus, FirstWanting, NoneWants, Weight;
    var opts, app := tree[a].options, st.apps[a];
    assert st.args[|st.args| - 1] == args[m] && st.args[..|st.args| - 1] == InOrder(args[m + 1..]);
    PositionalGoes(tree, st, a);
    var o := OwnerOf(opts, m, |opts|);
    assert |args[..m]| == m;
    OwnerWants(opts, app.results, args[..m], o);
    OwnerTakes(opts, app.results, args, m, o);
    RoomGrows(opts, o + 1, |opts|);
    SurplusGrows(opts, args, m, m + 1);
  }

  lemma OneLeft(tree: Tree, st: State, a: nat, args: seq<string>, m: nat) returns (n: nat)
    requires Fits(tree, st.apps) && Alone(tree, a) && m < |args| && st.args == InOrder(args[m..])
    requires Sliced(tree[a].options, st.apps[a], args[..m]) && m >= Room(tree[a].options, |tree[a].options|)
    ensures m < n <= |args|
    ensures var st' := ParsePositional(tree, st, a);
            && st'.args == InOrder(args[n..]) && OnlyHere(st.apps, st'.apps, a)
            && Sliced(tree[a].options, st'.apps[a], args[..n])
  {
    hide ParsePositional, Room, SlicedFrom, Kinds, Surplus, FirstWanting, NoneWants, Weight;
    var opts, app := tree[a].options, st.apps[a];
    assert st.args[|st.args| - 1] == args[m] && st.args[..|st.args| - 1] == InOrder(args[m + 1..]);
    PositionalGoes(tree, st, a);
    assert |args[..m]| == m;
    NoneTakes(opts, app.results, args[..m]);
    n := if tree[a].prefixCommand then |args| else m + 1;
    assert InOrder(st.args) == args[m..];
    assert args[m..n] == if tree[a].prefixCommand then InOrder(st.args) else [args[m]];
    assert tree[a].prefixCommand ==> args[n..] == [];
    SlicesStay(opts, app.results, args, m, n);
    SurplusGrows(opts, args, m, n);
    KindsJoined(NoKind, Surplus(opts, args[..m]), args[m..n]);
  }

  lemma KindsJoined(kind: Classifier, s: seq<string>, t: seq<string>)
    ensures Kinds(kind, s + t) == Kinds(kind, s) + Kinds(kind, t)
  {
  }

  /** The whole line: an application without subcommands whose positionals expect n1, ..., nk
      values, and a list of plain arguments. Each positional gets the next slice of them in
      the order of declaration, and the surplus is missing, in order. */
  lemma PlainLine(tree: Tree, apps: seq<AppState>, a: nat, args: seq<string>) returns (end: seq<AppState>)
    requires Fits(tree, apps) && Alone(tree, a) && Bounded(tree[a].options)
    requires forall s <- args :: PlainArgument(s)
    requires apps[a].missing == [] && forall i :: 0 <= i < |apps[a].results| ==> apps[a].results[i] == []
    ensures ParseAll(tree, State(apps, InOrder(args)), a) == Ok(State(end, []))
    ensures OnlyHere(MarkParsed(apps, a), end, a) && end[a].parsed
    ensures Sliced(tree[a].options, end[a], args)
  {
    var start, opts := MarkParsed(apps, a), tree[a].options;
    forall i | 0 <= i < |opts| ensures IsSlice(opts, i, start[a].results[i], []) {
      RoomGrows(opts, i, i + 1);
    }
    assert args[..0] == [] && args[0..] == args;
    assert Sliced(opts, start[a], []);
    end := LineFrom(tree, start, a, args, 0);
  }
}
