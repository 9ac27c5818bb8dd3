/** The parse order and the results tell the same story. */
module ArgOrder {
  import opened ArgSpec

  /** Every option appears in the parse order as often as it has results. */
  ghost predicate Told(app: AppState) {
    forall o: nat :: multiset(app.parseOrder)[o] == if o < |app.results| then |app.results[o]| else 0
  }

  ghost predicate AllTold(apps: seq<AppState>) {
    forall a :: 0 <= a < |apps| ==> Told(apps[a])
  }

  ghost predicate Tells(r: Outcome) {
    r.Ok? ==> AllTold(r.state.apps)
  }

  lemma AddTells(apps: seq<AppState>, a: nat, o: nat, s: string)
    requires AllTold(apps) && a < |apps| && o < |apps[a].results|
    ensures AllTold(AddResult(apps, a, o, s))
  {
    var before, after := apps[a], AddResult(apps, a, o, s)[a];
    assert Told(before);
    forall p: nat
      ensures multiset(after.parseOrder)[p] == if p < |after.results| then |after.results[p]| else 0
    {
      assert multiset(after.parseOrder)[p] == multiset(before.parseOrder)[p] + if p == o then 1 else 0;
    }
    assert Told(after);
  }

  /** Steps that touch neither results nor parse order. */
  lemma SameTold(apps: seq<AppState>, apps': seq<AppState>)
    requires AllTold(apps) && |apps'| == |apps|
    requires forall a :: 0 <= a < |apps| ==>
               apps'[a].results == apps[a].results && apps'[a].parseOrder == apps[a].parseOrder
    ensures AllTold(apps')
  {
    forall a | 0 <= a < |apps'| ensures Told(apps'[a]) {
      assert Told(apps[a]);
    }
  }

  lemma {:induction false} AllMissingTells(st: State, a: nat)
    requires AllTold(st.apps) && a < |st.apps|
    ensures AllTold(AllMissing(st, a).apps)
    decreases |st.args|
  {
    hide AllTold, Told;
    if st.args != [] {
      SameTold(st.apps, AddMissing(st.apps, a, NoKind, Back(st.args)));
      AllMissingTells(State(AddMissing(st.apps, a, NoKind, Back(st.args)), Popped(st.args)), a);
    }
  }

  lemma {:induction false} PositionalTells(tree: Tree, st: State, a: nat)
    requires Fits(tree, st.apps) && a < |tree| && st.args != [] && AllTold(st.apps)
    ensures AllTold(ParsePositional(tree, st, a).apps)
    decreases a
  {
    hide AllTold, Told, Weight;
    var positional := Back(st.args);
    match FindPositional(tree[a].options, st.apps[a].results, 0)
    case Some(o) => AddTells(st.apps, a, o, positional);
    case None =>
      if tree[a].parent.Some? && tree[a].fallthrough {
        PositionalTells(tree, st, tree[a].parent.value);
      } else {
        var apps := AddMissing(st.apps, a, NoKind, positional);
        SameTold(st.apps, apps);
        AllMissingTells(State(apps, Popped(st.args)), a);
      }
  }

  lemma {:induction false} UnlimitedTells(tree: Tree, st: State, a: nat, o: nat, num: int, collected: nat)
    requires Fits(tree, st.apps) && a < |tree| && o < |tree[a].options| && num < 0 && AllTold(st.apps)
    ensures AllTold(EatUnlimited(tree, st, a, o, num, collected).apps)
    decreases |st.args|
  {
    hide AllTold, Told, Recognize, CountRemaining, Weight, AddResult;
    if st.args != [] && Recognize(tree, st.apps, a, Back(st.args)) == NoKind
       && !(collected >= -num && CountRemaining(tree[a].options, st.apps[a].results, false) > 0) {
      AddTells(st.apps, a, o, Back(st.args));
      UnlimitedTells(tree, State(AddResult(st.apps, a, o, Back(st.args)), Popped(st.args)), a, o, num, collected + 1);
    }
  }

  lemma {:induction false} ExactlyTells(tree: Tree, st: State, a: nat, o: nat, num: nat)
    requires Fits(tree, st.apps) && a < |tree| && o < |tree[a].options| && AllTold(st.apps)
    ensures Tells(EatExactly(tree, st, a, o, num))
    decreases num
  {
    hide AllTold, Told, Weight, AddResult;
    if num > 0 && st.args != [] {
      AddTells(st.apps, a, o, Back(st.args));
      ExactlyTells(tree, State(AddResult(st.apps, a, o, Back(st.args)), Popped(st.args)), a, o, num - 1);
    }
  }

  lemma MoreTells(tree: Tree, st: State, a: nat, o: nat, num: int, collected: nat)
    requires Fits(tree, st.apps) && a < |tree| && o < |tree[a].options| && AllTold(st.apps)
    ensures Tells(TakeMore(tree, st, a, o, num, collected))
  {
    hide AllTold, Told;
    if num < 0 {
      UnlimitedTells(tree, st, a, o, num, collected);
    } else {
      ExactlyTells(tree, st, a, o, num);
    }
  }

  lemma OptionTells(tree: Tree, st: State, a: nat, o: nat, value: string, rest: string)
    requires Fits(tree, st.apps) && a < |tree| && o < |tree[a].options| && AllTold(st.apps)
    ensures Tells(TakeOption(tree, st, a, o, value, rest))
  {
    hide AllTold, Told, TakeMore, AddResult, Weight;
    var num := tree[a].options[o].itemsExpected;
    var left := if num > 0 then num - 1 else num;
    AddTells(st.apps, a, o, value);
    AddTells(st.apps, a, o, "");
    AddTells(st.apps, a, o, rest);
    MoreTells(tree, State(AddResult(st.apps, a, o, value), st.args), a, o, left, 1);
    MoreTells(tree, State(AddResult(st.apps, a, o, rest), st.args), a, o, left, 1);
    MoreTells(tree, st, a, o, num, 0);
  }

  lemma {:induction false} ArgTells(tree: Tree, st: State, a: nat, long: bool)
    requires Fits(tree, st.apps) && a < |tree| && st.args != [] && AllTold(st.apps)
    ensures Tells(ParseArg(tree, st, a, long))
    decreases a
  {
    hide AllTold, Told, TakeOption, FindNamed, Weight;
    var current := Back(st.args);
    if if long then LooksLong(current) else LooksShort(current) {
      var name := if long then LongName(current) else current[1..2];
      match FindNamed(tree[a].options, name, long, 0)
      case Some(o) =>
        OptionTells(tree, State(st.apps, Popped(st.args)), a, o, if long then LongValue(current) else [],
                    if long then [] else current[2..]);
      case None =>
        if tree[a].parent.Some? && tree[a].fallthrough {
          ArgTells(tree, st, tree[a].parent.value, long);
        } else {
          SameTold(st.apps, AddMissing(st.apps, a, if long then Long else Short, current));
        }
    }
  }

  lemma {:induction false} SubcommandTells(tree: Tree, st: State, a: nat)
    requires Fits(tree, st.apps) && a < |tree| && st.args != [] && AllTold(st.apps)
    ensures Tells(ParseSubcommand(tree, st, a))
    decreases Weight(st.args), 0, a
  {
    hide AllTold, Told, FindSub, CountRemaining, ParsePositional;
    if CountRemaining(tree[a].options, st.apps[a].results, true) > 0 {
      PositionalTells(tree, st, a);
    } else {
      match FindSub(tree, tree[a].subs, Back(st.args))
      case Some(sub) =>
        SameTold(st.apps, MarkSub(st.apps, a, sub));
        ParseTells(tree, State(MarkSub(st.apps, a, sub), Popped(st.args)), sub);
      case None =>
        if tree[a].parent.Some? {
          SubcommandTells(tree, st, tree[a].parent.value);
        }
    }
  }

  lemma {:induction false} SingleTells(tree: Tree, st: State, a: nat, positionalOnly: bool)
    requires Fits(tree, st.apps) && a < |tree| && st.args != [] && AllTold(st.apps)
    ensures Tells(ParseSingle(tree, st, a, positionalOnly).outcome)
    decreases Weight(st.args), 1, a
  {
    hide AllTold, Told, Recognize, ParseSubcommand, ParseArg, ParsePositional;
    SameTold(st.apps, AddMissing(st.apps, a, PositionalMark, Back(st.args)));
    SubcommandTells(tree, st, a);
    ArgTells(tree, st, a, true);
    ArgTells(tree, st, a, false);
    PositionalTells(tree, st, a);
  }

  lemma {:induction false} LoopTells(tree: Tree, st: State, a: nat, positionalOnly: bool)
    requires Fits(tree, st.apps) && a < |tree| && AllTold(st.apps)
    ensures Tells(ParseLoop(tree, st, a, positionalOnly))
    decreases Weight(st.args), 2, a
  {
    hide AllTold, Told, ParseSingle;
    if st.args != [] {
      SingleTells(tree, st, a, positionalOnly);
      var step := ParseSingle(tree, st, a, positionalOnly);
      if step.outcome.Ok? {
        LoopTells(tree, step.outcome.state, a, step.positionalOnly);
      }
    }
  }

  /** Whatever the arguments and the tree of applications, a parse that throws nothing
      leaves every option, in every application, in the parse order exactly as often as
      it has results. */
  lemma {:induction false} ParseTells(tree: Tree, st: State, a: nat)
    requires Fits(tree, st.apps) && a < |tree| && AllTold(st.apps)
    ensures Tells(ParseAll(tree, st, a))
    decreases Weight(st.args), 3, a
  {
    hide AllTold, Told;
    SameTold(st.apps, MarkParsed(st.apps, a));
    LoopTells(tree, State(MarkParsed(st.apps, a), st.args), a, false);
  }
}
