/** A group of short flags means the same as the flags given one by one. */
module ArgGroups {
  import opened CharText
  import opened ArgSpec
  import opened ArgForms

  /** The characters of a group: each names a flag, and no part of the group is
      the name of a subcommand that could be parsed next. */
  ghost predicate IsGroup(tree: Tree, apps: seq<AppState>, a: nat, cs: string)
    requires Fits(tree, apps) && a < |tree|
  {
    forall i :: 0 <= i < |cs| ==>
      && FirstChar(cs[i])
      && !ValidSubcommand(tree, apps, a, "-" + cs[i..])
      && !ValidSubcommand(tree, apps, a, "-" + [cs[i]])
      && Resolve(tree, a, [cs[i]], false).Some?
      && var (b, o) := Resolve(tree, a, [cs[i]], false).value; tree[b].options[o].itemsExpected == 0
  }

  /** The flags one by one; the first is at the end, where arguments are taken. */
  function OneByOne(cs: string): (r: seq<string>) {
    if cs == [] then [] else OneByOne(cs[1..]) + ["-" + [cs[0]]]
  }

  /** Each flag gets one more empty result, in order. */
  function AddFlags(tree: Tree, apps: seq<AppState>, a: nat, cs: string): (apps': seq<AppState>)
    requires Fits(tree, apps) && a < |tree| && forall c <- cs :: Resolve(tree, a, [c], false).Some?
    ensures Fits(tree, apps')
    decreases cs
  {
    if cs == [] then apps
    else
      var (b, o) := Resolve(tree, a, [cs[0]], false).value;
      AddFlags(tree, AddResult(apps, b, o, ""), a, cs[1..])
  }

  /** Results do not matter to what counts as a subcommand. */
  lemma {:induction false} SubcommandsSame(tree: Tree, apps: seq<AppState>, a: nat, b: nat, o: nat, s: string,
                                           current: string)
    requires Fits(tree, apps) && a < |tree| && b < |tree| && o < |tree[b].options|
    ensures Fits(tree, AddResult(apps, b, o, s))
    ensures ValidSubcommand(tree, AddResult(apps, b, o, s), a, current) == ValidSubcommand(tree, apps, a, current)
    decreases a
  {
    var apps' := AddResult(apps, b, o, s);
    assert forall i :: 0 <= i < |apps| ==>
             apps'[i].parsed == apps[i].parsed && apps'[i].parsedSubs == apps[i].parsedSubs;
    assert OffersSub(tree, apps', tree[a].subs, current) == OffersSub(tree, apps, tree[a].subs, current);
    if tree[a].parent.Some? {
      SubcommandsSame(tree, apps, tree[a].parent.value, b, o, s, current);
    }
  }

  lemma {:induction false} FlagArgument(tree: Tree, apps: seq<AppState>, args: seq<string>, a: nat, c: char,
                                        more: string)
    requires Fits(tree, apps) && a < |tree| && FirstChar(c) && Resolve(tree, a, [c], false).Some?
    requires var (b, o) := Resolve(tree, a, [c], false).value; tree[b].options[o].itemsExpected == 0
    ensures var (b, o) := Resolve(tree, a, [c], false).value;
            ParseArg(tree, State(apps, args + ["-" + [c] + more]), a, false) ==
            Ok(State(AddResult(apps, b, o, ""), args + if more == [] then [] else ["-" + more]))
    decreases a
  {
    var token := "-" + [c] + more;
    var st := State(apps, args + [token]);
    assert Back(st.args) == token && Popped(st.args) == args && token[1..2] == [c] && token[2..] == more;
    if FindNamed(tree[a].options, [c], false, 0).None? {
      FlagArgument(tree, apps, args, tree[a].parent.value, c, more);
    } else if more == [] {
      assert args + [] == args;
    }
  }

  lemma {:induction false} FlagStep(tree: Tree, apps: seq<AppState>, args: seq<string>, a: nat, c: char, more: string)
    requires Fits(tree, apps) && a < |tree| && FirstChar(c) && Resolve(tree, a, [c], false).Some?
    requires var (b, o) := Resolve(tree, a, [c], false).value; tree[b].options[o].itemsExpected == 0
    requires !ValidSubcommand(tree, apps, a, "-" + [c] + more)
    ensures var (b, o) := Resolve(tree, a, [c], false).value;
            ParseSingle(tree, State(apps, args + ["-" + [c] + more]), a, false) ==
            Step(Ok(State(AddResult(apps, b, o, ""), args + if more == [] then [] else ["-" + more])), false)
  {
    hide ValidSubcommand, Resolve, ParseArg;
    var token := "-" + [c] + more;
    assert Back(args + [token]) == token && token[1] == c && token != "--";
    FlagArgument(tree, apps, args, a, c, more);
  }

  /** The loop after one flag has been taken. */
  lemma {:induction false} FlagLoop(tree: Tree, apps: seq<AppState>, args: seq<string>, a: nat, c: char, more: string)
    requires Fits(tree, apps) && a < |tree| && FirstChar(c) && Resolve(tree, a, [c], false).Some?
    requires var (b, o) := Resolve(tree, a, [c], false).value; tree[b].options[o].itemsExpected == 0
    requires !ValidSubcommand(tree, apps, a, "-" + [c] + more)
    ensures var (b, o) := Resolve(tree, a, [c], false).value;
            Fits(tree, AddResult(apps, b, o, "")) &&
            ParseLoop(tree, State(apps, args + ["-" + [c] + more]), a, false) ==
            ParseLoop(tree, State(AddResult(apps, b, o, ""), args + if more == [] then [] else ["-" + more]), a, false)
  {
    hide ValidSubcommand, Resolve, ParseSingle;
    FlagStep(tree, apps, args, a, c, more);
  }

  lemma {:induction false} GroupTail(tree: Tree, apps: seq<AppState>, a: nat, cs: string)
    requires Fits(tree, apps) && a < |tree| && cs != [] && IsGroup(tree, apps, a, cs)
    ensures var (b, o) := Resolve(tree, a, [cs[0]], false).value;
            Fits(tree, AddResult(apps, b, o, "")) && IsGroup(tree, AddResult(apps, b, o, ""), a, cs[1..])
  {
    hide ValidSubcommand, Resolve, AddResult;
    var (b, o) := Resolve(tree, a, [cs[0]], false).value;
    SubcommandsSame(tree, apps, a, b, o, "", "");
    var apps', tail := AddResult(apps, b, o, ""), cs[1..];
    forall i | 0 <= i < |tail|
      ensures FirstChar(tail[i]) && !ValidSubcommand(tree, apps', a, "-" + tail[i..])
              && !ValidSubcommand(tree, apps', a, "-" + [tail[i]])
              && Resolve(tree, a, [tail[i]], false).Some?
              && var (b, o) := Resolve(tree, a, [tail[i]], false).value; tree[b].options[o].itemsExpected == 0
    {
      assert tail[i] == cs[i + 1] && tail[i..] == cs[i + 1..];
      SubcommandsSame(tree, apps, a, b, o, "", "-" + tail[i..]);
      SubcommandsSame(tree, apps, a, b, o, "", "-" + [tail[i]]);
    }
  }

  /** From any state, parsing on from a group of flags is parsing on from the flags
      given one by one: same results, parse order, missing list, subcommands and
      remaining arguments, whatever follows. Both take exactly the flags. */
  lemma {:induction false} GroupMeansOneByOne(tree: Tree, apps: seq<AppState>, args: seq<string>, a: nat, cs: string)
    requires Fits(tree, apps) && a < |tree| && cs != [] && IsGroup(tree, apps, a, cs)
    ensures forall c <- cs :: Resolve(tree, a, [c], false).Some?
    ensures ParseLoop(tree, State(apps, args + ["-" + cs]), a, false) ==
            ParseLoop(tree, State(AddFlags(tree, apps, a, cs), args), a, false)
    ensures ParseLoop(tree, State(apps, args + OneByOne(cs)), a, false) ==
            ParseLoop(tree, State(AddFlags(tree, apps, a, cs), args), a, false)
    decreases |cs|
  {
    hide ValidSubcommand, Resolve, AddResult, ParseLoop;
    var c, tail := cs[0], cs[1..];
    assert FirstChar(c) && "-" + cs[0..] == "-" + [c] + tail && cs[0..] == cs;
    assert "-" + [c] + "" == "-" + [c];
    GroupTail(tree, apps, a, cs);
    var (b, o) := Resolve(tree, a, [c], false).value;
    var apps' := AddResult(apps, b, o, "");
    FlagLoop(tree, apps, args, a, c, tail);
    var before := OneByOne(tail);
    FlagLoop(tree, apps, args + before, a, c, "");
    assert args + OneByOne(cs) == args + before + ["-" + [c] + ""];
    assert args + before + [] == args + before;
    if tail == [] {
      assert args + [] == args && before == [];
    } else {
      GroupMeansOneByOne(tree, apps', args, a, tail);
    }
  }
}
