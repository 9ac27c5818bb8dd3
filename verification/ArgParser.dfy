/** The parser itself: one state of applications and arguments, changed in place. */
module ArgParser {
  import opened ArgSpec

  class Parser {
    const tree: Tree
    var apps: seq<AppState>
    var args: seq<string>

    ghost predicate Valid()
      reads this
    {
      Fits(tree, apps)
    }

    function Value(): (r: State)
      reads this
    {
      State(apps, args)
    }

    constructor (tree: Tree, arguments: seq<string>)
      requires IsTree(tree)
      ensures Valid() && this.tree == tree
      ensures |args| == |arguments| && forall i :: 0 <= i < |args| ==> args[i] == arguments[|arguments| - 1 - i]
      ensures forall a :: 0 <= a < |apps| ==> !apps[a].parsed && apps[a].missing == [] && apps[a].parsedSubs == []
    {
      this.tree := tree;
      apps := seq(|tree|, a requires 0 <= a < |tree| =>
        AppState(seq(|tree[a].options|, _ => []), [], [], false, []));
      args := seq(|arguments|, i requires 0 <= i < |arguments| => arguments[|arguments| - 1 - i]);
    }

    method Pop() returns (s: string)
      requires args != []
      modifies `args
      ensures s == Back(old(args)) && args == Popped(old(args))
    {
      s := args[|args| - 1];
      args := args[..|args| - 1];
    }

    method Add(a: nat, o: nat, s: string)
      requires Valid() && a < |tree| && o < |tree[a].options|
      modifies `apps
      ensures Valid() && apps == AddResult(old(apps), a, o, s)
    {
      apps := AddResult(apps, a, o, s);
    }

    method ParsePositionalArg(a: nat)
      requires Valid() && a < |tree| && args != []
      modifies this
      ensures Valid() && Value() == ParsePositional(tree, old(Value()), a)
      decreases a
    {
      var i := 0;
      while i < |tree[a].options|
        invariant i <= |tree[a].options|
        invariant FindPositional(tree[a].options, apps[a].results, 0)
                  == FindPositional(tree[a].options, apps[a].results, i)
        invariant Value() == old(Value())
      {
        var opt := tree[a].options[i];
        if opt.pname != [] && (|apps[a].results[i]| < opt.itemsExpected || opt.itemsExpected < 0) {
          var positional := Pop();
          Add(a, i, positional);
          return;
        }
        i := i + 1;
      }
      if tree[a].parent.Some? && tree[a].fallthrough {
        ParsePositionalArg(tree[a].parent.value);
      } else {
        var positional := Pop();
        apps := AddMissing(apps, a, NoKind, positional);
        if tree[a].prefixCommand {
          ghost var goal := AllMissing(Value(), a);
          while args != []
            invariant Valid() && AllMissing(Value(), a) == goal
            decreases |args|
          {
            var left := Pop();
            apps := AddMissing(apps, a, NoKind, left);
          }
        }
      }
    }

    /** The loops at the end of _parse_arg. */
    method EatArguments(a: nat, o: nat, expected: int, already: nat) returns (ok: bool)
      requires Valid() && a < |tree| && o < |tree[a].options|
      modifies this
      ensures Valid()
      ensures ok ==> TakeMore(tree, old(Value()), a, o, expected, already) == Ok(Value())
      ensures !ok ==> TakeMore(tree, old(Value()), a, o, expected, already) == Thrown(TooFewArguments)
    {
      hide EatUnlimited, EatExactly, Fits;
      if expected < 0 {
        EatAll(a, o, expected, already);
        ok := true;
      } else {
        ok := EatSome(a, o, expected);
      }
    }

    method EatAll(a: nat, o: nat, num: int, already: nat)
      requires Valid() && a < |tree| && o < |tree[a].options| && num < 0
      modifies this
      ensures Valid() && Value() == EatUnlimited(tree, old(Value()), a, o, num, already)
    {
      hide ValidSubcommand, Recognize, Weight, CountRemaining;
      var collected: nat := already;
      ghost var goal := EatUnlimited(tree, Value(), a, o, num, collected);
      while args != [] && Recognize(tree, apps, a, Back(args)) == NoKind
        invariant Valid() && EatUnlimited(tree, Value(), a, o, num, collected) == goal
        decreases |args|
      {
        if collected >= -num {
          if CountRemaining(tree[a].options, apps[a].results, false) > 0 {
            break;
          }
        }
        var s := Pop();
        Add(a, o, s);
        collected := collected + 1;
      }
      if args != [] && Recognize(tree, apps, a, Back(args)) == PositionalMark {
        var _ := Pop();
      }
    }

    method EatSome(a: nat, o: nat, expected: nat) returns (ok: bool)
      requires Valid() && a < |tree| && o < |tree[a].options|
      modifies this
      ensures Valid()
      ensures ok ==> EatExactly(tree, old(Value()), a, o, expected) == Ok(Value())
      ensures !ok ==> EatExactly(tree, old(Value()), a, o, expected) == Thrown(TooFewArguments)
    {
      hide Weight;
      var num := expected;
      ghost var goal := EatExactly(tree, Value(), a, o, num);
      while num > 0 && args != []
        invariant Valid() && EatExactly(tree, Value(), a, o, num) == goal
        decreases num
      {
        num := num - 1;
        var s := Pop();
        Add(a, o, s);
      }
      ok := num == 0;
    }

    method ParseArgument(a: nat, secondDash: bool) returns (r: Result)
      requires Valid() && a < |tree| && args != []
      modifies this
      ensures Valid()
      ensures r.Fine? ==> ParseArg(tree, old(Value()), a, secondDash) == Ok(Value())
      ensures r.Threw? ==> ParseArg(tree, old(Value()), a, secondDash) == Thrown(r.error)
      decreases a
    {
      hide TakeMore, FindNamed;
      var current := args[|args| - 1];
      var name, value, rest := [], [], [];
      if secondDash {
        if !LooksLong(current) {
          return Threw(NotAnOption);
        }
        name, value := LongName(current), LongValue(current);
      } else {
        if !LooksShort(current) {
          return Threw(NotAnOption);
        }
        name, rest := current[1..2], current[2..];
      }
      var found := FindNamed(tree[a].options, name, secondDash, 0);
      if found.None? {
        if tree[a].parent.Some? && tree[a].fallthrough {
          r := ParseArgument(tree[a].parent.value, secondDash);
        } else {
          var _ := Pop();
          apps := AddMissing(apps, a, if secondDash then Long else Short, current);
          r := Fine;
        }
        return;
      }
      var o := found.value;
      var _ := Pop();
      var num, collected := tree[a].options[o].itemsExpected, 0;
      if value != [] {
        num := if num > 0 then num - 1 else num;
        Add(a, o, value);
        collected := 1;
      } else if num == 0 {
        Add(a, o, "");
      } else if rest != [] {
        num := if num > 0 then num - 1 else num;
        Add(a, o, rest);
        rest := "";
        collected := 1;
      }
      TakesNothing(tree, Value(), a, o);
      var ok := EatArguments(a, o, num, collected);
      if !ok {
        return Threw(TooFewArguments);
      }
      if rest != [] {
        args := args + ["-" + rest];
      }
      r := Fine;
    }

    method ParseSub(a: nat) returns (r: Result)
      requires Valid() && a < |tree| && args != []
      modifies this
      ensures Valid()
      ensures r.Fine? ==> ParseSubcommand(tree, old(Value()), a) == Ok(Value())
      ensures r.Threw? ==> ParseSubcommand(tree, old(Value()), a) == Thrown(r.error)
      decreases Weight(args), 0, a
    {
      hide CountRemaining, FindSub, ParsePositional;
      if CountRemaining(tree[a].options, apps[a].results, true) > 0 {
        ParsePositionalArg(a);
        return Fine;
      }
      var com := FindSub(tree, tree[a].subs, args[|args| - 1]);
      if com.Some? {
        var _ := Pop();
        apps := MarkSub(apps, a, com.value);
        r := Parse(com.value);
      } else if tree[a].parent.Some? {
        r := ParseSub(tree[a].parent.value);
      } else {
        r := Threw(SubcommandMissing);
      }
    }

    method ParseOne(a: nat, positionalOnly: bool) returns (r: Result, positionalOnly': bool)
      requires Valid() && a < |tree| && args != []
      modifies this
      ensures Valid()
      ensures r.Fine? ==> ParseSingle(tree, old(Value()), a, positionalOnly) == Step(Ok(Value()), positionalOnly')
      ensures r.Fine? ==> Weight(args) < Weight(old(args))
      ensures r.Threw? ==> ParseSingle(tree, old(Value()), a, positionalOnly) == Step(Thrown(r.error), positionalOnly')
      decreases Weight(args), 1, a
    {
      hide Recognize, ParseSubcommand, ParseArg, ParsePositional;
      positionalOnly', r := positionalOnly, Fine;
      var classifier := if positionalOnly then NoKind else Recognize(tree, apps, a, args[|args| - 1]);
      match classifier
      case PositionalMark =>
        var mark := Pop();
        apps := AddMissing(apps, a, PositionalMark, mark);
        positionalOnly' := true;
      case Subcommand =>
        r := ParseSub(a);
      case Long =>
        r := ParseArgument(a, true);
      case Short =>
        r := ParseArgument(a, false);
      case NoKind =>
        ParsePositionalArg(a);
    }

    /** The loop ends for every argument list: each turn lowers the weight of the
        arguments, although a group of flags pushes a shorter argument back. */
    method Parse(a: nat) returns (r: Result)
      requires Valid() && a < |tree|
      modifies this
      ensures Valid()
      ensures r.Fine? ==> ParseAll(tree, old(Value()), a) == Ok(Value()) && args == []
      ensures r.Threw? ==> ParseAll(tree, old(Value()), a) == Thrown(r.error)
      decreases Weight(args), 3, a
    {
      hide ParseSingle;
      ghost var goal := ParseAll(tree, Value(), a);
      ghost var start := Weight(args);
      apps := MarkParsed(apps, a);
      var positionalOnly := false;
      while args != []
        invariant Valid() && ParseLoop(tree, Value(), a, positionalOnly) == goal && Weight(args) <= start
        decreases Weight(args)
      {
        r, positionalOnly := ParseOne(a, positionalOnly);
        if r.Threw? {
          return;
        }
      }
      r := Fine;
    }
  }

  datatype Result = Fine | Threw(error: Error)

  lemma TakesNothing(tree: Tree, st: State, a: nat, o: nat)
    requires Fits(tree, st.apps) && a < |tree| && o < |tree[a].options|
    ensures TakeMore(tree, st, a, o, 0, 0) == Ok(st)
  {
  }
}
