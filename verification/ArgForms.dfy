/** Two ways to give an option its first value mean the same. */
module ArgForms {
  import opened Bytes
  import opened CharText
  import opened ArgSpec

  lemma {:induction false} EqualsSign(name: string, value: string)
    requires '=' !in name
    ensures IndexOf(name + "=" + value, '=') == |name| && IndexOf(name, '=') == |name|
    decreases |name|
  {
    if name != [] {
      assert (name + "=" + value)[1..] == name[1..] + "=" + value;
      EqualsSign(name[1..], value);
    }
  }

  /** Where a name is found: here, or further up by fallthrough. */
  function Resolve(tree: Tree, a: nat, name: string, long: bool): (r: Option<(nat, nat)>)
    requires IsTree(tree) && a < |tree|
    ensures r.Some? ==> r.value.0 < |tree| && r.value.1 < |tree[r.value.0].options|
    decreases a
  {
    match FindNamed(tree[a].options, name, long, 0)
    case Some(o) => Some((a, o))
    case None =>
      if tree[a].parent.Some? && tree[a].fallthrough then Resolve(tree, tree[a].parent.value, name, long) else None
  }

  /** The option takes values, and `value` can be the first of them. */
  ghost predicate Takes(tree: Tree, apps: seq<AppState>, a: nat, name: string, long: bool, value: string)
    requires Fits(tree, apps) && a < |tree|
  {
    && value != []
    && Resolve(tree, a, name, long).Some?
    && var (b, o) := Resolve(tree, a, name, long).value;
       var n := tree[b].options[o].itemsExpected;
       n > 0 || (n < 0 && Recognize(tree, apps, b, value) == NoKind)
  }

  /** A value at hand counts as one argument already taken. */
  lemma FirstValue(tree: Tree, apps: seq<AppState>, args: seq<string>, b: nat, o: nat, value: string)
    requires Fits(tree, apps) && b < |tree| && o < |tree[b].options| && value != []
    requires var n := tree[b].options[o].itemsExpected; n > 0 || (n < 0 && Recognize(tree, apps, b, value) == NoKind)
    ensures var given := TakeOption(tree, State(apps, args), b, o, value, []);
            && TakeOption(tree, State(apps, args), b, o, [], value) == given
            && TakeOption(tree, State(apps, args + [value]), b, o, [], []) == given
  {
    hide Recognize, CountRemaining, Weight;
    var st := State(apps, args + [value]);
    assert Back(st.args) == value && Popped(st.args) == args;
  }

  lemma LongParts(name: string, value: string)
    requires name != [] && FirstChar(name[0]) && '=' !in name
    ensures var joined, plain := "--" + name + "=" + value, "--" + name;
            && LooksLong(joined) && LongName(joined) == name && LongValue(joined) == value
            && LooksLong(plain) && LongName(plain) == name && LongValue(plain) == []
  {
    var joined, plain := "--" + name + "=" + value, "--" + name;
    EqualsSign(plain, value);
    assert joined[2] == name[0] && plain[2] == name[0];
    var k := |name| + 2;
    assert IndexOf(joined, '=') == k && IndexOf(plain, '=') == k;
    assert joined[2..k] == name && joined[k + 1..] == value && plain[2..k] == name;
  }

  lemma {:induction false} LongForms(tree: Tree, apps: seq<AppState>, args: seq<string>, a: nat, name: string,
                                     value: string)
    requires Fits(tree, apps) && a < |tree| && name != [] && FirstChar(name[0]) && '=' !in name
    requires Takes(tree, apps, a, name, true, value)
    ensures ParseArg(tree, State(apps, args + ["--" + name + "=" + value]), a, true) ==
            ParseArg(tree, State(apps, args + [value] + ["--" + name]), a, true)
    decreases a
  {
    hide TakeOption, Recognize, Weight;
    var joined, plain := "--" + name + "=" + value, "--" + name;
    var s, t := State(apps, args + [joined]), State(apps, args + [value] + [plain]);
    assert Back(s.args) == joined && Popped(s.args) == args && Back(t.args) == plain
           && Popped(t.args) == args + [value];
    LongParts(name, value);
    if FindNamed(tree[a].options, name, true, 0).None? {
      LongForms(tree, apps, args, tree[a].parent.value, name, value);
    } else {
      FirstValue(tree, apps, args, a, FindNamed(tree[a].options, name, true, 0).value, value);
    }
  }

  lemma {:induction false} ShortForms(tree: Tree, apps: seq<AppState>, args: seq<string>, a: nat, c: char,
                                      value: string)
    requires Fits(tree, apps) && a < |tree| && FirstChar(c) && Takes(tree, apps, a, [c], false, value)
    ensures ParseArg(tree, State(apps, args + ["-" + [c] + value]), a, false) ==
            ParseArg(tree, State(apps, args + [value] + ["-" + [c]]), a, false)
    decreases a
  {
    hide TakeOption, Recognize, Weight;
    var joined, plain := "-" + [c] + value, "-" + [c];
    var s, t := State(apps, args + [joined]), State(apps, args + [value] + [plain]);
    assert Back(s.args) == joined && Popped(s.args) == args && Back(t.args) == plain
           && Popped(t.args) == args + [value];
    assert joined[1..2] == [c] && joined[2..] == value && plain[1..2] == [c] && plain[2..] == [];
    if FindNamed(tree[a].options, [c], false, 0).None? {
      ShortForms(tree, apps, args, tree[a].parent.value, c, value);
    } else {
      FirstValue(tree, apps, args, a, FindNamed(tree[a].options, [c], false, 0).value, value);
    }
  }

  /** From any state, "--name=value" parses as "--name value" does: one step with the same
      results, order, remaining arguments and errors, however many values are taken. */
  lemma {:induction false} EqualsMeansSeparate(tree: Tree, apps: seq<AppState>, args: seq<string>, a: nat, name: string,
                                               value: string)
    requires Fits(tree, apps) && a < |tree| && name != [] && FirstChar(name[0]) && '=' !in name
    requires Takes(tree, apps, a, name, true, value)
    requires !ValidSubcommand(tree, apps, a, "--" + name) && !ValidSubcommand(tree, apps, a, "--" + name + "=" + value)
    ensures ParseSingle(tree, State(apps, args + ["--" + name + "=" + value]), a, false) ==
            ParseSingle(tree, State(apps, args + [value] + ["--" + name]), a, false)
    ensures ParseSingle(tree, State(apps, args + ["--" + name + "=" + value]), a, false) ==
            Step(ParseArg(tree, State(apps, args + ["--" + name + "=" + value]), a, true), false)
  {
    hide ParseArg, ValidSubcommand, Takes, Weight;
    var joined, plain := "--" + name + "=" + value, "--" + name;
    assert Back(args + [joined]) == joined && Back(args + [value] + [plain]) == plain;
    assert |joined| > 2 && |plain| > 2 && joined[2] == name[0] && plain[2] == name[0];
    LongForms(tree, apps, args, a, name, value);
  }

  /** From any state, "-nvalue" parses as "-n value" does. */
  lemma {:induction false} GluedMeansSeparate(tree: Tree, apps: seq<AppState>, args: seq<string>, a: nat, c: char,
                                              value: string)
    requires Fits(tree, apps) && a < |tree| && FirstChar(c) && Takes(tree, apps, a, [c], false, value)
    requires !ValidSubcommand(tree, apps, a, "-" + [c]) && !ValidSubcommand(tree, apps, a, "-" + [c] + value)
    ensures ParseSingle(tree, State(apps, args + ["-" + [c] + value]), a, false) ==
            ParseSingle(tree, State(apps, args + [value] + ["-" + [c]]), a, false)
    ensures ParseSingle(tree, State(apps, args + ["-" + [c] + value]), a, false) ==
            Step(ParseArg(tree, State(apps, args + ["-" + [c] + value]), a, false), false)
  {
    hide ParseArg, ValidSubcommand, Takes, Weight;
    var joined, plain := "-" + [c] + value, "-" + [c];
    assert Back(args + [joined]) == joined && Back(args + [value] + [plain]) == plain;
    assert joined[1] == c && plain[1] == c;
    ShortForms(tree, apps, args, a, c, value);
  }
}
