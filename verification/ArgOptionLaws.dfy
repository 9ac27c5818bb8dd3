/** What named options, the mark "--" and subcommands do in the argument loop, told case by
    case. */
module ArgOptionLaws {
  import opened Bytes
  import opened CharText
  import opened ArgSpec
  import opened ArgLaws

  /* ---- looks ---- */

  lemma BeginsNameIs(c: char)
    ensures FirstChar(c) <==> BeginsName(c)
  {
  }

  /** What an argument is taken for, in the order of the tests. */
  lemma Recognized(tree: Tree, apps: seq<AppState>, a: nat, s: string)
    requires Fits(tree, apps) && a < |tree|
    ensures s == "--" ==> Recognize(tree, apps, a, s) == PositionalMark
    ensures s != "--" && NamesSubcommand(tree, apps, a, s) ==> Recognize(tree, apps, a, s) == Subcommand
    ensures s != "--" && !NamesSubcommand(tree, apps, a, s) && |s| >= 3 && s[..2] == "--" && BeginsName(s[2]) ==>
              Recognize(tree, apps, a, s) == Long
    ensures s != "--" && !NamesSubcommand(tree, apps, a, s) && |s| >= 2 && s[0] == '-' && BeginsName(s[1]) ==>
              Recognize(tree, apps, a, s) == Short
    ensures PlainArgument(s) && !NamesSubcommand(tree, apps, a, s) ==> Recognize(tree, apps, a, s) == NoKind
  {
    hide ValidSubcommand, NamesSubcommand;
    SubcommandNamed(tree, apps, a, s);
    if |s| >= 2 && s[..2] == "--" {
      assert s[0] == '-' && s[1] == '-';
    }
  }

  /** An application here or above, not yet at its limit, has a subcommand of this name that
      was not parsed before. */
  ghost predicate NamesSubcommand(tree: Tree, apps: seq<AppState>, a: nat, s: string)
    requires Fits(tree, apps) && a < |tree|
  {
    exists b: nat :: Above(tree, a, b) && OffersHere(tree, apps, b, s)
  }

  /** The application itself, or a parent, or a parent's parent, and so on. */
  ghost predicate Above(tree: Tree, a: nat, b: nat)
    requires IsTree(tree) && a < |tree|
    decreases a
  {
    a == b || (tree[a].parent.Some? && Above(tree, tree[a].parent.value, b))
  }

  ghost predicate OffersHere(tree: Tree, apps: seq<AppState>, b: nat, s: string)
    requires Fits(tree, apps)
  {
    && b < |tree|
    && (tree[b].subcommandMax == 0 || |apps[b].parsedSubs| < tree[b].subcommandMax)
    && exists sub: nat :: sub in tree[b].subs && sub < |tree| && NameFits(tree[sub].name, s, tree[sub].ignoreCase)
                          && !apps[sub].parsed
  }

  lemma OffersIs(tree: Tree, apps: seq<AppState>, b: nat, s: string)
    requires Fits(tree, apps) && b < |tree|
    ensures OffersHere(tree, apps, b, s) <==>
            !(tree[b].subcommandMax != 0 && |apps[b].parsedSubs| >= tree[b].subcommandMax)
            && OffersSub(tree, apps, tree[b].subs, s)
  {
    hide NameFits, SameName;
    forall sub: nat | sub < |tree|
      ensures SameName(tree[sub].name, s, tree[sub].ignoreCase) <==> NameFits(tree[sub].name, s, tree[sub].ignoreCase)
    {
      SameNameFits(tree[sub].name, s, tree[sub].ignoreCase);
    }
    assert forall sub <- tree[b].subs :: sub < |tree|;
  }

  lemma {:induction false} SubcommandNamed(tree: Tree, apps: seq<AppState>, a: nat, s: string)
    requires Fits(tree, apps) && a < |tree|
    ensures ValidSubcommand(tree, apps, a, s) <==> NamesSubcommand(tree, apps, a, s)
    decreases a
  {
    hide OffersHere, OffersSub;
    OffersIs(tree, apps, a, s);
    if tree[a].parent.Some? {
      var p := tree[a].parent.value;
      SubcommandNamed(tree, apps, p, s);
      if b: nat :| Above(tree, p, b) && OffersHere(tree, apps, b, s) {
        assert Above(tree, a, b);
      }
    }
    if OffersHere(tree, apps, a, s) {
      assert Above(tree, a, a);
    }
  }

  /* ---- values of a named option ---- */

  lemma InOrderOfRest(rest: seq<string>, values: seq<string>)
    requires values != []
    ensures Back(rest + InOrder(values)) == values[0] && Popped(rest + InOrder(values)) == rest + InOrder(values[1..])
  {
  }

  lemma {:induction false} ExactlyTakes(tree: Tree, apps: seq<AppState>, a: nat, o: nat, rest: seq<string>,
                                        values: seq<string>)
    requires Fits(tree, apps) && a < |tree| && o < |tree[a].options|
    ensures EatExactly(tree, State(apps, rest + InOrder(values)), a, o, |values|) ==
            Ok(State(WithValues(apps, a, o, values), rest))
    decreases |values|
  {
    hide WithValues, AddResult, Weight;
    if values == [] {
      NoValues(apps, a, o);
      assert rest + InOrder(values) == rest;
    } else {
      InOrderOfRest(rest, values);
      OneValue(apps, a, o, values[0]);
      ExactlyTakes(tree, AddResult(apps, a, o, values[0]), a, o, rest, values[1..]);
      ValuesJoined(apps, a, o, [values[0]], values[1..]);
      assert [values[0]] + values[1..] == values;
    }
  }

  lemma NoValues(apps: seq<AppState>, a: nat, o: nat)
    requires a < |apps| && o < |apps[a].results|
    ensures WithValues(apps, a, o, []) == apps
  {
    var apps' := WithValues(apps, a, o, []);
    assert apps'[a].results[o] == apps[a].results[o];
    assert apps'[a].results == apps[a].results && apps'[a].parseOrder == apps[a].parseOrder;
  }

  lemma {:induction false} ExactlyLacks(tree: Tree, st: State, a: nat, o: nat, n: nat)
    requires Fits(tree, st.apps) && a < |tree| && o < |tree[a].options| && |st.args| < n
    ensures EatExactly(tree, st, a, o, n) == Thrown(TooFewArguments)
    decreases n
  {
    hide AddResult, Weight;
    if st.args != [] {
      ExactlyLacks(tree, State(AddResult(st.apps, a, o, Back(st.args)), Popped(st.args)), a, o, n - 1);
    }
  }

  /** A flag gets one empty result. */
  lemma FlagTakes(tree: Tree, apps: seq<AppState>, a: nat, o: nat, args: seq<string>)
    requires Fits(tree, apps) && a < |tree| && o < |tree[a].options| && tree[a].options[o].itemsExpected == 0
    ensures TakeOption(tree, State(apps, args), a, o, "", "") == Ok(State(WithValues(apps, a, o, [""]), args))
  {
    OneValue(apps, a, o, "");
  }

  /** An option that expects n values takes the next n arguments, whatever they look like;
      with fewer it is an error. */
  lemma OptionTakes(tree: Tree, apps: seq<AppState>, a: nat, o: nat, rest: seq<string>, values: seq<string>)
    requires Fits(tree, apps) && a < |tree| && o < |tree[a].options| && tree[a].options[o].itemsExpected == |values| > 0
    ensures TakeOption(tree, State(apps, rest + InOrder(values)), a, o, "", "") ==
            Ok(State(WithValues(apps, a, o, values), rest))
    ensures |rest| < |values| ==> TakeOption(tree, State(apps, rest), a, o, "", "") == Thrown(TooFewArguments)
  {
    hide WithValues, EatExactly;
    ExactlyTakes(tree, apps, a, o, rest, values);
    if |rest| < |values| {
      ExactlyLacks(tree, State(apps, rest), a, o, |values|);
    }
  }

  /** A positional of the application, or a required one, still lacks some of the values it
      expects. */
  ghost predicate Lacks(opts: seq<OptInfo>, results: seq<seq<string>>, required: bool)
    requires |opts| == |results|
  {
    exists i: nat :: i < |opts| && opts[i].pname != "" && (required ==> opts[i].required)
                     && |results[i]| < opts[i].itemsExpected
  }

  lemma {:induction false} RemainingMeansLacks(opts: seq<OptInfo>, results: seq<seq<string>>, required: bool)
    requires |opts| == |results|
    ensures CountRemaining(opts, results, required) > 0 <==> Lacks(opts, results, required)
    decreases |opts|
  {
    if opts != [] {
      var k := |opts| - 1;
      RemainingMeansLacks(opts[..k], results[..k], required);
      if Lacks(opts[..k], results[..k], required) {
        var i: nat :| i < |opts[..k]| && opts[..k][i].pname != "" && (required ==> opts[..k][i].required)
                      && |results[..k][i]| < opts[..k][i].itemsExpected;
        assert opts[i] == opts[..k][i] && results[i] == results[..k][i];
      }
      if Lacks(opts, results, required) {
        var i: nat :| i < |opts| && opts[i].pname != "" && (required ==> opts[i].required)
                      && |results[i]| < opts[i].itemsExpected;
        if i < k {
          assert opts[i] == opts[..k][i] && results[i] == results[..k][i];
        }
      }
    }
  }

  /** After the first j of these values one more is taken: it is no option, subcommand or
      mark, and either the option needs it or no positional lacks values. */
  ghost predicate TakesNext(tree: Tree, apps: seq<AppState>, a: nat, o: nat, values: seq<string>, j: nat, already: nat,
                            next: string)
    requires Fits(tree, apps) && a < |tree| && o < |tree[a].options| && j <= |values|
    requires Fits(tree, WithValues(apps, a, o, values[..j]))
  {
    var now := WithValues(apps, a, o, values[..j]);
    && Recognize(tree, now, a, next) == NoKind
    && (already + j < -tree[a].options[o].itemsExpected || !Lacks(tree[a].options, now[a].results, false))
  }

  lemma FitsWith(tree: Tree, apps: seq<AppState>, a: nat, o: nat, values: seq<string>)
    requires Fits(tree, apps) && a < |tree| && o < |tree[a].options|
    ensures Fits(tree, WithValues(apps, a, o, values))
  {
  }

  lemma TakesNextLater(tree: Tree, apps: seq<AppState>, a: nat, o: nat, values: seq<string>, j: nat, already: nat,
                       next: string)
    requires Fits(tree, apps) && a < |tree| && o < |tree[a].options| && 0 < j <= |values|
    ensures Fits(tree, WithValues(apps, a, o, values[..j])) && Fits(tree, WithValues(apps, a, o, [values[0]]))
    ensures var got := WithValues(apps, a, o, [values[0]]);
            && Fits(tree, WithValues(got, a, o, values[1..][..j - 1]))
            && (TakesNext(tree, apps, a, o, values, j, already, next) <==>
                TakesNext(tree, got, a, o, values[1..], j - 1, already + 1, next))
  {
    hide WithValues, Recognize, Lacks;
    FitsWith(tree, apps, a, o, values[..j]);
    FitsWith(tree, apps, a, o, [values[0]]);
    var got := WithValues(apps, a, o, [values[0]]);
    FitsWith(tree, got, a, o, values[1..][..j - 1]);
    ValuesJoined(apps, a, o, [values[0]], values[1..][..j - 1]);
    assert [values[0]] + values[1..][..j - 1] == values[..j];
  }

  /** These values are taken one after the other, and what follows is not. */
  ghost predicate Run(tree: Tree, apps: seq<AppState>, a: nat, o: nat, rest: seq<string>, values: seq<string>,
                      already: nat)
    requires Fits(tree, apps) && a < |tree| && o < |tree[a].options|
  {
    && (forall j: nat :: j < |values| ==> Fits(tree, WithValues(apps, a, o, values[..j]))
                                          && TakesNext(tree, apps, a, o, values, j, already, values[j]))
    && Fits(tree, WithValues(apps, a, o, values[..|values|]))
    && (rest != [] ==> !TakesNext(tree, apps, a, o, values, |values|, already, Back(rest)))
  }

  lemma RunTail(tree: Tree, apps: seq<AppState>, a: nat, o: nat, rest: seq<string>, values: seq<string>, already: nat)
    requires Fits(tree, apps) && a < |tree| && o < |tree[a].options| && values != []
    requires Run(tree, apps, a, o, rest, values, already)
    ensures Fits(tree, WithValues(apps, a, o, [values[0]]))
    ensures Run(tree, WithValues(apps, a, o, [values[0]]), a, o, rest, values[1..], already + 1)
  {
    hide WithValues, TakesNext;
    FitsWith(tree, apps, a, o, [values[0]]);
    var got, tail := WithValues(apps, a, o, [values[0]]), values[1..];
    forall j: nat | j < |tail|
      ensures Fits(tree, WithValues(got, a, o, tail[..j]))
      ensures TakesNext(tree, got, a, o, tail, j, already + 1, tail[j])
    {
      TakesNextLater(tree, apps, a, o, values, j + 1, already, values[j + 1]);
    }
    FitsWith(tree, got, a, o, tail[..|tail|]);
    if rest != [] {
      TakesNextLater(tree, apps, a, o, values, |values|, already, Back(rest));
    }
  }

  lemma {:induction false} UnlimitedOnce(tree: Tree, apps: seq<AppState>, a: nat, o: nat, args: seq<string>,
                                         already: nat)
    requires Fits(tree, apps) && a < |tree| && o < |tree[a].options| && tree[a].options[o].itemsExpected < 0
    requires Fits(tree, WithValues(apps, a, o, []))
    ensures var num := tree[a].options[o].itemsExpected;
            EatUnlimited(tree, State(apps, args), a, o, num, already) ==
            if args != [] && TakesNext(tree, apps, a, o, [], 0, already, Back(args))
            then EatUnlimited(tree, State(AddResult(apps, a, o, Back(args)), Popped(args)), a, o, num, already + 1)
            else if args != [] && Back(args) == "--" then State(apps, Popped(args)) else State(apps, args)
  {
    hide Recognize, WithValues, AddResult, Weight, CountRemaining, Lacks;
    NoValues(apps, a, o);
    RemainingMeansLacks(tree[a].options, apps[a].results, false);
    var none: seq<string> := [];
    assert none[..0] == none;
    if args != [] {
      MarkOnly(tree, apps, a, Back(args));
    }
  }

  lemma MarkOnly(tree: Tree, apps: seq<AppState>, a: nat, s: string)
    requires Fits(tree, apps) && a < |tree|
    ensures Recognize(tree, apps, a, s) == PositionalMark <==> s == "--"
  {
  }

  /** An option of unlimited values takes arguments as long as they are plain, but once it
      has as many as it needs only while no positional lacks values; a mark behind them is
      dropped. */
  lemma {:induction false} UnlimitedTakes(tree: Tree, apps: seq<AppState>, a: nat, o: nat, rest: seq<string>,
                                          values: seq<string>, already: nat)
    requires Fits(tree, apps) && a < |tree| && o < |tree[a].options| && tree[a].options[o].itemsExpected < 0
    requires Run(tree, apps, a, o, rest, values, already)
    ensures EatUnlimited(tree, State(apps, rest + InOrder(values)), a, o, tree[a].options[o].itemsExpected, already) ==
            State(WithValues(apps, a, o, values), if rest != [] && Back(rest) == "--" then Popped(rest) else rest)
    decreases |values|
  {
    hide Recognize, WithValues, AddResult, Weight, TakesNext, EatUnlimited;
    NoValues(apps, a, o);
    if values == [] {
      assert rest + InOrder(values) == rest && values[..|values|] == [];
      UnlimitedOnce(tree, apps, a, o, rest, already);
    } else {
      InOrderOfRest(rest, values);
      assert values[..0] == [] && TakesNext(tree, apps, a, o, values, 0, already, values[0]);
      SameStart(tree, apps, a, o, values, already, values[0]);
      UnlimitedOnce(tree, apps, a, o, rest + InOrder(values), already);
      OneValue(apps, a, o, values[0]);
      RunTail(tree, apps, a, o, rest, values, already);
      UnlimitedTakes(tree, WithValues(apps, a, o, [values[0]]), a, o, rest, values[1..], already + 1);
      ValuesJoined(apps, a, o, [values[0]], values[1..]);
      assert [values[0]] + values[1..] == values;
    }
  }

  lemma SameStart(tree: Tree, apps: seq<AppState>, a: nat, o: nat, values: seq<string>, already: nat, next: string)
    requires Fits(tree, apps) && a < |tree| && o < |tree[a].options|
    ensures Fits(tree, WithValues(apps, a, o, [])) && Fits(tree, WithValues(apps, a, o, values[..0]))
    ensures TakesNext(tree, apps, a, o, values, 0, already, next) <==> TakesNext(tree, apps, a, o, [], 0, already, next)
  {
    hide WithValues, Recognize, Lacks;
    FitsWith(tree, apps, a, o, []);
    var none: seq<string> := [];
    assert values[..0] == none && none[..0] == none;
  }

  /* ---- what a value at hand counts ---- */

  /** A value behind '=' is the first value, also of a flag. */
  lemma {:induction false} GivenValue(tree: Tree, apps: seq<AppState>, a: nat, o: nat, args: seq<string>, value: string)
    requires Fits(tree, apps) && a < |tree| && o < |tree[a].options| && value != ""
    ensures Fits(tree, WithValues(apps, a, o, [value]))
    ensures var (n, got) := (tree[a].options[o].itemsExpected, WithValues(apps, a, o, [value]));
            TakeOption(tree, State(apps, args), a, o, value, "") ==
            if n < 0 then Ok(EatUnlimited(tree, State(got, args), a, o, n, 1))
            else EatExactly(tree, State(got, args), a, o, if n == 0 then 0 else n - 1)
  {
    hide WithValues, AddResult, EatUnlimited, EatExactly;
    FitsWith(tree, apps, a, o, [value]);
    OneValue(apps, a, o, value);
  }

  /** What is glued to a short name is the first value of an option that takes values; of a
      flag it is the rest of a group, which goes back with a dash. */
  lemma GluedValue(tree: Tree, apps: seq<AppState>, a: nat, o: nat, args: seq<string>, more: string)
    requires Fits(tree, apps) && a < |tree| && o < |tree[a].options| && more != ""
    ensures tree[a].options[o].itemsExpected == 0 ==>
              TakeOption(tree, State(apps, args), a, o, "", more) ==
              Ok(State(WithValues(apps, a, o, [""]), args + ["-" + more]))
    ensures tree[a].options[o].itemsExpected != 0 ==>
              TakeOption(tree, State(apps, args), a, o, "", more) == TakeOption(tree, State(apps, args), a, o, more, "")
  {
    hide WithValues, AddResult, EatUnlimited, EatExactly;
    OneValue(apps, a, o, "");
  }

  /* ---- which option ---- */

  ghost predicate NoneCalled(opts: seq<OptInfo>, name: string, long: bool) {
    forall i :: 0 <= i < |opts| ==> !IsCalled(opts[i], name, long)
  }

  lemma {:induction false} FoundMeansFirst(opts: seq<OptInfo>, name: string, long: bool)
    ensures NoneCalled(opts, name, long) ==> FindNamed(opts, name, long, 0) == None
    ensures forall o: nat :: FirstCalled(opts, name, long, o) ==> FindNamed(opts, name, long, 0) == Some(o)
  {
    NamedFrom(opts, name, long, 0);
    forall o: nat | FirstCalled(opts, name, long, o) ensures FindNamed(opts, name, long, 0) == Some(o) {
      var found := FindNamed(opts, name, long, 0);
      if found.Some? {
        assert o < found.value || found.value < o || found.value == o;
      }
    }
  }

  /** "--name" and "--name=value" go to the first option of that long name. */
  lemma {:induction false} LongGoes(tree: Tree, apps: seq<AppState>, a: nat, args: seq<string>, name: string,
                                    value: string, o: nat)
    requires Fits(tree, apps) && a < |tree| && name != "" && BeginsName(name[0]) && '=' !in name
    requires value == "" || value[0] == '='
    requires FirstCalled(tree[a].options, name, true, o)
    ensures ParseArg(tree, State(apps, args + ["--" + name + value]), a, true) ==
            TakeOption(tree, State(apps, args), a, o, if value == "" then "" else value[1..], "")
  {
    var s := "--" + name + value;
    LongSplit(name, value);
    assert Back(args + [s]) == s && Popped(args + [s]) == args;
    FoundMeansFirst(tree[a].options, name, true);
  }

  /** If there is none, they go to the parent by fallthrough, else into the missing list. */
  lemma {:induction false} LongGoesOn(tree: Tree, apps: seq<AppState>, a: nat, args: seq<string>, name: string,
                                      value: string)
    requires Fits(tree, apps) && a < |tree| && name != "" && BeginsName(name[0]) && '=' !in name
    requires (value == "" || value[0] == '=') && NoneCalled(tree[a].options, name, true)
    ensures var s := "--" + name + value;
            ParseArg(tree, State(apps, args + [s]), a, true) ==
            if tree[a].parent.Some? && tree[a].fallthrough
            then ParseArg(tree, State(apps, args + [s]), tree[a].parent.value, true)
            else Ok(State(WithMissing(apps, a, Long, [s]), args))
  {
    var s := "--" + name + value;
    LongSplit(name, value);
    assert Back(args + [s]) == s && Popped(args + [s]) == args;
    FoundMeansFirst(tree[a].options, name, true);
    OneMissing(apps, a, Long, s);
  }

  lemma LongSplit(name: string, value: string)
    requires name != "" && BeginsName(name[0]) && '=' !in name && (value == "" || value[0] == '=')
    ensures var s := "--" + name + value;
            LooksLong(s) && LongName(s) == name && LongValue(s) == if value == "" then "" else value[1..]
  {
    var s := "--" + name + value;
    assert s[2] == name[0];
    IndexAfter("--" + name, value);
    assert s[2..|name| + 2] == name;
    if value != "" {
      assert s[|name| + 3..] == value[1..];
    }
  }

  lemma {:induction false} IndexAfter(s: string, rest: string)
    requires '=' !in s && (rest == "" || rest[0] == '=')
    ensures IndexOf(s + rest, '=') == |s|
    decreases |s|
  {
    if s == [] {
      assert s + rest == rest;
    } else {
      assert (s + rest)[1..] == s[1..] + rest;
      IndexAfter(s[1..], rest);
    }
  }

  /** "-c" and "-cmore" likewise, by the short name. */
  lemma {:induction false} ShortGoes(tree: Tree, apps: seq<AppState>, a: nat, args: seq<string>, c: char, more: string,
                                     o: nat)
    requires Fits(tree, apps) && a < |tree| && BeginsName(c) && FirstCalled(tree[a].options, [c], false, o)
    ensures ParseArg(tree, State(apps, args + ["-" + [c] + more]), a, false) ==
            TakeOption(tree, State(apps, args), a, o, "", more)
  {
    var s := "-" + [c] + more;
    assert s[1] == c && s[1..2] == [c] && s[2..] == more;
    assert Back(args + [s]) == s && Popped(args + [s]) == args;
    FoundMeansFirst(tree[a].options, [c], false);
  }

  lemma {:induction false} ShortGoesOn(tree: Tree, apps: seq<AppState>, a: nat, args: seq<string>, c: char,
                                       more: string)
    requires Fits(tree, apps) && a < |tree| && BeginsName(c) && NoneCalled(tree[a].options, [c], false)
    ensures var s := "-" + [c] + more;
            ParseArg(tree, State(apps, args + [s]), a, false) ==
            if tree[a].parent.Some? && tree[a].fallthrough
            then ParseArg(tree, State(apps, args + [s]), tree[a].parent.value, false)
            else Ok(State(WithMissing(apps, a, Short, [s]), args))
  {
    var s := "-" + [c] + more;
    assert s[1] == c && s[1..2] == [c] && s[2..] == more;
    assert Back(args + [s]) == s && Popped(args + [s]) == args;
    FoundMeansFirst(tree[a].options, [c], false);
    OneMissing(apps, a, Short, s);
  }

  /* ---- the mark, and subcommands ---- */

  /** The mark is put into the missing list; from then on every argument is positional. */
  lemma {:induction false} MarkGoes(tree: Tree, apps: seq<AppState>, a: nat, args: seq<string>, st: State)
    requires Fits(tree, apps) && a < |tree| && Fits(tree, st.apps) && st.args != []
    ensures ParseSingle(tree, State(apps, args + ["--"]), a, false) ==
            Step(Ok(State(WithMissing(apps, a, PositionalMark, ["--"]), args)), true)
    ensures ParseSingle(tree, st, a, true) == Step(Ok(ParsePositional(tree, st, a)), true)
  {
    hide WithMissing, AddMissing, ParsePositional, Weight;
    assert Back(args + ["--"]) == "--" && Popped(args + ["--"]) == args;
    OneMissing(apps, a, PositionalMark, "--");
  }

  /** The first subcommand of this name in the order of declaration. */
  ghost predicate FirstSub(tree: Tree, subs: seq<nat>, name: string, i: nat) {
    && i < |subs| && subs[i] < |tree| && NameFits(tree[subs[i]].name, name, tree[subs[i]].ignoreCase)
    && forall j :: 0 <= j < i ==> subs[j] < |tree| && !NameFits(tree[subs[j]].name, name, tree[subs[j]].ignoreCase)
  }

  lemma {:induction false} SubFound(tree: Tree, subs: seq<nat>, name: string)
    requires forall i :: 0 <= i < |subs| ==> subs[i] < |tree|
    ensures match FindSub(tree, subs, name)
            case Some(sub) => exists i: nat :: FirstSub(tree, subs, name, i) && subs[i] == sub
            case None => forall i :: 0 <= i < |subs| ==> !NameFits(tree[subs[i]].name, name, tree[subs[i]].ignoreCase)
    decreases |subs|
  {
    hide NameFits, SameName;
    if subs != [] {
      SameNameFits(tree[subs[0]].name, name, tree[subs[0]].ignoreCase);
      if SameName(tree[subs[0]].name, name, tree[subs[0]].ignoreCase) {
        assert FirstSub(tree, subs, name, 0);
      } else {
        SubFound(tree, subs[1..], name);
        if i: nat :| FirstSub(tree, subs[1..], name, i) && FindSub(tree, subs, name) == Some(subs[1..][i]) {
          assert FirstSub(tree, subs, name, i + 1) by {
            forall j | 0 <= j < i + 1
              ensures subs[j] < |tree| && !NameFits(tree[subs[j]].name, name, tree[subs[j]].ignoreCase)
            {
              assert j > 0 ==> subs[j] == subs[1..][j - 1];
            }
          }
        }
        forall i | 0 < i < |subs| && FindSub(tree, subs, name).None?
          ensures !NameFits(tree[subs[i]].name, name, tree[subs[i]].ignoreCase)
        {
          assert subs[i] == subs[1..][i - 1];
        }
      }
    }
  }

  /** While a required positional lacks values, a subcommand's name is a positional. */
  lemma {:induction false} SubcommandWaits(tree: Tree, st: State, a: nat)
    requires Fits(tree, st.apps) && a < |tree| && st.args != [] && Lacks(tree[a].options, st.apps[a].results, true)
    ensures ParseSubcommand(tree, st, a) == Ok(ParsePositional(tree, st, a))
  {
    RemainingMeansLacks(tree[a].options, st.apps[a].results, true);
  }

  /** Then it is dropped and noted, and the first subcommand of that name parses the rest. */
  lemma {:induction false} SubcommandGoes(tree: Tree, apps: seq<AppState>, a: nat, args: seq<string>, s: string, i: nat)
    requires Fits(tree, apps) && a < |tree| && !Lacks(tree[a].options, apps[a].results, true)
    requires FirstSub(tree, tree[a].subs, s, i)
    ensures ParseSubcommand(tree, State(apps, args + [s]), a) ==
            ParseAll(tree, State(MarkSub(apps, a, tree[a].subs[i]), args), tree[a].subs[i])
  {
    assert Back(args + [s]) == s && Popped(args + [s]) == args;
    RemainingMeansLacks(tree[a].options, apps[a].results, true);
    SubFound(tree, tree[a].subs, s);
    if j: nat :| FirstSub(tree, tree[a].subs, s, j) && FindSub(tree, tree[a].subs, s) == Some(tree[a].subs[j]) {
      assert i < j || j < i || i == j;
    }
  }

  /** A name that only a parent's subcommand has goes to the parent, whatever fallthrough says. */
  lemma {:induction false} SubcommandGoesUp(tree: Tree, apps: seq<AppState>, a: nat, args: seq<string>, s: string)
    requires Fits(tree, apps) && a < |tree| && !Lacks(tree[a].options, apps[a].results, true)
    requires forall i :: 0 <= i < |tree[a].subs| ==>
               !NameFits(tree[tree[a].subs[i]].name, s, tree[tree[a].subs[i]].ignoreCase)
    ensures ParseSubcommand(tree, State(apps, args + [s]), a) ==
            if tree[a].parent.Some? then ParseSubcommand(tree, State(apps, args + [s]), tree[a].parent.value)
            else Thrown(SubcommandMissing)
  {
    assert Back(args + [s]) == s && Popped(args + [s]) == args;
    RemainingMeansLacks(tree[a].options, apps[a].results, true);
    SubFound(tree, tree[a].subs, s);
  }

  /** A subcommand is noted in the order of its first use, and once. */
  lemma SubNoted(apps: seq<AppState>, a: nat, sub: nat)
    requires a < |apps|
    ensures MarkSub(apps, a, sub) ==
            apps[a := apps[a].(parsedSubs := if sub in apps[a].parsedSubs then apps[a].parsedSubs
                                             else apps[a].parsedSubs + [sub])]
  {
  }
}
