/** realpathHyp: resolving a path whose last components may not exist yet, on a
    disk without symbolic links. */
module RealPath {
  import opened Bytes
  import opened FileTree

  /** A component and whether it was found not to exist. */
  datatype Comp = Comp(name: Text, hypothetical: bool)

  datatype PathError = TooManyComponents | BelowAFile

  predicate AnyHypothetical(comps: seq<Comp>) {
    exists c <- comps :: c.hypothetical
  }

  function NamesOf(comps: seq<Comp>): (names: Names)
    ensures |names| == |comps|
  {
    seq(|comps|, i requires 0 <= i < |comps| => comps[i].name)
  }

  function Assemble(comps: seq<Comp>): (path: Text)
    ensures |path| > 0
  {
    if comps == [] then [SLASH] else Join(NamesOf(comps))
  }

  /** processComponent, for a component that is not a symbolic link. */
  function Enter(fs: Nodes, comps: seq<Comp>, name: Text): (r: Result<seq<Comp>, PathError>) {
    if name == [DOT] then Success(comps)
    else if name == [DOT, DOT] then Success(if comps == [] then comps else comps[..|comps| - 1])
    else if AnyHypothetical(comps) then Success(comps + [Comp(name, true)])
    else match Stat(fs, Assemble(comps + [Comp(name, false)]))
         case Exists => Success(comps + [Comp(name, false)])
         case Absent => Success(comps + [Comp(name, true)])
         case NotDirectory => Failure(BelowAFile)
  }

  /** The branch of processComponent that leaves `last` where it was. */
  predicate Stuck(comps: seq<Comp>, name: Text) {
    name != [DOT] && name != [DOT, DOT] && AnyHypothetical(comps)
  }

  const LIMIT: nat := 1024

  /** The loop as it is. `rest` is what follows position pos, and `pend` is what
      lies between position `last` and pos: nothing, unless `last` stayed behind. */
  function Walk(fs: Nodes, pend: Text, rest: Text, comps: seq<Comp>, n: nat): (r: Result<seq<Comp>, PathError>)
    decreases |rest|
  {
    var k := Slash(rest);
    if n > LIMIT then Failure(TooManyComponents)
    else if k < |rest| && pend == [] && k == 0 then Walk(fs, [], rest[1..], comps, n + 1)
    else
      var name := pend + rest[..k];
      match Enter(fs, comps, name)
      case Failure(e) => Failure(e)
      case Success(comps') =>
        if k == |rest| then Success(comps')
        else Walk(fs, if Stuck(comps, name) then name + [SLASH] else [], rest[k + 1..], comps', n + 1)
  }

  function Absolute(cwd: Text, orig: Text): (path: Text)
    ensures path != []
  {
    if orig == [] || orig[0] != SLASH then cwd + [SLASH] + orig else orig
  }

  function Resolved(fs: Nodes, cwd: Text, orig: Text): (r: Result<Text, PathError>) {
    match Walk(fs, [], Absolute(cwd, orig)[1..], [], 0)
    case Failure(e) => Failure(e)
    case Success(comps) => Success(Assemble(comps))
  }

  lemma Slices(s: Text, last: nat, pos: nat, next: nat)
    requires last <= pos < next <= |s|
    ensures s[last + 1..next] == s[last + 1..pos + 1] + s[pos + 1..][..next - pos - 1]
    ensures next < |s| ==> s[pos + 1..][next - pos..] == s[next + 1..]
    ensures next < |s| ==> s[last + 1..next + 1] == s[last + 1..next] + [s[next]]
  {
  }

  lemma WalkOnce(fs: Nodes, pend: Text, rest: Text, comps: seq<Comp>, n: nat)
    ensures var k := Slash(rest);
            Walk(fs, pend, rest, comps, n) ==
            if n > LIMIT then Failure(TooManyComponents)
            else if k < |rest| && pend == [] && k == 0 then Walk(fs, [], rest[1..], comps, n + 1)
            else match Enter(fs, comps, pend + rest[..k])
                 case Failure(e) => Failure(e)
                 case Success(comps') =>
                   if k == |rest| then Success(comps')
                   else Walk(fs, if Stuck(comps, pend + rest[..k]) then pend + rest[..k] + [SLASH] else [],
                             rest[k + 1..], comps', n + 1)
  {
  }

  method RealpathHyp(fs: Nodes, cwd: Text, path: Text) returns (r: Result<Text, PathError>)
    ensures r == Resolved(fs, cwd, path)
  {
    hide Slash, Enter, Stuck, Assemble, Walk;
    var orig := Absolute(cwd, path);
    var components: seq<Comp> := [];
    var pos: nat, last: nat, n: nat := 0, 0, 0;
    ghost var pend: Text, rest := [], orig[1..];
    ghost var goal := Walk(fs, [], orig[1..], [], 0);
    var done := false;
    while !done
      invariant !done ==> last <= pos < |orig| && pend == orig[last + 1..pos + 1] && rest == orig[pos + 1..]
      invariant !done ==> goal == Walk(fs, pend, rest, components, n)
      invariant done ==> goal == Success(components)
      decreases !done, |orig| - pos
    {
      ghost var k := Slash(rest);
      var next := pos + 1 + Slash(orig[pos + 1..]);
      Slices(orig, last, pos, next);
      WalkOnce(fs, pend, rest, components, n);
      done := next == |orig|;
      if n > LIMIT {
        return Failure(TooManyComponents);
      }
      n := n + 1;
      if !done && next <= last + 1 {
        pos, last := next, next;
        pend, rest := [], rest[1..];
        continue;
      }
      var component := orig[last + 1..next];
      assert component == pend + rest[..k];
      var entered := Enter(fs, components, component);
      if entered.Failure? {
        return Failure(entered.error);
      }
      if !done {
        rest := rest[k + 1..];
        pend := if Stuck(components, component) then component + [SLASH] else [];
      }
      if !Stuck(components, component) {
        last := next;
      }
      components, pos := entered.value, next;
    }
    r := Success(Assemble(components));
  }

  /* ---- against a stack of names ---- */

  function AssembleNames(names: Names): (r: Text) {
    if names == [] then [SLASH] else Join(names)
  }

  function StackStep(names: Names, name: Text): (r: Names) {
    if name == [DOT] then names
    else if name == [DOT, DOT] then (if names == [] then names else names[..|names| - 1])
    else names + [name]
  }

  /** What a path means: names are pushed, ".." pops, "." and empty names between
      slashes do nothing, and an empty last name is kept. */
  function StackFold(rest: Text, names: Names): (r: Names)
    decreases |rest|
  {
    var k := Slash(rest);
    if k == |rest| then StackStep(names, rest)
    else if k == 0 then StackFold(rest[1..], names)
    else StackFold(rest[k + 1..], StackStep(names, rest[..k]))
  }

  function Slashes(s: Text): (r: nat) {
    if s == [] then 0 else (if s[0] == SLASH then 1 else 0) + Slashes(s[1..])
  }

  lemma {:induction false} SlashesAfter(s: Text, k: nat)
    requires k < |s| && k == Slash(s)
    ensures Slashes(s[k + 1..]) == Slashes(s) - 1
  {
    if k > 0 {
      assert s[1..][k..] == s[k + 1..];
      SlashesAfter(s[1..], k - 1);
    }
  }

  /** No name but the last is entered below a component that does not exist. */
  predicate NeverStuck(fs: Nodes, rest: Text, comps: seq<Comp>)
    decreases |rest|
  {
    var k := Slash(rest);
    if k == |rest| then true
    else if k == 0 then NeverStuck(fs, rest[1..], comps)
    else
      !Stuck(comps, rest[..k]) &&
      match Enter(fs, comps, rest[..k])
      case Success(comps') => NeverStuck(fs, rest[k + 1..], comps')
      case Failure(_) => true
  }

  lemma EnterSteps(fs: Nodes, comps: seq<Comp>, name: Text)
    requires Enter(fs, comps, name).Success?
    ensures NamesOf(Enter(fs, comps, name).value) == StackStep(NamesOf(comps), name)
  {
  }

  lemma {:induction false} FoldOnce(rest: Text, names: Names)
    ensures var k := Slash(rest);
            StackFold(rest, names) ==
            if k == |rest| then StackStep(names, rest)
            else if k == 0 then StackFold(rest[1..], names)
            else StackFold(rest[k + 1..], StackStep(names, rest[..k]))
  {
  }

  lemma {:induction false} StuckOnce(fs: Nodes, rest: Text, comps: seq<Comp>)
    ensures var k := Slash(rest);
            NeverStuck(fs, rest, comps) ==
            if k == |rest| then true
            else if k == 0 then NeverStuck(fs, rest[1..], comps)
            else !Stuck(comps, rest[..k])
                 && (Enter(fs, comps, rest[..k]).Success? ==>
                       NeverStuck(fs, rest[k + 1..], Enter(fs, comps, rest[..k]).value))
  {
  }

  lemma {:induction false} FoldsInStep(fs: Nodes, rest: Text, comps: seq<Comp>, n: nat)
    requires n + Slashes(rest) <= LIMIT && NeverStuck(fs, rest, comps)
    ensures Walk(fs, [], rest, comps, n).Failure? ==> Walk(fs, [], rest, comps, n) == Failure(BelowAFile)
    ensures Walk(fs, [], rest, comps, n).Success? ==>
              NamesOf(Walk(fs, [], rest, comps, n).value) == StackFold(rest, NamesOf(comps))
    decreases |rest|
  {
    hide Enter, Stuck, StackStep, NamesOf, Walk, StackFold, NeverStuck, Slash, Slashes;
    var k := Slash(rest);
    var name := rest[..k];
    WalkOnce(fs, [], rest, comps, n);
    FoldOnce(rest, NamesOf(comps));
    StuckOnce(fs, rest, comps);
    assert [] + name == name;
    EnterFails(fs, comps, name);
    if k == |rest| {
      assert name == rest;
      if Enter(fs, comps, name).Success? {
        EnterSteps(fs, comps, name);
      }
    } else {
      SlashesAfter(rest, k);
      if k == 0 {
        FoldsInStep(fs, rest[1..], comps, n + 1);
      } else if Enter(fs, comps, name).Success? {
        EnterSteps(fs, comps, name);
        FoldsInStep(fs, rest[k + 1..], Enter(fs, comps, name).value, n + 1);
      }
    }
  }

  lemma EnterFails(fs: Nodes, comps: seq<Comp>, name: Text)
    ensures Enter(fs, comps, name).Failure? ==> Enter(fs, comps, name) == Failure(BelowAFile)
  {
  }

  lemma {:induction false} JoinPush(names: Names, name: Text)
    ensures |Join(names + [name])| == |Join(names)| + 1 + |name|
  {
    JoinAppend(names, [name]);
    JoinOne(name);
  }

  lemma {:induction false} StepGrowsBy(names: Names, name: Text)
    ensures |Join(StackStep(names, name))| <= |Join(names)| + 1 + |name|
  {
    JoinPush(names, name);
    if names != [] {
      var n := |names| - 1;
      assert names == names[..n] + [names[n]];
      JoinPush(names[..n], names[n]);
    }
  }

  lemma {:induction false} FoldBound(rest: Text, names: Names)
    ensures |Join(StackFold(rest, names))| <= |Join(names)| + 1 + |rest|
    decreases |rest|
  {
    hide Join, StackStep;
    var k := Slash(rest);
    if k == |rest| {
      StepGrowsBy(names, rest);
    } else if k == 0 {
      FoldBound(rest[1..], names);
    } else {
      StepGrowsBy(names, rest[..k]);
      FoldBound(rest[k + 1..], StackStep(names, rest[..k]));
    }
  }

  lemma EnterHypothetical(fs: Nodes, comps: seq<Comp>, name: Text)
    requires AnyHypothetical(comps) && name != [DOT] && name != [DOT, DOT]
    ensures Enter(fs, comps, name) == Success(comps + [Comp(name, true)])
    ensures AnyHypothetical(comps + [Comp(name, true)]) && Stuck(comps, name)
    ensures |Join(NamesOf(comps + [Comp(name, true)]))| == |Join(NamesOf(comps))| + 1 + |name|
  {
    assert (comps + [Comp(name, true)])[|comps|].hypothetical;
    assert NamesOf(comps + [Comp(name, true)]) == NamesOf(comps) + [name];
    JoinPush(NamesOf(comps), name);
  }

  /** Once `last` stays behind, it stays behind for good, and every later component
      repeats the text in between. */
  lemma {:induction false} StuckGrows(fs: Nodes, pend: Text, rest: Text, comps: seq<Comp>, n: nat)
    requires n + Slashes(rest) <= LIMIT && AnyHypothetical(comps)
    requires pend != [] && pend[|pend| - 1] == SLASH
    ensures var w := Walk(fs, pend, rest, comps, n);
            w.Success? && |Join(NamesOf(w.value))| >= |Join(NamesOf(comps))| + 1 + |pend| + |rest|
    decreases |rest|
  {
    hide Join, NamesOf, AnyHypothetical, Enter, Stuck, Walk, Slash, Slashes;
    var k := Slash(rest);
    var name := pend + rest[..k];
    assert name[|pend| - 1] == SLASH;
    WalkOnce(fs, pend, rest, comps, n);
    EnterHypothetical(fs, comps, name);
    if k == |rest| {
      assert rest[..k] == rest;
    } else {
      SlashesAfter(rest, k);
      StuckGrows(fs, name + [SLASH], rest[k + 1..], comps + [Comp(name, true)], n + 1);
    }
  }

  lemma {:induction false} WrongWhenStuck(fs: Nodes, rest: Text, comps: seq<Comp>, n: nat)
    requires n + Slashes(rest) <= LIMIT && !NeverStuck(fs, rest, comps)
    ensures var w := Walk(fs, [], rest, comps, n);
            w.Success? && |Join(NamesOf(w.value))| > |Join(StackFold(rest, NamesOf(comps)))| + 1
    decreases |rest|
  {
    hide Join, NamesOf, AnyHypothetical, Enter, StackStep, Walk, StackFold, NeverStuck, Slash, Slashes;
    var k := Slash(rest);
    var name := rest[..k];
    assert [] + name == name;
    WalkOnce(fs, [], rest, comps, n);
    FoldOnce(rest, NamesOf(comps));
    StuckOnce(fs, rest, comps);
    SlashesAfter(rest, k);
    if k == 0 {
      WrongWhenStuck(fs, rest[1..], comps, n + 1);
    } else if Stuck(comps, name) {
      EnterHypothetical(fs, comps, name);
      EnterSteps(fs, comps, name);
      var comps' := comps + [Comp(name, true)];
      StuckGrows(fs, name + [SLASH], rest[k + 1..], comps', n + 1);
      FoldBound(rest[k + 1..], NamesOf(comps'));
    } else {
      EnterSteps(fs, comps, name);
      WrongWhenStuck(fs, rest[k + 1..], Enter(fs, comps, name).value, n + 1);
    }
  }

  /** For a path of at most 1024 components that does not lead through a regular
      file, the result is the path's meaning exactly when no name but the last is
      entered below a component that does not exist. */
  lemma {:induction false} RealpathExact(fs: Nodes, cwd: Text, orig: Text)
    requires Slashes(Absolute(cwd, orig)[1..]) <= LIMIT
    ensures Resolved(fs, cwd, orig) == Failure(BelowAFile) || Resolved(fs, cwd, orig).Success?
    ensures Resolved(fs, cwd, orig).Success? ==>
              (Resolved(fs, cwd, orig).value == AssembleNames(StackFold(Absolute(cwd, orig)[1..], []))
               <==> NeverStuck(fs, Absolute(cwd, orig)[1..], []))
  {
    hide Walk, StackFold, NeverStuck, Absolute, Join;
    var rest := Absolute(cwd, orig)[1..];
    assert NamesOf([]) == [];
    if NeverStuck(fs, rest, []) {
      FoldsInStep(fs, rest, [], 0);
    } else {
      WrongWhenStuck(fs, rest, [], 0);
      JoinStarts([]);
    }
  }

  /* ---- steps along plain names ---- */

  lemma {:induction false} WalkMiddle(fs: Nodes, pend: Text, name: Text, tail: Text, comps: seq<Comp>, n: nat)
    requires SLASH !in name && name != [] && n <= LIMIT && Enter(fs, comps, pend + name).Success?
    ensures Walk(fs, pend, name + ([SLASH] + tail), comps, n) ==
            Walk(fs, if Stuck(comps, pend + name) then pend + name + [SLASH] else [], tail,
                 Enter(fs, comps, pend + name).value, n + 1)
  {
    hide Walk, Enter, Stuck;
    var rest := name + ([SLASH] + tail);
    SlashAfterName(name, [SLASH] + tail);
    WalkOnce(fs, pend, rest, comps, n);
    assert rest[..|name|] == name && rest[|name| + 1..] == tail;
  }

  lemma {:induction false} WalkLast(fs: Nodes, pend: Text, name: Text, comps: seq<Comp>, n: nat)
    requires SLASH !in name && n <= LIMIT
    ensures Walk(fs, pend, name, comps, n) == Enter(fs, comps, pend + name)
  {
    hide Walk, Enter, Stuck;
    assert name[..|name|] == name;
    SlashIs(name, |name|);
    WalkOnce(fs, pend, name, comps, n);
  }

  lemma {:induction false} WalkSkip(fs: Nodes, tail: Text, comps: seq<Comp>, n: nat)
    requires n <= LIMIT
    ensures Walk(fs, [], [SLASH] + tail, comps, n) == Walk(fs, [], tail, comps, n + 1)
  {
    hide Walk, Enter, Stuck;
    SlashIs([SLASH] + tail, 0);
    WalkOnce(fs, [], [SLASH] + tail, comps, n);
    assert ([SLASH] + tail)[1..] == tail;
  }

  /** Components that were all found to exist. */
  function Known(names: Names): (comps: seq<Comp>)
    ensures |comps| == |names| && forall i :: 0 <= i < |comps| ==> comps[i] == Comp(names[i], false)
  {
    seq(|names|, i requires 0 <= i < |names| => Comp(names[i], false))
  }

  lemma EnterName(fs: Nodes, done: Names, name: Text)
    requires AllNames(done) && IsName(name) && IsDir(fs, done)
    ensures var p := done + [name];
            Enter(fs, Known(done), name) == Success(Known(done) + [Comp(name, p !in fs)])
  {
    hide NamesIn, Join, Stat;
    var p := done + [name];
    assert NamesOf(Known(done) + [Comp(name, false)]) == p;
    assert AllNames(p);
    StatNamed(fs, p);
    assert Parent(p) == done;
    assert StatNames(fs, p) == if p in fs then Exists else Absent;
    NotStuck(done, name);
  }

  lemma Hypothetical(comps: seq<Comp>, i: nat)
    requires i < |comps| && comps[i].hypothetical
    ensures AnyHypothetical(comps)
  {
  }

  /* ---- missing names ---- */

  /** A relative path: "a/b/c". */
  function Rel(names: Names): (path: Text)
    requires names != []
  {
    Join(names)[1..]
  }

  lemma RelOne(name: Text)
    ensures Rel([name]) == name
  {
    JoinOnly(name);
  }

  lemma RelMore(name: Text, more: Names)
    requires more != []
    ensures Rel([name] + more) == name + ([SLASH] + Rel(more))
  {
    hide Join;
    assert ([name] + more)[1..] == more;
    JoinMore([name] + more);
  }

  lemma RelPush(names: Names, name: Text)
    requires names != []
    ensures Rel(names + [name]) == Rel(names) + ([SLASH] + name)
  {
    hide Join;
    JoinAppend(names, [name]);
    JoinOne(name);
    JoinStarts(names);
  }

  /** The first missing name is found out, and `last` moves on. */
  lemma {:induction false} MissesFirst(fs: Nodes, done: Names, name: Text, tail: Text, n: nat)
    requires AllNames(done) && IsName(name) && IsDir(fs, done) && done + [name] !in fs && n <= LIMIT
    ensures var comps := Known(done) + [Comp(name, true)];
            AnyHypothetical(comps) &&
            Walk(fs, [], name + ([SLASH] + tail), Known(done), n) == Walk(fs, [], tail, comps, n + 1)
  {
    hide Walk, Enter, Stuck, AnyHypothetical;
    EnterName(fs, done, name);
    NotStuck(done, name);
    assert [] + name == name;
    Hypothetical(Known(done) + [Comp(name, true)], |done|);
    WalkMiddle(fs, [], name, tail, Known(done), n);
  }

  /** After it `last` stays behind a name that is not the last. */
  lemma {:induction false} StaysBehind(fs: Nodes, pend: Text, name: Text, tail: Text, comps: seq<Comp>, n: nat)
    requires AnyHypothetical(comps) && IsName(name) && (pend == [] || SLASH in pend) && n <= LIMIT
    ensures Walk(fs, pend, name + ([SLASH] + tail), comps, n) ==
            Walk(fs, pend + name + [SLASH], tail, comps + [Comp(pend + name, true)], n + 1)
  {
    hide Walk, Enter, AnyHypothetical;
    PendingName(pend, name);
    EnterHypothetical(fs, comps, pend + name);
    WalkMiddle(fs, pend, name, tail, comps, n);
  }

  lemma PendingName(pend: Text, name: Text)
    requires IsName(name) && (pend == [] || SLASH in pend)
    ensures pend + name != [DOT] && pend + name != [DOT, DOT]
  {
    if pend == [] {
      assert [] + name == name;
    } else {
      assert SLASH in pend + name && SLASH !in [DOT] && SLASH !in [DOT, DOT];
    }
  }

  lemma {:induction false} LastMissing(fs: Nodes, pend: Text, name: Text, comps: seq<Comp>, n: nat)
    requires AnyHypothetical(comps) && IsName(name) && (pend == [] || SLASH in pend) && n <= LIMIT
    ensures Walk(fs, pend, name, comps, n) == Success(comps + [Comp(pend + name, true)])
  {
    hide Walk, Enter, AnyHypothetical;
    PendingName(pend, name);
    EnterHypothetical(fs, comps, pend + name);
    WalkLast(fs, pend, name, comps, n);
  }

  /** Two missing names at the end are still resolved to themselves. */
  lemma {:induction false} TwoMissing(fs: Nodes, done: Names, a: Text, b: Text, n: nat)
    requires AllNames(done) && IsName(a) && IsName(b) && IsDir(fs, done) && done + [a] !in fs && n < LIMIT
    ensures Walk(fs, [], Rel([a, b]), Known(done), n) == Success(Known(done) + [Comp(a, true)] + [Comp(b, true)])
  {
    hide Walk, AnyHypothetical, Rel, Known;
    RelOne(b);
    assert [a] + [b] == [a, b] && [] + b == b;
    RelMore(a, [b]);
    MissesFirst(fs, done, a, b, n);
    LastMissing(fs, [], b, Known(done) + [Comp(a, true)], n + 1);
  }

  /** The components that are entered for the names in `rest` when `last` stays in front
      of those in `behind`: each repeats all names since. */
  function Astray(behind: Names, rest: Names): (comps: seq<Comp>)
    requires behind != []
    decreases |rest|
  {
    if rest == [] then [] else [Comp(Rel(behind + [rest[0]]), true)] + Astray(behind + [rest[0]], rest[1..])
  }

  lemma {:induction false} WalksAstray(fs: Nodes, behind: Names, rest: Names, comps: seq<Comp>, n: nat)
    requires AllNames(rest) && behind != [] && rest != [] && AnyHypothetical(comps) && n + |rest| <= LIMIT + 1
    ensures Walk(fs, Rel(behind) + [SLASH], Rel(rest), comps, n) == Success(comps + Astray(behind, rest))
    decreases |rest|
  {
    hide Walk, AnyHypothetical, Rel;
    var name, more, next := rest[0], rest[1..], behind + [rest[0]];
    var comp := Comp(Rel(next), true);
    assert IsName(name) && rest == [name] + more;
    RelPush(behind, name);
    assert Rel(behind) + [SLASH] + name == Rel(next) && SLASH in Rel(behind) + [SLASH];
    if more == [] {
      assert rest == [name];
      RelOne(name);
      assert Astray(behind, rest) == [comp] + Astray(next, []) == [comp];
      LastMissing(fs, Rel(behind) + [SLASH], name, comps, n);
    } else {
      RelMore(name, more);
      StaysBehind(fs, Rel(behind) + [SLASH], name, Rel(more), comps, n);
      HypotheticalGrows(comps, comp);
      WalksAstray(fs, next, more, comps + [comp], n + 1);
      assert comps + [comp] + Astray(next, more) == comps + ([comp] + Astray(next, more));
    }
  }

  lemma HypotheticalGrows(comps: seq<Comp>, comp: Comp)
    requires AnyHypothetical(comps)
    ensures AnyHypothetical(comps + [comp])
  {
    var c :| c in comps && c.hypothetical;
    assert c in comps + [comp];
  }

  /** From three missing names on, the components are not the names. */
  lemma {:induction false} ManyMissing(fs: Nodes, done: Names, a: Text, b: Text, rest: Names, n: nat)
    requires AllNames(done) && IsName(a) && IsName(b) && AllNames(rest) && rest != []
    requires IsDir(fs, done) && done + [a] !in fs && n + 2 + |rest| <= LIMIT + 1
    ensures Walk(fs, [], Rel([a, b] + rest), Known(done), n) ==
            Success(Known(done) + [Comp(a, true)] + [Comp(b, true)] + Astray([b], rest))
  {
    hide Walk, AnyHypothetical, Rel, Known, Astray;
    assert [a, b] + rest == [a] + ([b] + rest);
    RelMore(a, [b] + rest);
    RelMore(b, rest);
    RelOne(b);
    MissesFirst(fs, done, a, Rel([b] + rest), n);
    var comps := Known(done) + [Comp(a, true)];
    assert [] + b == b;
    StaysBehind(fs, [], b, Rel(rest), comps, n + 1);
    HypotheticalGrows(comps, Comp(b, true));
    WalksAstray(fs, [b], rest, comps + [Comp(b, true)], n + 2);
  }

  /** What a path of such components says. */
  function AstrayNames(behind: Names, rest: Names): (names: Names)
    requires behind != []
    decreases |rest|
  {
    if rest == [] then [] else behind + [rest[0]] + AstrayNames(behind + [rest[0]], rest[1..])
  }

  lemma {:induction false} AstraySays(behind: Names, rest: Names)
    requires behind != []
    ensures Join(NamesOf(Astray(behind, rest))) == Join(AstrayNames(behind, rest))
    decreases |rest|
  {
    hide Join;
    if rest != [] {
      var next := behind + [rest[0]];
      var comp, more := Comp(Rel(next), true), Astray(next, rest[1..]);
      AstraySays(next, rest[1..]);
      assert NamesOf([comp] + more) == [Rel(next)] + NamesOf(more);
      JoinAppend([Rel(next)], NamesOf(more));
      JoinOne(Rel(next));
      JoinStarts(next);
      assert Join(next) == [SLASH] + Rel(next);
      JoinAppend(next, AstrayNames(next, rest[1..]));
    } else {
      assert NamesOf([]) == [];
    }
  }

  lemma {:induction false} AstrayNamesAreNames(behind: Names, rest: Names)
    requires behind != [] && AllNames(behind) && AllNames(rest)
    ensures AllNames(AstrayNames(behind, rest))
    decreases |rest|
  {
    if rest != [] {
      assert rest[0] in rest && forall name <- rest[1..] :: name in rest;
      AstrayNamesAreNames(behind + [rest[0]], rest[1..]);
    }
  }

  /** Three missing names are already too many. */
  lemma {:induction false} ThreeMissingNames(fs: Nodes, a: Text, b: Text, c: Text)
    requires IsName(a) && IsName(b) && IsName(c) && IsDir(fs, []) && [a] !in fs
    ensures Resolved(fs, [SLASH], Join([a, b, c])) == Success(Join([a, b, b, c]))
    ensures !NeverStuck(fs, Join([a, b, c])[1..], [])
  {
    hide Walk, Enter, Join, Astray, AstrayNames, NeverStuck;
    assert Known([]) == [] && [] + [a] == [a] && [a, b] + [c] == [a, b, c];
    ManyMissing(fs, [], a, b, [c], 0);
    JoinStarts([a, b, c]);
    var comps := Known([]) + [Comp(a, true)] + [Comp(b, true)] + Astray([b], [c]);
    assert NamesOf(comps) == [a, b] + NamesOf(Astray([b], [c]));
    JoinAppend([a, b], NamesOf(Astray([b], [c])));
    AstraySays([b], [c]);
    AstrayOne(b, c);
    JoinAppend([a, b], [b, c]);
    assert [a, b] + [b, c] == [a, b, b, c];
    GetsStuck(fs, a, b, c);
  }

  lemma AstrayOne(b: Text, c: Text)
    ensures AstrayNames([b], [c]) == [b, c]
  {
    assert AstrayNames([b] + [c], []) == [];
  }

  lemma {:induction false} GetsStuck(fs: Nodes, a: Text, b: Text, c: Text)
    requires IsName(a) && IsName(b) && IsName(c) && IsDir(fs, []) && [a] !in fs
    ensures !NeverStuck(fs, Join([a, b, c])[1..], [])
  {
    hide Enter, Join, AnyHypothetical, NeverStuck, Rel, Stuck;
    assert [a, b, c] == [a] + [b, c] && [b, c] == [b] + [c];
    RelMore(a, [b, c]);
    RelMore(b, [c]);
    RelOne(c);
    var tail := b + ([SLASH] + c);
    assert Join([a, b, c])[1..] == Rel([a, b, c]) == a + ([SLASH] + tail) by {
      JoinStarts([a, b, c]);
      RelIs([a, b, c]);
    }
    assert Known([]) == [] && [] + [a] == [a] && [] + [Comp(a, true)] == [Comp(a, true)];
    EnterName(fs, [], a);
    Hypothetical([Comp(a, true)], 0);
    EnterHypothetical(fs, [Comp(a, true)], b);
    StuckMiddle(fs, a, tail, []);
    StuckMiddle(fs, b, c, [Comp(a, true)]);
  }

  lemma {:induction false} RelIs(names: Names)
    requires names != []
    ensures Join(names) != [] && Rel(names) == Join(names)[1..]
  {
  }

  lemma {:induction false} StuckMiddle(fs: Nodes, name: Text, tail: Text, comps: seq<Comp>)
    requires SLASH !in name && name != []
    ensures NeverStuck(fs, name + ([SLASH] + tail), comps) ==>
              !Stuck(comps, name)
              && (Enter(fs, comps, name).Success? ==> NeverStuck(fs, tail, Enter(fs, comps, name).value))
  {
    hide Enter, Stuck, NeverStuck;
    var rest := name + ([SLASH] + tail);
    SlashAfterName(name, [SLASH] + tail);
    StuckOnce(fs, rest, comps);
    assert rest[..|name|] == name && rest[|name| + 1..] == tail;
  }

  lemma NotStuck(done: Names, name: Text)
    ensures !Stuck(Known(done), name) && !AnyHypothetical(Known(done))
  {
  }

  lemma {:induction false} WalkName(fs: Nodes, done: Names, name: Text, tail: Text, n: nat)
    requires AllNames(done) && IsName(name) && IsDir(fs, done) && IsDir(fs, done + [name]) && n <= LIMIT
    ensures Walk(fs, [], name + ([SLASH] + tail), Known(done), n) == Walk(fs, [], tail, Known(done + [name]), n + 1)
  {
    hide Walk, Enter, Stuck;
    EnterName(fs, done, name);
    NotStuck(done, name);
    assert [] + name == name;
    assert Known(done) + [Comp(name, false)] == Known(done + [name]);
    WalkMiddle(fs, [], name, tail, Known(done), n);
  }

  lemma BehindSlash(s: Text, name: Text, more: Text)
    requires s == [SLASH] + name + more
    ensures s != [] && s[1..] == name + more
  {
  }

  lemma {:induction false} JoinFirst(names: Names)
    requires names != []
    ensures Join(names) != [] && Join(names)[1..] == names[0] + Join(names[1..])
  {
    hide Join;
    JoinHead(names);
    BehindSlash(Join(names), names[0], Join(names[1..]));
  }

  lemma JoinOnly(name: Text)
    ensures Join([name]) != [] && Join([name])[1..] == name
  {
    hide Join;
    JoinOne(name);
  }

  lemma {:induction false} JoinMore(names: Names)
    requires |names| > 1
    ensures Join(names) != [] && Join(names[1..]) != []
    ensures Join(names)[1..] == names[0] + ([SLASH] + Join(names[1..])[1..])
  {
    hide Join;
    var more := Join(names[1..]);
    JoinFirst(names);
    JoinStarts(names[1..]);
    assert more == [SLASH] + more[1..];
  }

  lemma PrefixStep(fs: Nodes, done: Names, names: Names, i: nat)
    requires names != [] && i < |names| && IsDir(fs, done + names[..i + 1])
    ensures IsDir(fs, (done + [names[0]]) + names[1..][..i])
  {
    assert (done + [names[0]]) + names[1..][..i] == done + names[..i + 1];
  }

  /** A path whose names all exist but perhaps the last is resolved to itself. */
  lemma {:induction false} WalkNames(fs: Nodes, done: Names, names: Names, n: nat)
    requires AllNames(done) && AllNames(names) && names != [] && n + |names| <= LIMIT + 1
    requires forall i :: 0 <= i < |names| ==> IsDir(fs, done + names[..i])
    ensures Walk(fs, [], Join(names)[1..], Known(done), n) ==
            Success(Known(done + Parent(names)) + [Comp(names[|names| - 1], done + names !in fs)])
    decreases |names|
  {
    hide Walk, Enter, Stuck, Join, Known, IsDir;
    var name := names[0];
    assert IsName(name);
    assert done + names[..0] == done && [] + name == name;
    assert IsDir(fs, done + names[..0]);
    if |names| == 1 {
      assert names == [name] && done + Parent(names) == done;
      JoinOnly(name);
      EnterName(fs, done, name);
      WalkLast(fs, [], name, Known(done), n);
    } else {
      JoinMore(names);
      var done', tail := done + [name], Join(names[1..])[1..];
      assert names[..1] == [name] && IsDir(fs, done + names[..1]);
      WalkName(fs, done, name, tail, n);
      forall i | 0 <= i < |names[1..]| ensures IsDir(fs, done' + names[1..][..i]) {
        PrefixStep(fs, done, names, i);
      }
      assert done' + names[1..] == done + names && done' + Parent(names[1..]) == done + Parent(names);
      WalkNames(fs, done', names[1..], n + 1);
    }
  }

  /** Existing names followed by a '/' and more. */
  lemma {:induction false} WalkThrough(fs: Nodes, done: Names, names: Names, tail: Text, n: nat)
    requires AllNames(done) && AllNames(names) && names != [] && n + |names| <= LIMIT + 1
    requires forall i :: 0 <= i <= |names| ==> IsDir(fs, done + names[..i])
    ensures Walk(fs, [], Join(names)[1..] + ([SLASH] + tail), Known(done), n) ==
            Walk(fs, [], tail, Known(done + names), n + |names|)
    decreases |names|
  {
    hide Walk, Enter, Stuck, Join, Known, IsDir;
    var name := names[0];
    assert IsName(name);
    assert done + names[..0] == done;
    assert IsDir(fs, done + names[..0]);
    assert names[..1] == [name] && IsDir(fs, done + names[..1]);
    var done' := done + [name];
    if |names| == 1 {
      assert names == [name];
      JoinOnly(name);
      WalkName(fs, done, name, tail, n);
    } else {
      JoinMore(names);
      var more := Join(names[1..])[1..] + ([SLASH] + tail);
      assert Join(names)[1..] + ([SLASH] + tail) == name + ([SLASH] + more);
      WalkName(fs, done, name, more, n);
      forall i | 0 <= i <= |names[1..]| ensures IsDir(fs, done' + names[1..][..i]) {
        PrefixStep(fs, done, names, i);
      }
      assert done' + names[1..] == done + names;
      WalkThrough(fs, done', names[1..], tail, n + 1);
    }
  }
}
