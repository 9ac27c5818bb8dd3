/** Archives made without stripping the path: no more than two missing names are resolved
    rightly, so the round trip depends on where the first directory ends up. */
module TreeUnstripped {
  import opened Bytes
  import opened TarHeader
  import opened TarStream
  import opened FileTree
  import opened RealPath
  import opened TreeArchive
  import opened Extraction
  import opened TreeRoundTrip
  import opened TreeTheorem

  /* ---- the entries ---- */

  /** What an unstripped path can start with: its '/' is taken off. */
  ghost predicate IsRoot(stem: Text) {
    stem == [] || stem == [SLASH]
  }

  lemma RelHead(names: Names)
    requires names != [] && AllNames(names)
    ensures Rel(names) != [] && Rel(names)[0] != SLASH
  {
    hide Join, Rel;
    assert IsName(names[0]) && names[0][0] in names[0];
    RelIs(names);
    JoinFirst(names);
  }

  lemma CleansAlike(stem: Text, names: Names)
    requires IsRoot(stem) && names != [] && AllNames(names)
    ensures CleanPath(stem + Rel(names), 0, false) == Rel(names) == CleanPath(stem + Rel(names), |stem|, true)
  {
    hide Rel;
    RelHead(names);
    assert [] + Rel(names) == Rel(names);
  }

  lemma {:induction false} FilesAlike(stem: Text, names: Names, children: seq<Child>)
    requires IsRoot(stem) && names != [] && AllNames(names) && forall c <- children :: IsName(c.name)
    ensures FilesIn(stem + Rel(names), children, 0, false) == FilesIn(stem + Rel(names), children, |stem|, true)
    decreases |children|
  {
    hide Rel, CleanPath, ChildPath;
    if children != [] {
      var c := children[0];
      FilesAlike(stem, names, children[1..]);
      FileEntryHere(stem, names, c.name, []);
      CleansAlike(stem, names + [c.name]) by { AllNamesAppend(names, [c.name]); }
    }
  }

  /** The same entries as with the stem stripped. */
  lemma {:induction false} EmitsAlike(todo: seq<Todo>, ns: seq<Names>, stem: Text)
    requires IsRoot(stem) && Waiting(todo, ns, stem)
    ensures QueueReady(todo, 0) && QueueReady(todo, |stem|)
    ensures Emit(todo, 0, false) == Emit(todo, |stem|, true)
    decreases QueueWeight(todo)
  {
    hide Rel, GoodTree, CleanPath, FilesIn, QueueWeight;
    ReadyQueue(todo, ns, stem);
    if todo != [] {
      var d := todo[0];
      EmitStep([], todo, 0, false);
      EmitStep([], todo, |stem|, true);
      CleansAlike(stem, ns[0]);
      assert forall c <- d.tree.children :: IsName(c.name) by { GoodMeansNamed(ns[0], d.tree); }
      FilesAlike(stem, ns[0], d.tree.children);
      NextWaits(todo, ns, stem);
      EmitsAlike(NextQueue(todo), NextNames(todo, ns), stem);
    }
  }

  lemma {:induction false} GoodMeansNamed(names: Names, t: Tree)
    requires names != [] && GoodTree(names, t) && t.Folder?
    ensures forall c <- t.children :: IsName(c.name)
  {
  }

  lemma {:induction false} FirstEntry(base: Names, stem: Text, tree: Tree)
    requires base != [] && AllNames(base) && tree.Folder? && GoodTree(base, tree)
    ensures var todo := [Todo(stem + Rel(base), tree)];
            QueueReady(todo, |stem|) && Emit(todo, |stem|, true) != []
            && Emit(todo, |stem|, true)[0] == DirEntry(Rel(base))
  {
    hide Rel, GoodTree, Emit, CleanPath, Waiting, QueueReady;
    var todo := [Todo(stem + Rel(base), tree)];
    OneWaits(base, stem, tree);
    ReadyQueue(todo, [base], stem);
    FirstEmitted(todo, |stem|);
    StemCleaned(stem, base);
  }

  lemma {:induction false} FirstEmitted(todo: seq<Todo>, prefixLen: nat)
    requires todo != [] && QueueReady(todo, prefixLen)
    ensures prefixLen <= |todo[0].path| && Emit(todo, prefixLen, true) != []
    ensures Emit(todo, prefixLen, true)[0] == DirEntry(CleanPath(todo[0].path, prefixLen, true))
  {
    hide CleanPath, FilesIn, NextQueue;
    NextReady(todo, prefixLen);
  }

  lemma StemCleaned(stem: Text, names: Names)
    requires names != []
    ensures CleanPath(stem + Rel(names), |stem|, true) == Rel(names)
  {
    hide Rel;
  }

  /* ---- where the first entry goes ---- */

  /** Resolution reaches the target directory, with or without one more '/'. */
  lemma ReachesTarget(fs: Nodes, cwd: Text, p: Names, truePrefix: Text, names: Names) returns (n: nat)
    requires Closed(fs) && AllNames(p) && names != [] && IsDir(fs, p) && IsTextOf(truePrefix, p) && |p| < LIMIT
    ensures n <= |p| + 1
    ensures Walk(fs, [], Absolute(cwd, truePrefix + [SLASH] + Rel(names))[1..], [], 0) ==
            Walk(fs, [], Rel(names), Known(p), n)
  {
    hide Walk, Join, IsDir, Known, Closed, Rel, Absolute, RestPastSlash;
    TextInside(p, truePrefix, names, cwd);
    KnownNothing();
    if truePrefix == Join(p) {
      n := |p|;
      assert Join(p + names)[1..] == Join(p)[1..] + ([SLASH] + Rel(names)) by {
        JoinAppend(p, names);
        JoinStarts(names);
        JoinStarts(p);
        RelIs(names);
      }
      assert p != [] by { JoinStarts(p); }
      forall i | 0 <= i <= |p| ensures IsDir(fs, [] + p[..i]) {
        Ancestors(fs, p, i);
        assert [] + p[..i] == p[..i];
      }
      assert [] + p == p;
      WalkThrough(fs, [], p, Rel(names), 0);
    } else {
      n := |p| + 1;
      ThroughTarget(fs, p, names);
      WalkSkip(fs, Rel(names), Known(p), |p|);
    }
  }

  lemma {:induction false} AssembledText(p: Names, a: Text, b: Text, more: seq<Comp>, names: Names)
    requires Join(NamesOf(more)) == Join(names)
    ensures Assemble(Known(p) + [Comp(a, true)] + [Comp(b, true)] + more) == Join(p + [a, b] + names)
  {
    hide Join;
    var comps := Known(p) + [Comp(a, true)] + [Comp(b, true)] + more;
    assert NamesOf(comps) == p + [a, b] + NamesOf(more);
    JoinAppend(p + [a, b], NamesOf(more));
    JoinAppend(p + [a, b], names);
  }

  /** Two missing names below the target are resolved to themselves. */
  lemma {:induction false} ResolvesTwo(fs: Nodes, cwd: Text, p: Names, truePrefix: Text, a: Text, b: Text)
    requires Closed(fs) && AllNames(p) && IsName(a) && IsName(b) && IsDir(fs, p) && IsTextOf(truePrefix, p)
    requires p + [a] !in fs && |p| + 2 <= LIMIT
    ensures Resolved(fs, cwd, truePrefix + [SLASH] + Rel([a, b])) == Success(Join(p + [a, b]))
  {
    hide Walk, Join, IsDir, Known, Closed, Rel, Absolute, Assemble;
    var n := ReachesTarget(fs, cwd, p, truePrefix, [a, b]);
    TwoMissing(fs, p, a, b, n);
    NothingMore();
    AssembledText(p, a, b, [], []);
    assert Known(p) + [Comp(a, true)] + [Comp(b, true)] + [] == Known(p) + [Comp(a, true)] + [Comp(b, true)];
    assert p + [a, b] + [] == p + [a, b];
  }

  lemma NothingMore()
    ensures Join(NamesOf([])) == Join([])
  {
    assert NamesOf([]) == [];
  }

  /** From three on, the path that comes out repeats names. */
  lemma {:induction false} ResolvesAstray(fs: Nodes, cwd: Text, p: Names, truePrefix: Text, a: Text, b: Text,
                                          rest: Names)
    requires Closed(fs) && AllNames(p) && IsName(a) && IsName(b) && AllNames(rest) && rest != []
    requires IsDir(fs, p) && IsTextOf(truePrefix, p) && p + [a] !in fs && |p| + 2 + |rest| <= LIMIT
    ensures Resolved(fs, cwd, truePrefix + [SLASH] + Rel([a, b] + rest)) ==
            Success(Join(p + [a, b] + AstrayNames([b], rest)))
  {
    hide Walk, Join, IsDir, Known, Closed, Rel, Absolute, Assemble, Astray, AstrayNames;
    var n := ReachesTarget(fs, cwd, p, truePrefix, [a, b] + rest);
    ManyMissing(fs, p, a, b, rest, n);
    AstraySays([b], rest);
    AssembledText(p, a, b, Astray([b], rest), AstrayNames([b], rest));
  }

  /** Where the directory at the path ends up: at its own place for one or two names. */
  function Stray(base: Names): (names: Names)
    ensures |names| >= |base|
  {
    if |base| < 2 then base
    else
      AstrayIsLong([base[1]], base[2..]);
      base[..2] + AstrayNames([base[1]], base[2..])
  }

  lemma {:induction false} AstrayIsLong(behind: Names, rest: Names)
    requires behind != []
    ensures |AstrayNames(behind, rest)| >= |rest|
    decreases rest
  {
    if rest != [] {
      AstrayIsLong(behind + [rest[0]], rest[1..]);
    }
  }

  lemma StrayIsNames(base: Names)
    requires AllNames(base)
    ensures AllNames(Stray(base))
  {
    hide AstrayNames;
    if |base| >= 2 {
      AstrayNamesAreNames([base[1]], base[2..]);
    }
  }

  lemma {:induction false} ResolvesFirst(fs: Nodes, cwd: Text, p: Names, truePrefix: Text, base: Names)
    requires Closed(fs) && AllNames(p) && IsDir(fs, p) && IsTextOf(truePrefix, p)
    requires base != [] && AllNames(base) && p + base[..1] !in fs && |p| + |base| <= LIMIT
    ensures Resolved(fs, cwd, truePrefix + [SLASH] + Rel(base)) == Success(Join(p + Stray(base)))
    ensures truePrefix <= Join(p + Stray(base))
  {
    hide Resolved, Join, Closed, Rel, AstrayNames, IsTextOf, IsDir, Stray;
    if |base| == 1 {
      assert Parent(base) == [] && p + [] == p;
      ResolvesInside(fs, cwd, p, truePrefix, base);
      assert Stray(base) == base by { StrayOfOne(base); }
    } else {
      var a, b, rest := base[0], base[1], base[2..];
      assert base[..1] == [a] && base == [a, b] + rest;
      StrayOfMore(p, a, b, rest);
      if rest == [] {
        ResolvesTwo(fs, cwd, p, truePrefix, a, b);
      } else {
        ResolvesAstray(fs, cwd, p, truePrefix, a, b, rest);
      }
    }
    TextInside(p, truePrefix, Stray(base), cwd);
  }

  lemma StrayOfOne(base: Names)
    requires |base| == 1
    ensures Stray(base) == base
  {
  }

  lemma {:induction false} StrayOfMore(p: Names, a: Text, b: Text, rest: Names)
    ensures p + Stray([a, b] + rest) == p + [a, b] + AstrayNames([b], rest)
    ensures rest == [] ==> [a, b] + rest == [a, b] && p + Stray([a, b] + rest) == p + [a, b]
  {
    var base := [a, b] + rest;
    assert base[..2] == [a, b] && base[2..] == rest;
    NotAstray(b);
  }

  lemma NotAstray(b: Text)
    ensures AstrayNames([b], []) == []
  {
  }

  /* ---- what mkdir_p makes of it ---- */

  lemma {:induction false} SkipsTo(fs: Nodes, p: Names, i: nat, k: nat)
    requires i <= k <= |p| && forall j :: 0 <= j <= k ==> IsDir(fs, p[..j])
    ensures MakeEach(fs, p, i) == MakeEach(fs, p, k)
    decreases k - i
  {
    if i < k {
      assert IsDir(fs, p[..i + 1]);
      SkipsTo(fs, p, i + 1, k);
    }
  }

  lemma {:induction false} MakeAllEach(fs: Nodes, p: Names)
    requires AllNames(p) && p != []
    ensures MakeAll(fs, Join(p)) == MakeEach(fs, p, 0)
  {
    hide MakeFrom, MakeEach, Join;
    assert p[..0] == [];
    JoinStarts([]);
    JoinStarts(p);
    MakesEach(fs, p, 0);
  }

  lemma {:induction false} AbsentBelow(fs: Nodes, p: Names)
    requires p != [] && p !in fs && IsDir(fs, Parent(p))
    ensures StatNames(fs, p) == Absent
  {
  }

  /** The disk with every directory on the way to p, from the i-th name on. */
  ghost predicate WithWay(fs: Nodes, fs': Nodes, p: Names, i: nat) {
    Closed(fs') && forall q :: Get(fs', q) == if q <= p && |q| > i then Some(Dir) else Get(fs, q)
  }

  lemma {:induction false} MakesWay(fs: Nodes, p: Names, i: nat) returns (fs': Nodes)
    requires i <= |p| && Closed(fs) && IsDir(fs, p[..i]) && forall j :: i < j <= |p| ==> p[..j] !in fs
    ensures MakeEach(fs, p, i) == Success(fs') && WithWay(fs, fs', p, i)
    decreases |p| - i
  {
    hide Closed, StatNames;
    fs' := fs;
    if i < |p| {
      var next := p[..i + 1];
      assert Parent(next) == p[..i];
      AbsentBelow(fs, next);
      ClosedAdd(fs, next, Dir);
      fs' := MakesWay(fs[next := Dir], p, i + 1);
      forall q ensures Get(fs', q) == if q <= p && |q| > i then Some(Dir) else Get(fs, q) {
        assert q <= p && |q| == i + 1 <==> q == next;
      }
    }
  }

  /** The first entry makes the directory where its path ends up, and all those above. */
  lemma FirstMade(t: Target, fs: Nodes, base: Names) returns (fs': Nodes)
    requires Closed(fs) && GoodTarget(t) && IsDir(fs, t.dir) && (forall q :: q in fs && t.dir <= q ==> q == t.dir)
    requires base != [] && AllNames(base) && |t.dir| + |base| <= LIMIT
    ensures ExtractOne(fs, t.cwd, t.truePrefix, Rel(base), Record(Directory, [], 0x1A4)) == Success(fs')
    ensures WithWay(fs, fs', t.dir + Stray(base), |t.dir|)
  {
    hide Resolved, MakeAll, Rel, Join, Stray, Closed, MakeEach, AllNames;
    var full := t.dir + Stray(base);
    assert t.dir <= t.dir + base[..1] && t.dir + base[..1] != t.dir;
    ResolvesFirst(fs, t.cwd, t.dir, t.truePrefix, base);
    assert AllNames(full) by {
      StrayIsNames(base);
      AllNamesAppend(t.dir, Stray(base));
    }
    MakeAllEach(fs, full);
    assert full[..|t.dir|] == t.dir;
    forall j | 0 <= j <= |t.dir| ensures IsDir(fs, full[..j]) {
      Ancestors(fs, t.dir, j);
      assert full[..j] == t.dir[..j];
    }
    SkipsTo(fs, full, 0, |t.dir|);
    forall j | |t.dir| < j <= |full| ensures full[..j] !in fs {
      assert t.dir <= full[..j];
    }
    fs' := MakesWay(fs, full, |t.dir|);
  }

  /** When that place is at or below its own, the entry might as well come again. */
  lemma FirstAgain(t: Target, fs: Nodes, fs1: Nodes, base: Names)
    requires GoodTarget(t) && IsDir(fs, t.dir) && WithWay(fs, fs1, t.dir + Stray(base), |t.dir|)
    requires base != [] && base <= Stray(base) && AllNames(base) && |t.dir| + |base| <= LIMIT
    ensures ExtractOne(fs1, t.cwd, t.truePrefix, Rel(base), Record(Directory, [], 0x1A4)) == Success(fs1)
    ensures IsDir(fs1, t.dir + Parent(base))
  {
    hide ExtractOne, Rel, Stray, Closed, GoodTarget;
    var full := t.dir + Stray(base);
    assert t.dir + base <= full && t.dir + Parent(base) <= full;
    assert Get(fs1, t.dir + base) == Some(Dir);
    assert Get(fs1, t.dir + Parent(base)) == Some(Dir) by {
      if |base| == 1 {
        assert t.dir + Parent(base) == t.dir && Get(fs, t.dir) == Some(Dir);
      }
    }
    PlacesFolder(t, fs1, base);
    AlreadyThere(fs1, t.dir + base);
  }

  /* ---- the theorem ---- */

  /** The tree is where its path says, with the directories above it, and nothing else
      has changed. */
  ghost predicate ComesBack(fs: Nodes, fs': Nodes, dir: Names, base: Names, tree: Tree) {
    forall q :: Get(fs', q) == Wanted(fs, dir, base, tree, q)
  }

  function Wanted(fs: Nodes, dir: Names, base: Names, tree: Tree, q: Names): (node: Option<Node>) {
    if dir + base <= q then At(tree, q[|dir + base|..]) else if dir < q <= dir + base then Some(Dir) else Get(fs, q)
  }

  /** The directory that the first entry makes is one of the tree's. */
  predicate StrayInside(base: Names, tree: Tree) {
    base <= Stray(base) && At(tree, Stray(base)[|base|..]) == Some(Dir)
  }

  /** So it is with at most two names, and with more only when the third repeats the second. */
  lemma StraysFromThree(base: Names, tree: Tree)
    requires tree.Folder?
    ensures |base| <= 2 ==> StrayInside(base, tree)
    ensures |base| >= 3 && StrayInside(base, tree) ==> base[2] == base[1]
  {
    if |base| == 2 {
      NotAstray(base[1]);
      assert base[2..] == [];
    } else if |base| >= 3 {
      assert AstrayNames([base[1]], base[2..])[0] == base[1];
    }
  }

  lemma {:induction false} DirAbove(tree: Tree, rel: Names, k: nat)
    requires At(tree, rel) == Some(Dir) && k <= |rel|
    ensures At(tree, rel[..k]) == Some(Dir)
    decreases k
  {
    if k > 0 {
      var child := Find(tree.children, rel[0]).value;
      DirAbove(child, rel[1..], k - 1);
      assert rel[..k][0] == rel[0] && rel[..k][1..] == rel[1..][..k - 1];
    }
  }

  lemma {:induction false} WayFits(t: Target, fs: Nodes, fs1: Nodes, base: Names, tree: Tree)
    requires (forall q :: q in fs && t.dir <= q ==> q == t.dir) && base != [] && StrayInside(base, tree)
    requires WithWay(fs, fs1, t.dir + Stray(base), |t.dir|)
    ensures FitsBelow(fs1, t.dir + base, tree)
    ensures forall q :: t.dir + base <= q && At(tree, q[|t.dir + base|..]) == None ==> Get(fs1, q) == None
  {
    hide StrayInside, WithWay, At;
    forall q | t.dir + base <= q
      ensures Get(fs1, q).Some? ==> Get(fs1, q) == At(tree, q[|t.dir + base|..]) == Some(Dir)
    {
      WayAt(t, fs, fs1, base, tree, q);
    }
  }

  lemma {:induction false} WayAt(t: Target, fs: Nodes, fs1: Nodes, base: Names, tree: Tree, q: Names)
    requires (forall q :: q in fs && t.dir <= q ==> q == t.dir) && base != [] && StrayInside(base, tree)
    requires WithWay(fs, fs1, t.dir + Stray(base), |t.dir|) && t.dir + base <= q
    ensures Get(fs1, q).Some? ==> Get(fs1, q) == At(tree, q[|t.dir + base|..]) == Some(Dir)
  {
    hide Stray, At, Closed;
    assert t.dir <= q && q != t.dir;
    assert Get(fs1, q) == if q <= t.dir + Stray(base) then Some(Dir) else None;
    if q <= t.dir + Stray(base) {
      DirAbove(tree, Stray(base)[|base|..], |q| - |t.dir + base|);
      BehindBase(t.dir, base, Stray(base), q);
    }
  }

  lemma BehindBase(dir: Names, base: Names, stray: Names, q: Names)
    requires base <= stray && dir + base <= q <= dir + stray
    ensures q[|dir + base|..] == stray[|base|..][..|q| - |dir + base|]
  {
  }

  lemma MergedComesBack(t: Target, fs: Nodes, fs1: Nodes, fs': Nodes, base: Names, tree: Tree)
    requires (forall q :: q in fs && t.dir <= q ==> q == t.dir) && base != [] && StrayInside(base, tree)
    requires WithWay(fs, fs1, t.dir + Stray(base), |t.dir|)
    requires Merged(fs1, fs', t.dir + base, tree)
    ensures ComesBack(fs, fs', t.dir, base, tree)
  {
    hide Stray, At, Closed;
    WayFits(t, fs, fs1, base, tree);
    var full, abs := t.dir + Stray(base), t.dir + base;
    assert abs <= full;
    forall q ensures Get(fs', q) == Wanted(fs, t.dir, base, tree, q) {
      assert Get(fs', q) == Over(Inside(abs, tree, q), Get(fs1, q));
      if !(abs <= q) {
        BetweenOrElsewhere(t.dir, base, Stray(base), q);
      }
    }
  }

  lemma BetweenOrElsewhere(dir: Names, base: Names, stray: Names, q: Names)
    requires base <= stray && !(dir + base <= q)
    ensures q <= dir + stray && |q| > |dir| <==> dir < q <= dir + base
  {
    var full, abs := dir + stray, dir + base;
    assert abs <= full;
    if q <= full {
      Prefixes(abs, q, full);
    }
  }

  /** Had the tree come back, the first directory made would be one of it. */
  lemma BackMeansInside(t: Target, fs: Nodes, fs1: Nodes, fs': Nodes, base: Names, tree: Tree)
    requires (forall q :: q in fs && t.dir <= q ==> q == t.dir) && base != [] && tree.Folder?
    requires WithWay(fs, fs1, t.dir + Stray(base), |t.dir|) && KindsKept(fs1, fs')
    requires ComesBack(fs, fs', t.dir, base, tree)
    ensures StrayInside(base, tree)
  {
    hide Stray, Closed;
    var full, abs := t.dir + Stray(base), t.dir + base;
    assert t.dir <= full && full != t.dir;
    assert Get(fs1, full) == Some(Dir) && Get(fs, full) == None;
    assert Get(fs', full) == Wanted(fs, t.dir, base, tree, full);
    assert full in fs' && fs'[full].Dir?;
    assert abs <= full by {
      if t.dir < full <= abs {
        assert full == abs;
      }
    }
    assert full[|t.dir|..] == Stray(base) && abs[|t.dir|..] == base;
    assert full[|abs|..] == Stray(base)[|base|..];
  }

  /** Archived without stripping and extracted into an empty directory, the tree comes
      back under its whole path exactly when the first directory made is one of it. */
  lemma {:induction false} UnstrippedExactly(base: Names, stem: Text, tree: Tree, clock: nat -> Env, more: Text,
                                             fs: Nodes, cwd: Text, prefix: Text, dir: Names, drop: bool)
    requires base != [] && AllNames(base) && IsRoot(stem) && tree.Folder? && GoodTree(base, tree)
    requires EmptyTarget(fs, cwd, prefix, dir) && |dir| + |base| + Depth(tree) <= LIMIT + 1
    ensures QueueReady([Todo(stem + Rel(base), tree)], 0)
    ensures var entries := Emit([Todo(stem + Rel(base), tree)], 0, false);
            var r := ExtractedFrom(entries, clock, more, fs, cwd, prefix, drop);
            r.Success? && ComesBack(fs, r.value, dir, base, tree) <==> StrayInside(base, tree)
  {
    hide GoodTree, Emit, Closed, ExtractedFrom, ExtractOne, Resolved, Rel, At, Depth, Waiting, FitsBelow, PlaceAll;
    hide ComesBack, StrayInside, Stray, WithWay, KindsKept, Merged;
    var t := Target(cwd, Resolved(fs, cwd, prefix).value, dir);
    var entries := Emit([Todo(stem + Rel(base), tree)], |stem|, true);
    OneWaits(base, stem, tree);
    EmitsAlike([Todo(stem + Rel(base), tree)], [base], stem);
    ExtractsTree(base, stem, tree, clock, more, fs, cwd, prefix, drop);
    FirstEntry(base, stem, tree);
    var fs1 := FirstMade(t, fs, base);
    PlacesFirst(entries, fs, fs1, t, base);
    if StrayInside(base, tree) {
      StrayBelow(base, tree);
      FirstAgain(t, fs, fs1, base);
      PlacesFirst(entries, fs1, fs1, t, base);
      WayFits(t, fs, fs1, base, tree);
      assert Closed(fs1) by { WayIsClosed(fs, fs1, t, base); }
      var fs' := PlacesTree(t, fs1, base, stem, tree);
      MergedComesBack(t, fs, fs1, fs', base, tree);
    } else if PlaceAll(entries[1..], fs1, cwd, t.truePrefix).Success? {
      PlacingKeeps(entries[1..], fs1, cwd, t.truePrefix);
      var fs' := PlaceAll(entries[1..], fs1, cwd, t.truePrefix).value;
      if ComesBack(fs, fs', dir, base, tree) {
        BackMeansInside(t, fs, fs1, fs', base, tree);
      }
    }
  }

  lemma StrayBelow(base: Names, tree: Tree)
    requires StrayInside(base, tree)
    ensures base <= Stray(base)
  {
  }

  lemma WayIsClosed(fs: Nodes, fs1: Nodes, t: Target, base: Names)
    requires WithWay(fs, fs1, t.dir + Stray(base), |t.dir|)
    ensures Closed(fs1)
  {
  }

  lemma {:induction false} PlacesFirst(entries: seq<Entry>, fs: Nodes, fs1: Nodes, t: Target, base: Names)
    requires base != [] && entries != [] && entries[0] == DirEntry(Rel(base))
    requires ExtractOne(fs, t.cwd, t.truePrefix, Rel(base), Record(Directory, [], 0x1A4)) == Success(fs1)
    ensures PlaceAll(entries, fs, t.cwd, t.truePrefix) == PlaceAll(entries[1..], fs1, t.cwd, t.truePrefix)
  {
    hide ExtractOne, Rel;
  }
}
