/** Where extraction writes: when the test of the resolved path against the target
    directory keeps everything outside the target as it was. */
module Containment {
  import opened Bytes
  import opened TarHeader
  import opened TarStream
  import opened FileTree
  import opened RealPath
  import opened Extraction
  import opened TreeRoundTrip
  import opened TreeTheorem

  /* ---- names between slashes ---- */

  lemma {:induction false} NamesOnce(path: Text)
    ensures var k := Slash(path);
            NamesIn(path) ==
            (if k == 0 then [] else [path[..k]]) + if k < |path| then NamesIn(path[k + 1..]) else []
  {
  }

  lemma {:induction false} SlashIn(a: Text, b: Text)
    requires Slash(a) < |a|
    ensures Slash(a + b) == Slash(a)
  {
    var k := Slash(a);
    assert (a + b)[..k] == a[..k];
    SlashIs(a + b, k);
  }

  lemma {:induction false} NamesOfParts(a: Text, b: Text)
    ensures NamesIn(a + ([SLASH] + b)) == NamesIn(a) + NamesIn(b)
    decreases |a|
  {
    hide NamesIn, Slash;
    var path, k := a + ([SLASH] + b), Slash(a);
    NamesOnce(a);
    NamesOnce(path);
    if k == |a| {
      assert a[..k] == a;
      SlashAfterName(a, [SLASH] + b);
      assert path[..k] == a && path[k + 1..] == b;
    } else {
      SlashIn(a, [SLASH] + b);
      assert path[..k] == a[..k] && path[k + 1..] == a[k + 1..] + ([SLASH] + b);
      NamesOfParts(a[k + 1..], b);
    }
  }

  lemma {:induction false} NamesBefore(path: Text, k: nat)
    requires k < |path| && path[k] == SLASH
    ensures NamesIn(path) == NamesIn(path[..k]) + NamesIn(path[k + 1..])
  {
    hide NamesIn;
    assert path == path[..k] + ([SLASH] + path[k + 1..]);
    NamesOfParts(path[..k], path[k + 1..]);
  }

  lemma AllNamesOf(a: Names, b: Names)
    requires AllNames(a + b)
    ensures AllNames(a) && AllNames(b)
  {
    assert forall name <- a :: name in a + b;
    assert forall name <- b :: name in a + b;
  }

  /* ---- what is touched ---- */

  /** Nothing has changed but on the way to p, and p is there. */
  ghost predicate OnWayTo(fs: Nodes, fs': Nodes, p: Names) {
    p in fs' && forall q :: Get(fs', q) != Get(fs, q) ==> q <= p
  }

  lemma {:induction false} OneOnWay(fs: Nodes, path: Text)
    requires AllNames(NamesIn(path)) && MakeOne(fs, path).Success?
    ensures OnWayTo(fs, MakeOne(fs, path).value, NamesIn(path))
  {
    hide Place, NamesIn;
    PlacePlainly(fs, path, NamesIn(path));
    Present(fs, NamesIn(path));
  }

  lemma {:induction false} Present(fs: Nodes, p: Names)
    ensures StatNames(fs, p) == Exists <==> p in fs
  {
  }

  /** mkdir_p from a position on which a '/' stands before. */
  lemma {:induction false} ManyOnWay(fs: Nodes, path: Text, from: nat)
    requires 0 < from <= |path| && path[from - 1] == SLASH && AllNames(NamesIn(path))
    requires NamesIn(path[..from - 1]) in fs && MakeFrom(fs, path, from).Success?
    ensures OnWayTo(fs, MakeFrom(fs, path, from).value, NamesIn(path))
    decreases |path| - from
  {
    hide MakeOne, NamesIn, AllNames, Slash, Place;
    var k := from + Slash(path[from..]);
    if k == |path| {
      if path[|path| - 1] != SLASH {
        OneOnWay(fs, path);
      } else {
        LastSlash(path, from);
      }
    } else {
      NamesBefore(path, k);
      AllNamesOf(NamesIn(path[..k]), NamesIn(path[k + 1..]));
      OneOnWay(fs, path[..k]);
      var fs1 := MakeOne(fs, path[..k]).value;
      ManyOnWay(fs1, path, k + 1);
    }
  }

  lemma {:induction false} SlashAtEnd(s: Text)
    ensures s != [] && s[|s| - 1] == SLASH ==> Slash(s) < |s|
  {
    assert s[..|s|] == s;
  }

  lemma {:induction false} LastSlash(path: Text, from: nat)
    requires 0 < from <= |path| && path[from - 1] == SLASH && path[|path| - 1] == SLASH
    requires from + Slash(path[from..]) == |path|
    ensures NamesIn(path) == NamesIn(path[..from - 1])
  {
    SlashAtEnd(path[from..]);
    NamesBefore(path, from - 1);
    assert path[from - 1 + 1..] == [];
  }

  lemma {:induction false} FileOnWay(fs: Nodes, path: Text, data: Text)
    requires AllNames(NamesIn(path)) && WriteFile(fs, path, data).Success?
    ensures OnWayTo(fs, WriteFile(fs, path, data).value, NamesIn(path))
  {
    hide Place, NamesIn;
    PlacePlainly(fs, path, NamesIn(path));
  }

  lemma {:induction false} DirectoryOnWay(fs: Nodes, path: Text)
    requires path != [] && path[0] == SLASH && AllNames(NamesIn(path)) && [] in fs && MakeAll(fs, path).Success?
    ensures OnWayTo(fs, MakeAll(fs, path).value, NamesIn(path))
  {
    hide MakeFrom, NamesIn;
    assert path[..0] == [] && NamesIn([]) == [] by { NoNames(); }
    ManyOnWay(fs, path, 1);
  }

  function EntryPath(truePrefix: Text, name: Text): (path: Text) {
    if truePrefix == [] then name else truePrefix + [SLASH] + name
  }

  lemma EntryOnWay(fs: Nodes, cwd: Text, truePrefix: Text, name: Text, record: Record)
    requires [] in fs && ExtractOne(fs, cwd, truePrefix, name, record).Success?
    requires AllNames(NamesIn(Resolved(fs, cwd, EntryPath(truePrefix, name)).value))
    ensures var path := Resolved(fs, cwd, EntryPath(truePrefix, name)).value;
            truePrefix <= path && OnWayTo(fs, ExtractOne(fs, cwd, truePrefix, name, record).value, NamesIn(path))
  {
    hide Walk, MakeAll, WriteFile, NamesIn, AllNames;
    var path := Resolved(fs, cwd, EntryPath(truePrefix, name)).value;
    if record.kind == Directory {
      DirectoryOnWay(fs, path) by { AssembledRooted(fs, cwd, EntryPath(truePrefix, name)); }
    } else {
      FileOnWay(fs, path, record.data);
    }
  }

  lemma AssembledRooted(fs: Nodes, cwd: Text, orig: Text)
    requires Resolved(fs, cwd, orig).Success?
    ensures var path := Resolved(fs, cwd, orig).value; path != [] && path[0] == SLASH
  {
    hide Walk, Join;
  }

  /* ---- names of a resolved path ---- */

  /** No component is a dot, two dots, or has a '/' in it; one may be empty. */
  ghost predicate NoDots(names: Names) {
    forall name <- names :: SLASH !in name && name != [DOT] && name != [DOT, DOT]
  }

  lemma {:induction false} JoinedNames(names: Names)
    requires NoDots(names)
    ensures AllNames(NamesIn(Join(names)))
  {
    hide NamesIn, Slash;
    if names == [] {
      NoNames();
    } else {
      var last, front := names[|names| - 1], names[..|names| - 1];
      assert names == front + [last] && last in names;
      JoinAppend(front, [last]);
      JoinOne(last);
      NamesOfParts(Join(front), last);
      assert forall name <- front :: name in names;
      JoinedNames(front);
      OneName(last);
    }
  }

  lemma {:induction false} OneName(name: Text)
    requires SLASH !in name && name != [DOT] && name != [DOT, DOT]
    ensures AllNames(NamesIn(name))
  {
    assert name[..|name|] == name;
    SlashIs(name, |name|);
  }

  lemma {:induction false} FoldHasNoDots(rest: Text, names: Names)
    requires NoDots(names)
    ensures NoDots(StackFold(rest, names))
    decreases |rest|
  {
    var k := Slash(rest);
    assert k == |rest| ==> rest[..k] == rest;
    if k < |rest| {
      FoldHasNoDots(rest[k + 1..], if k == 0 then names else StackStep(names, rest[..k]));
    }
  }

  /** Resolution comes to an end only within its limit. */
  lemma {:induction false} WithinLimit(fs: Nodes, pend: Text, rest: Text, comps: seq<Comp>, n: nat)
    requires Walk(fs, pend, rest, comps, n).Success?
    ensures n + Slashes(rest) <= LIMIT
    decreases |rest|
  {
    hide Enter, Stuck, Walk, Slashes, Slash;
    var k := Slash(rest);
    WalkOnce(fs, pend, rest, comps, n);
    if k < |rest| {
      SlashesAfter(rest, k);
      if pend == [] && k == 0 {
        WithinLimit(fs, [], rest[1..], comps, n + 1);
      } else {
        var name := pend + rest[..k];
        WithinLimit(fs, if Stuck(comps, name) then name + [SLASH] else [], rest[k + 1..],
                    Enter(fs, comps, name).value, n + 1);
      }
    } else {
      NoSlashes(rest);
    }
  }

  lemma {:induction false} NoSlashes(s: Text)
    requires Slash(s) == |s|
    ensures Slashes(s) == 0
  {
    if s != [] {
      NoSlashes(s[1..]);
    }
  }

  /** A path in which only the last name may be missing is resolved to plain names. */
  lemma {:induction false} ResolvedPlainly(fs: Nodes, cwd: Text, orig: Text)
    requires Resolved(fs, cwd, orig).Success? && NeverStuck(fs, Absolute(cwd, orig)[1..], [])
    ensures AllNames(NamesIn(Resolved(fs, cwd, orig).value))
  {
    hide Walk, StackFold, NeverStuck, Absolute, Join, NamesIn, Slashes;
    var rest := Absolute(cwd, orig)[1..];
    WithinLimit(fs, [], rest, [], 0);
    RealpathExact(fs, cwd, orig);
    FoldHasNoDots(rest, []);
    var names := StackFold(rest, []);
    if names == [] {
      RootHasNoNames();
    } else {
      JoinedNames(names);
    }
  }

  lemma RootHasNoNames()
    ensures NamesIn([SLASH]) == []
  {
    var none: Text := [];
    assert [SLASH] + none == [SLASH];
    LeadingSlash(none);
  }

  /* ---- the test against the target ---- */

  /** The target's text is followed by a '/', or by nothing. */
  predicate CutsAtSlash(truePrefix: Text, path: Text)
    requires truePrefix != [] && truePrefix <= path
  {
    truePrefix[|truePrefix| - 1] == SLASH || |path| == |truePrefix| || path[|truePrefix|] == SLASH
  }

  lemma {:induction false} BelowWithSlash(dir: Names, path: Text)
    requires AllNames(dir) && Join(dir) + [SLASH] <= path
    ensures dir <= NamesIn(path)
  {
    hide Join, NamesIn;
    var rest := path[|Join(dir)| + 1..];
    assert path == Join(dir) + ([SLASH] + rest);
    NamesOfParts(Join(dir), rest);
    NamesOfJoin(dir);
  }

  lemma {:induction false} BesideWithoutSlash(dir: Names, path: Text)
    requires AllNames(dir) && dir != [] && Join(dir) <= path && |path| > |Join(dir)| && path[|Join(dir)|] != SLASH
    ensures !(dir <= NamesIn(path))
  {
    hide Join, NamesIn, Slash;
    var last, front, rest := dir[|dir| - 1], Parent(dir), path[|Join(dir)|..];
    assert dir == front + [last] && IsName(last) && AllNames(front);
    EndsWithLast(front, last, path);
    NamesOfParts(Join(front), last + rest);
    NamesOfJoin(front);
    LongerName(last, rest);
    assert NamesIn(path)[|front|] == NamesIn(last + rest)[0];
  }

  lemma {:induction false} EndsWithLast(front: Names, last: Text, path: Text)
    requires Join(front + [last]) <= path
    ensures path == Join(front) + ([SLASH] + (last + path[|Join(front + [last])|..]))
  {
    hide Join;
    JoinAppend(front, [last]);
    JoinOne(last);
  }

  lemma {:induction false} LongerName(name: Text, rest: Text)
    requires IsName(name) && rest != [] && rest[0] != SLASH
    ensures NamesIn(name + rest) != [] && NamesIn(name + rest)[0] != name
  {
    hide NamesIn;
    var tail, k := name + rest, |name| + Slash(rest);
    assert tail[..k] == name + rest[..Slash(rest)];
    SlashIs(tail, k);
    NamesOnce(tail);
  }

  /** The test passes a path into the target exactly when it cuts the path at a '/'. */
  lemma {:induction false} TestMeansBelow(dir: Names, truePrefix: Text, path: Text)
    requires AllNames(dir) && IsTextOf(truePrefix, dir) && truePrefix <= path
    ensures dir <= NamesIn(path) <==> CutsAtSlash(truePrefix, path)
  {
    hide Join, NamesIn;
    JoinStarts(dir);
    if truePrefix == Join(dir) + [SLASH] {
      BelowWithSlash(dir, path);
    } else {
      JoinEnds(dir);
      if |path| == |truePrefix| {
        assert path == truePrefix;
        NamesOfJoin(dir);
      } else if path[|truePrefix|] == SLASH {
        BelowWithSlash(dir, path);
      } else {
        BesideWithoutSlash(dir, path);
      }
    }
  }

  /** Otherwise it may pass a neighbour whose name goes on: only the text is compared. */
  lemma NeighbourPasses(name: Text, more: Text)
    requires IsName(name) && more != [] && SLASH !in more
    ensures Join([name]) <= Join([name + more]) && !([name] <= [name + more])
    ensures !CutsAtSlash(Join([name]), Join([name + more]))
  {
    hide Join;
    JoinOne(name);
    JoinOne(name + more);
    assert more[0] in more && name[|name| - 1] in name;
    assert Join([name + more]) == Join([name]) + more && Join([name])[|name|] == name[|name| - 1];
    assert [name + more][0] != name;
  }

  /* ---- extraction ---- */

  ghost predicate OutsideKept(fs: Nodes, fs': Nodes, dir: Names) {
    forall q :: !(dir <= q) ==> Get(fs', q) == Get(fs, q)
  }

  /** The disk, and a directory on it under one of its texts. */
  ghost predicate Into(fs: Nodes, truePrefix: Text, dir: Names) {
    Closed(fs) && AllNames(dir) && IsDir(fs, dir) && IsTextOf(truePrefix, dir)
  }

  lemma AncestorsKept(fs: Nodes, fs': Nodes, dir: Names, p: Names)
    requires Closed(fs) && IsDir(fs, dir) && KindsKept(fs, fs') && OnWayTo(fs, fs', p) && dir <= p
    ensures OutsideKept(fs, fs', dir)
  {
    hide Closed;
    forall q | !(dir <= q) ensures Get(fs', q) == Get(fs, q) {
      if q <= p {
        Prefixes(dir, q, p);
        Ancestors(fs, dir, |q|);
        assert dir[..|q|] == q;
      }
    }
  }

  /** One entry whose path has at most its last name missing: it is placed at or below
      the target exactly when the test cuts the resolved path at a '/', and then nothing
      outside the target has changed. */
  lemma {:induction false} EntryContained(fs: Nodes, cwd: Text, truePrefix: Text, dir: Names, name: Text,
                                          record: Record)
    requires Into(fs, truePrefix, dir) && ExtractOne(fs, cwd, truePrefix, name, record).Success?
    requires NeverStuck(fs, Absolute(cwd, EntryPath(truePrefix, name))[1..], [])
    ensures var path := Resolved(fs, cwd, EntryPath(truePrefix, name)).value;
            var fs' := ExtractOne(fs, cwd, truePrefix, name, record).value;
            && truePrefix <= path && NamesIn(path) in fs'
            && (dir <= NamesIn(path) <==> CutsAtSlash(truePrefix, path))
            && (dir <= NamesIn(path) ==> OutsideKept(fs, fs', dir))
  {
    hide Walk, Resolved, ExtractOne, NeverStuck, NamesIn, KindsKept, CutsAtSlash;
    PlacedMeansResolved(fs, cwd, truePrefix, name, record);
    var path := Resolved(fs, cwd, EntryPath(truePrefix, name)).value;
    var fs' := ExtractOne(fs, cwd, truePrefix, name, record).value;
    ResolvedPlainly(fs, cwd, EntryPath(truePrefix, name));
    EntryOnWay(fs, cwd, truePrefix, name, record);
    TestMeansBelow(dir, truePrefix, path);
    ExtractKeeps(fs, cwd, truePrefix, name, record);
    if dir <= NamesIn(path) {
      AncestorsKept(fs, fs', dir, NamesIn(path));
    }
  }

  lemma PlacedMeansResolved(fs: Nodes, cwd: Text, truePrefix: Text, name: Text, record: Record)
    requires ExtractOne(fs, cwd, truePrefix, name, record).Success?
    ensures Resolved(fs, cwd, EntryPath(truePrefix, name)).Success?
  {
    hide Walk, MakeAll, WriteFile;
  }

  lemma MakeOneCloses(fs: Nodes, path: Text)
    requires Closed(fs) && MakeOne(fs, path).Success?
    ensures Closed(MakeOne(fs, path).value)
  {
    hide Place, Closed;
    if Stat(fs, path) == Absent {
      var p := Place(fs, path).value;
      Present(fs, p);
      assert p !in fs by { AbsentPlace(fs, path); }
      ClosedAdd(fs, p, Dir);
    }
  }

  lemma AbsentPlace(fs: Nodes, path: Text)
    requires Stat(fs, path) == Absent && Place(fs, path).Success?
    ensures Place(fs, path).value !in fs
  {
    hide Place;
    Present(fs, Place(fs, path).value);
  }

  lemma {:induction false} MakeFromCloses(fs: Nodes, path: Text, from: nat)
    requires from <= |path| && path != [] && Closed(fs) && MakeFrom(fs, path, from).Success?
    ensures Closed(MakeFrom(fs, path, from).value)
    decreases |path| - from
  {
    hide MakeOne, Slash, Closed;
    var k := from + Slash(path[from..]);
    if k == |path| {
      if path[|path| - 1] != SLASH {
        MakeOneCloses(fs, path);
      }
    } else {
      MakeOneCloses(fs, path[..k]);
      MakeFromCloses(MakeOne(fs, path[..k]).value, path, k + 1);
    }
  }

  lemma WriteCloses(fs: Nodes, path: Text, data: Text)
    requires Closed(fs) && WriteFile(fs, path, data).Success?
    ensures Closed(WriteFile(fs, path, data).value)
  {
    hide Place, Closed;
    var p := Place(fs, path).value;
    if p != [] {
      if p in fs {
        ParentThere(fs, p);
      }
      ClosedAdd(fs, p, File(data));
    } else {
      RootIsDir(fs);
    }
  }

  lemma RootIsDir(fs: Nodes)
    requires Closed(fs)
    ensures IsDir(fs, [])
  {
  }

  lemma ParentThere(fs: Nodes, p: Names)
    requires Closed(fs) && p != [] && p in fs
    ensures IsDir(fs, Parent(p))
  {
  }

  lemma EntryCloses(fs: Nodes, cwd: Text, truePrefix: Text, name: Text, record: Record)
    requires Closed(fs) && ExtractOne(fs, cwd, truePrefix, name, record).Success?
    ensures Closed(ExtractOne(fs, cwd, truePrefix, name, record).value)
  {
    hide Resolved, MakeFrom, WriteFile, Closed;
    var path := Resolved(fs, cwd, EntryPath(truePrefix, name)).value;
    if record.kind == Directory {
      MakeFromCloses(fs, path, 1);
    } else {
      WriteCloses(fs, path, record.data);
    }
  }

  /** Along the whole extraction no entry's path has more than its last name missing. */
  ghost predicate NeverStuckInRun(st: State, fs: Nodes, cwd: Text, truePrefix: Text, drop: bool)
    decreases |st.src|
  {
    if st.ended then true
    else
      var o := ReadUpTo(st, []);
      NamesAreStored(st, [], 0);
      o.result.Success? && o.result.value != [] ==>
        var name := o.result.value;
        && NeverStuck(fs, Absolute(cwd, EntryPath(truePrefix, name))[1..], [])
        && var x := ExtractOne(fs, cwd, truePrefix, name, o.state.files[name]);
           (x.Success? ==> NeverStuckInRun(Dropped(o.state, name, drop), x.value, cwd, truePrefix, drop))
  }

  /** A whole extraction into a directory whose text ends in '/', from any stream: when no
      entry's path has more than its last name missing, nothing outside the directory
      has changed. */
  lemma {:induction false} ExtractionContained(st: State, fs: Nodes, cwd: Text, truePrefix: Text, dir: Names,
                                               drop: bool)
    requires Into(fs, truePrefix, dir) && truePrefix[|truePrefix| - 1] == SLASH
    requires NeverStuckInRun(st, fs, cwd, truePrefix, drop)
    requires ExtractAll(st, fs, cwd, truePrefix, drop).result.Success?
    ensures OutsideKept(fs, ExtractAll(st, fs, cwd, truePrefix, drop).result.value, dir)
    decreases |st.src|
  {
    hide ReadFrom, ExtractOne, Resolved, NeverStuck, Closed, IsTextOf;
    NamesAreStored(st, [], 0);
    var o := ReadUpTo(st, []);
    if !st.ended && o.result.Success? && o.result.value != [] {
      var name := o.result.value;
      var record := o.state.files[name];
      var x := ExtractOne(fs, cwd, truePrefix, name, record);
      if x.Success? {
        OneContained(fs, cwd, truePrefix, dir, name, record);
        ExtractionContained(Dropped(o.state, name, drop), x.value, cwd, truePrefix, dir, drop);
      }
    }
  }

  lemma {:induction false} OneContained(fs: Nodes, cwd: Text, truePrefix: Text, dir: Names, name: Text, record: Record)
    requires Into(fs, truePrefix, dir) && truePrefix[|truePrefix| - 1] == SLASH
    requires ExtractOne(fs, cwd, truePrefix, name, record).Success?
    requires NeverStuck(fs, Absolute(cwd, EntryPath(truePrefix, name))[1..], [])
    ensures var fs' := ExtractOne(fs, cwd, truePrefix, name, record).value;
            OutsideKept(fs, fs', dir) && Into(fs', truePrefix, dir)
  {
    hide ExtractOne, Resolved, NeverStuck, Closed, IsTextOf;
    EntryContained(fs, cwd, truePrefix, dir, name, record);
    EntryCloses(fs, cwd, truePrefix, name, record);
    ExtractKeeps(fs, cwd, truePrefix, name, record);
  }

  /** Two missing names with two dots behind them are not resolved: the dots stay in the
      text, behind a name of their own. */
  lemma {:induction false} DotsRemain(fs: Nodes, done: Names, a: Text, b: Text, n: nat)
    requires AllNames(done) && IsName(a) && IsName(b) && IsDir(fs, done) && done + [a] !in fs && n + 1 < LIMIT
    ensures Walk(fs, [], a + ([SLASH] + (b + ([SLASH] + [DOT, DOT]))), Known(done), n) ==
            Success(Known(done) + [Comp(a, true)] + [Comp(b, true)] + [Comp(b + [SLASH] + [DOT, DOT], true)])
  {
    hide Walk, AnyHypothetical, Known, Enter;
    var comps := Known(done) + [Comp(a, true)];
    MissesFirst(fs, done, a, b + ([SLASH] + [DOT, DOT]), n);
    StaysBehind(fs, [], b, [DOT, DOT], comps, n + 1);
    assert [] + b == b;
    HypotheticalGrows(comps, Comp(b, true));
    var name := b + [SLASH] + [DOT, DOT];
    assert SLASH in name && SLASH !in [DOT] && SLASH !in [DOT, DOT];
    EnterHypothetical(fs, comps + [Comp(b, true)], name);
    WalkLast(fs, b + [SLASH], [DOT, DOT], comps + [Comp(b, true)], n + 2);
  }
}
