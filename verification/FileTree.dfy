/** Paths as byte strings and as lists of names, and a disk of directories and
    regular files with the few system calls the archive code makes. */
module FileTree {
  import opened Bytes

  type Names = seq<Text>

  ghost predicate IsName(name: Text) {
    name != [] && SLASH !in name && name != [DOT] && name != [DOT, DOT]
  }

  ghost predicate AllNames(names: Names) {
    forall name <- names :: IsName(name)
  }

  /** Index of the first '/', or the length. */
  function Slash(s: Text): (k: nat)
    ensures k <= |s| && SLASH !in s[..k]
    ensures k < |s| ==> s[k] == SLASH
  {
    if s == [] || s[0] == SLASH then 0 else 1 + Slash(s[1..])
  }

  lemma {:induction false} SlashIs(s: Text, k: nat)
    requires k <= |s| && SLASH !in s[..k] && (k < |s| ==> s[k] == SLASH)
    ensures Slash(s) == k
  {
    if k > 0 {
      assert s[..k][0] == s[0];
      assert s[1..][..k - 1] == s[..k][1..];
      SlashIs(s[1..], k - 1);
    }
  }

  /** "/a/b/c" */
  function Join(names: Names): (s: Text)
    ensures names != [] ==> |s| > 0 && s[0] == SLASH
  {
    if names == [] then [] else [SLASH] + names[0] + Join(names[1..])
  }

  lemma {:induction false} JoinAppend(a: Names, b: Names)
    ensures Join(a + b) == Join(a) + Join(b)
  {
    if a == [] {
      assert a + b == b;
    } else {
      assert (a + b)[1..] == a[1..] + b;
      JoinAppend(a[1..], b);
    }
  }

  lemma JoinOne(name: Text)
    ensures Join([name]) == [SLASH] + name
  {
    assert Join([]) == [];
  }

  /** The kernel's reading of a path: the names between slashes. */
  function NamesIn(path: Text): (r: Names)
    decreases |path|
  {
    if path == [] then []
    else
      var k := Slash(path);
      var rest := if k < |path| then NamesIn(path[k + 1..]) else [];
      if k == 0 then rest else [path[..k]] + rest
  }

  lemma {:induction false} SlashAfterName(name: Text, rest: Text)
    requires SLASH !in name && (rest == [] || rest[0] == SLASH)
    ensures Slash(name + rest) == |name|
  {
    assert (name + rest)[..|name|] == name;
    SlashIs(name + rest, |name|);
  }

  lemma {:induction false} NamesStep(name: Text, rest: Text)
    requires IsName(name) && (rest == [] || rest[0] == SLASH)
    ensures NamesIn(name + rest) == [name] + NamesIn(rest)
  {
    var path := name + rest;
    SlashAfterName(name, rest);
    assert path[..|name|] == name;
    if rest == [] {
      assert NamesIn(path) == [name] + [];
    } else {
      assert path[|name| + 1..] == rest[1..];
      SlashIs(rest, 0);
    }
  }

  lemma {:induction false} LeadingSlash(tail: Text)
    ensures NamesIn([SLASH] + tail) == NamesIn(tail)
  {
    SlashIs([SLASH] + tail, 0);
    assert ([SLASH] + tail)[1..] == tail;
  }

  lemma {:induction false} JoinStarts(names: Names)
    ensures if names == [] then Join(names) == [] else Join(names) != [] && Join(names)[0] == SLASH
  {
  }

  lemma {:induction false} NamesOfJoin(names: Names)
    requires AllNames(names)
    ensures NamesIn(Join(names)) == names
  {
    if names != [] {
      hide NamesIn, Slash;
      var tail := names[0] + Join(names[1..]);
      assert Join(names) == [SLASH] + tail;
      LeadingSlash(tail);
      NamesOfJoin(names[1..]);
      assert IsName(names[0]);
      NamesStep(names[0], Join(names[1..]));
    }
  }

  lemma {:induction false} NamesOfJoinSlash(names: Names)
    requires AllNames(names)
    ensures NamesIn(Join(names) + [SLASH]) == names
  {
    hide NamesIn, Slash;
    if names == [] {
      assert Join(names) + [SLASH] == [SLASH] + [];
      LeadingSlash([]);
      NoNames();
    } else {
      var rest := Join(names[1..]) + [SLASH];
      assert Join(names) + [SLASH] == [SLASH] + (names[0] + rest);
      LeadingSlash(names[0] + rest);
      NamesOfJoinSlash(names[1..]);
      JoinStarts(names[1..]);
      assert IsName(names[0]);
      NamesStep(names[0], rest);
    }
  }

  lemma NoNames()
    ensures NamesIn([]) == []
  {
  }

  /* ---- the disk ---- */

  datatype Node = Dir | File(data: Text)

  type Nodes = map<Names, Node>

  function Get(fs: Nodes, p: Names): (r: Option<Node>) {
    if p in fs then Some(fs[p]) else None
  }

  predicate IsDir(fs: Nodes, p: Names) {
    p in fs && fs[p].Dir?
  }

  function Parent(p: Names): (r: Names)
    requires p != []
  {
    p[..|p| - 1]
  }

  datatype Status = Exists | Absent | NotDirectory

  /** stat on a list of names: ENOENT, or ENOTDIR below a regular file. */
  function StatNames(fs: Nodes, p: Names): (r: Status) {
    if p in fs then Exists
    else if p == [] then Absent
    else
      var up := StatNames(fs, Parent(p));
      if up == Exists && !fs[Parent(p)].Dir? then NotDirectory else if up == NotDirectory then up else Absent
  }

  /** Where names lead from a directory: "." stays and ".." goes up, both only from a
      directory that is there; at the root ".." stays. */
  function Located(fs: Nodes, done: Names, names: Names): (r: Result<Names, Status>)
    decreases |names|
  {
    if names == [] then Success(done)
    else if names[0] == [DOT] || names[0] == [DOT, DOT] then
      if StatNames(fs, done) != Exists then Failure(StatNames(fs, done))
      else if !fs[done].Dir? then Failure(NotDirectory)
      else Located(fs, if names[0] == [DOT] || done == [] then done else Parent(done), names[1..])
    else Located(fs, done + [names[0]], names[1..])
  }

  /** What an absolute path names on the disk. */
  function Place(fs: Nodes, path: Text): (r: Result<Names, Status>) {
    Located(fs, [], NamesIn(path))
  }

  lemma {:induction false} LocatedPlainly(fs: Nodes, done: Names, names: Names)
    requires AllNames(names)
    ensures Located(fs, done, names) == Success(done + names)
    decreases |names|
  {
    if names == [] {
      assert done + names == done;
    } else {
      assert IsName(names[0]);
      LocatedPlainly(fs, done + [names[0]], names[1..]);
      assert done + [names[0]] + names[1..] == done + names;
    }
  }

  lemma {:induction false} PlacePlainly(fs: Nodes, path: Text, p: Names)
    requires NamesIn(path) == p && AllNames(p)
    ensures Place(fs, path) == Success(p)
  {
    LocatedPlainly(fs, [], p);
    assert [] + p == p;
  }

  /** stat or readlink on an absolute path; a trailing '/' demands a directory. */
  function Stat(fs: Nodes, path: Text): (r: Status) {
    match Place(fs, path)
    case Failure(status) => status
    case Success(p) =>
      if path != [] && path[|path| - 1] == SLASH && p in fs && !fs[p].Dir? then NotDirectory else StatNames(fs, p)
  }

  datatype DiskError = CannotStat | CannotMakeDirectory | CannotOpen | EmptyPath | ModeTooWide

  /** The directory to hold a new node is there. */
  predicate CanMake(fs: Nodes, path: Text) {
    Place(fs, path).Success? && Place(fs, path).value != [] && IsDir(fs, Parent(Place(fs, path).value))
  }

  /** makeIfNonexistent: stat, then mkdir when there is nothing. */
  function MakeOne(fs: Nodes, path: Text): (r: Result<Nodes, DiskError>) {
    match Stat(fs, path)
    case Exists => Success(fs)
    case NotDirectory => Failure(CannotStat)
    case Absent => if CanMake(fs, path) then Success(fs[Place(fs, path).value := Dir]) else Failure(CannotMakeDirectory)
  }

  /** The rest of mkdir_p's work from position `from` of the path on. */
  function MakeFrom(fs: Nodes, path: Text, from: nat): (r: Result<Nodes, DiskError>)
    requires from <= |path| && path != []
    decreases |path| - from
  {
    var k := from + Slash(path[from..]);
    if k == |path| then
      if path[|path| - 1] != SLASH then MakeOne(fs, path) else Success(fs)
    else match MakeOne(fs, path[..k])
         case Failure(e) => Failure(e)
         case Success(fs') => MakeFrom(fs', path, k + 1)
  }

  function OneMade(fs: Nodes, path: Text): (fs': Nodes) {
    match MakeOne(fs, path)
    case Failure(_) => fs
    case Success(made) => made
  }

  /** What is on the disk afterwards, also when an error ends the work. */
  function MadeFrom(fs: Nodes, path: Text, from: nat): (fs': Nodes)
    requires from <= |path| && path != []
    decreases |path| - from
  {
    var k := from + Slash(path[from..]);
    if k == |path| then
      if path[|path| - 1] != SLASH then OneMade(fs, path) else fs
    else match MakeOne(fs, path[..k])
         case Failure(_) => fs
         case Success(fs') => MadeFrom(fs', path, k + 1)
  }

  lemma {:induction false} MadeWithoutError(fs: Nodes, path: Text, from: nat)
    requires from <= |path| && path != [] && MakeFrom(fs, path, from).Success?
    ensures MadeFrom(fs, path, from) == MakeFrom(fs, path, from).value
    decreases |path| - from
  {
    hide MakeOne, Slash;
    var k := from + Slash(path[from..]);
    if k < |path| {
      MadeWithoutError(MakeOne(fs, path[..k]).value, path, k + 1);
    }
  }

  function MakeAllWith(fs: Nodes, path: Text, mode: nat): (r: Result<Nodes, DiskError>) {
    if path == [] then Failure(EmptyPath)
    else if mode > 0x1FF then Failure(ModeTooWide)
    else MakeFrom(fs, path, 1)
  }

  /** As called for an extracted directory. */
  function MakeAll(fs: Nodes, path: Text): (r: Result<Nodes, DiskError>) {
    MakeAllWith(fs, path, 0x1ED)
  }

  /** A regular file, or room for a new one; a path ending in '/' cannot name one. */
  predicate CanOpen(fs: Nodes, path: Text) {
    && path != [] && path[|path| - 1] != SLASH && Place(fs, path).Success?
    && if Place(fs, path).value in fs then fs[Place(fs, path).value].File? else CanMake(fs, path)
  }

  /** Opening an output file and writing all of its contents. */
  function WriteFile(fs: Nodes, path: Text, data: Text): (r: Result<Nodes, DiskError>) {
    if CanOpen(fs, path) then Success(fs[Place(fs, path).value := File(data)]) else Failure(CannotOpen)
  }

  class Disk {
    var nodes: Nodes

    method MakeIfNonexistent(path: Text) returns (r: Result<(), DiskError>)
      modifies this
      ensures r.Success? ==> MakeOne(old(nodes), path) == Success(nodes)
      ensures r.Failure? ==> MakeOne(old(nodes), path) == Failure(r.error) && nodes == old(nodes)
    {
      var status := Stat(nodes, path);
      if status == NotDirectory {
        return Failure(CannotStat);
      }
      if status == Absent {
        if !CanMake(nodes, path) {
          return Failure(CannotMakeDirectory);
        }
        nodes := nodes[Place(nodes, path).value := Dir];
      }
      return Success(());
    }

    method MkdirP(path: Text, mode: nat) returns (r: Result<(), DiskError>)
      modifies this
      ensures r.Success? ==> MakeAllWith(old(nodes), path, mode) == Success(nodes)
      ensures r.Failure? ==> MakeAllWith(old(nodes), path, mode) == Failure(r.error)
      ensures nodes == if path == [] || mode > 0x1FF then old(nodes) else MadeFrom(old(nodes), path, 1)
    {
      hide MakeOne, Slash;
      if path == [] {
        return Failure(EmptyPath);
      }
      if mode > 0x1FF {
        return Failure(ModeTooWide);
      }
      var slashPos := 1 + Slash(path[1..]);
      ghost var from: nat := 1;
      while slashPos < |path|
        invariant 1 <= from <= slashPos <= |path| && slashPos == from + Slash(path[from..])
        invariant MakeFrom(old(nodes), path, 1) == MakeFrom(nodes, path, from)
        invariant MadeFrom(old(nodes), path, 1) == MadeFrom(nodes, path, from)
        decreases |path| - slashPos
      {
        r := MakeIfNonexistent(path[..slashPos]);
        if r.Failure? {
          return;
        }
        from := slashPos + 1;
        slashPos := slashPos + 1 + Slash(path[slashPos + 1..]);
      }
      r := Success(());
      if path[|path| - 1] != SLASH {
        r := MakeIfNonexistent(path);
      }
    }

    method Write(path: Text, data: Text) returns (r: Result<(), DiskError>)
      modifies this
      ensures r.Success? ==> WriteFile(old(nodes), path, data) == Success(nodes)
      ensures r.Failure? ==> WriteFile(old(nodes), path, data) == Failure(r.error) && nodes == old(nodes)
    {
      if !CanOpen(nodes, path) {
        return Failure(CannotOpen);
      }
      nodes := nodes[Place(nodes, path).value := File(data)];
      return Success(());
    }
  }

  /* ---- what mkdir_p does on an absolute path without empty names ---- */

  /** Makes every directory on the way to p that is missing. */
  function MakeEach(fs: Nodes, p: Names, i: nat): (r: Result<Nodes, DiskError>)
    requires i <= |p|
    decreases |p| - i
  {
    if i == |p| then Success(fs)
    else match StatNames(fs, p[..i + 1])
         case NotDirectory => Failure(CannotStat)
         case Exists => MakeEach(fs, p, i + 1)
         case Absent =>
           if IsDir(fs, p[..i]) then MakeEach(fs[p[..i + 1] := Dir], p, i + 1) else Failure(CannotMakeDirectory)
  }

  lemma {:induction false} StatNamed(fs: Nodes, p: Names)
    requires AllNames(p) && p != []
    ensures Join(p)[|Join(p)| - 1] != SLASH
    ensures Stat(fs, Join(p)) == StatNames(fs, p)
  {
    hide StatNames, NamesIn, Place;
    NamesOfJoin(p);
    PlacePlainly(fs, Join(p), p);
    var last := p[|p| - 1];
    assert p == Parent(p) + [last];
    JoinAppend(Parent(p), [last]);
    JoinOne(last);
    assert IsName(last) && last[|last| - 1] in last;
  }

  lemma {:induction false} MakeOneNamed(fs: Nodes, p: Names)
    requires AllNames(p) && p != []
    ensures Join(p)[|Join(p)| - 1] != SLASH
    ensures MakeOne(fs, Join(p)) ==
            match StatNames(fs, p)
            case NotDirectory => Failure(CannotStat)
            case Exists => Success(fs)
            case Absent => if IsDir(fs, Parent(p)) then Success(fs[p := Dir]) else Failure(CannotMakeDirectory)
  {
    hide StatNames, NamesIn, Join, Stat, Place;
    NamesOfJoin(p);
    PlacePlainly(fs, Join(p), p);
    StatNamed(fs, p);
  }

  lemma {:induction false} JoinHead(names: Names)
    requires names != []
    ensures Join(names) == [SLASH] + names[0] + Join(names[1..])
  {
  }

  lemma {:induction false} JoinWith(p: Names, name: Text)
    ensures Join(p + [name]) == Join(p) + ([SLASH] + name)
  {
    hide Join;
    JoinAppend(p, [name]);
    JoinOne(name);
  }

  lemma {:induction false} JoinCut(p: Names, i: nat)
    requires i <= |p|
    ensures Join(p) == Join(p[..i]) + Join(p[i..])
  {
    hide Join;
    JoinAppend(p[..i], p[i..]);
    assert p[..i] + p[i..] == p;
  }

  lemma JoinFrom(p: Names, i: nat)
    requires i < |p|
    ensures Join(p[i..]) == [SLASH] + p[i] + Join(p[i + 1..])
  {
    assert p[i..][0] == p[i] && p[i..][1..] == p[i + 1..];
  }

  lemma {:induction false} JoinAt(p: Names, i: nat)
    requires i < |p|
    ensures Join(p) == Join(p[..i]) + ([SLASH] + p[i] + Join(p[i + 1..]))
    ensures Join(p[..i + 1]) == Join(p[..i]) + ([SLASH] + p[i])
  {
    hide Join;
    JoinCut(p, i);
    JoinFrom(p, i);
    assert p[..i + 1] == p[..i] + [p[i]];
    JoinWith(p[..i], p[i]);
  }

  lemma CutAfter(a: Text, name: Text, rest: Text)
    ensures var s := a + ([SLASH] + name + rest);
            s[|a| + 1..] == name + rest && s[..|a| + 1 + |name|] == a + ([SLASH] + name)
  {
  }

  /** Where mkdir_p's loop stands before the i-th name. */
  lemma CutAt(p: Names, i: nat)
    requires AllNames(p) && i < |p|
    ensures var (path, from) := (Join(p), |Join(p[..i])| + 1);
            && from + |p[i]| <= |path|
            && path[from..] == p[i] + Join(p[i + 1..])
            && from + Slash(path[from..]) == from + |p[i]| == |Join(p[..i + 1])|
            && path[..from + |p[i]|] == Join(p[..i + 1])
            && (from + |p[i]| == |path| <==> i + 1 == |p|)
  {
    hide Join, Slash;
    JoinAt(p, i);
    CutAfter(Join(p[..i]), p[i], Join(p[i + 1..]));
    JoinStarts(p[i + 1..]);
    assert IsName(p[i]);
    SlashAfterName(p[i], Join(p[i + 1..]));
  }

  lemma AllNamesPrefix(p: Names, i: nat)
    requires AllNames(p) && i <= |p|
    ensures AllNames(p[..i])
  {
  }

  lemma {:induction false} MakesEach(fs: Nodes, p: Names, i: nat)
    requires AllNames(p) && i < |p|
    ensures |Join(p[..i])| + 1 <= |Join(p)|
    ensures MakeFrom(fs, Join(p), |Join(p[..i])| + 1) == MakeEach(fs, p, i)
    decreases |p| - i
  {
    hide Join, MakeOne, StatNames, Slash, IsDir, AllNames;
    CutAt(p, i);
    var k := |Join(p[..i + 1])|;
    AllNamesPrefix(p, i + 1);
    assert Parent(p[..i + 1]) == p[..i];
    MakeOneNamed(fs, p[..i + 1]);
    if i + 1 == |p| {
      assert p[..i + 1] == p;
    } else {
      var next := MakeOne(fs, Join(p)[..k]);
      if next.Success? {
        MakesEach(next.value, p, i + 1);
      }
    }
  }

  /** mkdir_p on a path all of whose parents are there makes just the last one. */
  lemma {:induction false} MakesLast(fs: Nodes, p: Names)
    requires AllNames(p) && p != []
    requires forall i :: 0 <= i < |p| ==> IsDir(fs, p[..i])
    ensures p !in fs ==> MakeAll(fs, Join(p)) == Success(fs[p := Dir])
    ensures p in fs ==> MakeAll(fs, Join(p)) == Success(fs)
  {
    hide MakeFrom, MakeEach, IsDir, AllNames, Join;
    assert p[..0] == [];
    JoinStarts([]);
    JoinStarts(p);
    MakesEach(fs, p, 0);
    SkipsParents(fs, p, 0);
  }

  lemma {:induction false} SkipsParents(fs: Nodes, p: Names, i: nat)
    requires i < |p| && forall j :: 0 <= j < |p| ==> IsDir(fs, p[..j])
    ensures MakeEach(fs, p, i) == Success(if p in fs then fs else fs[p := Dir])
    decreases |p| - i
  {
    if i + 1 < |p| {
      assert IsDir(fs, p[..i + 1]);
      SkipsParents(fs, p, i + 1);
    } else {
      assert p[..i + 1] == p && Parent(p) == p[..i];
      assert IsDir(fs, p[..i]);
      assert StatNames(fs, p) == if p in fs then Exists else Absent;
    }
  }
}
