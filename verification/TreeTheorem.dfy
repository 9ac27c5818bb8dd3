/** The whole way: a directory tree is archived breadth first, the archive is read
    and extracted into an empty directory, and the tree is there again. */
module TreeTheorem {
  import opened Bytes
  import opened TarHeader
  import opened TarStream
  import opened TarRoundTrip
  import opened FileTree
  import opened RealPath
  import opened TreeArchive
  import opened Extraction
  import opened TreeRoundTrip

  /* ---- placing one entry ---- */

  /** A target directory: where it is, and the text that extraction uses for it. */
  datatype Target = Target(cwd: Text, truePrefix: Text, dir: Names)

  ghost predicate GoodTarget(t: Target) {
    AllNames(t.dir) && IsTextOf(t.truePrefix, t.dir)
  }

  ghost predicate FitsTarget(t: Target, fs: Nodes, names: Names) {
    && Closed(fs) && GoodTarget(t)
    && AllNames(names) && names != [] && |t.dir| + |names| <= LIMIT
    && IsDir(fs, t.dir + Parent(names))
  }

  /** A directory is not where a file is wanted, nor a file where a directory is. */
  predicate Compatible(there: Option<Node>, wanted: Option<Node>) {
    there.Some? && wanted.Some? ==> there.value.Dir? == wanted.value.Dir?
  }

  lemma ClosedAdd(fs: Nodes, q: Names, node: Node)
    requires Closed(fs) && q != [] && IsDir(fs, Parent(q)) && Compatible(Get(fs, q), Some(node))
    ensures Closed(fs[q := node])
  {
  }

  lemma PlacesFolder(t: Target, fs: Nodes, names: Names)
    requires FitsTarget(t, fs, names) && Compatible(Get(fs, t.dir + names), Some(Dir))
    ensures ExtractOne(fs, t.cwd, t.truePrefix, Rel(names), Record(Directory, [], 0x1A4))
            == Success(fs[t.dir + names := Dir])
    ensures Closed(fs[t.dir + names := Dir])
  {
    hide Resolved, Join, MakeAll, Closed, IsDir, AllNames, Rel, WriteFile;
    var full := t.dir + names;
    assert Parent(full) == t.dir + Parent(names);
    ResolvesInside(fs, t.cwd, t.dir, t.truePrefix, names);
    assert AllNames(full) by { AllNamesAppend(t.dir, names); }
    forall i | 0 <= i < |full| ensures IsDir(fs, full[..i]) {
      DirsAbove(fs, full, i);
    }
    MakesLast(fs, full);
    if full in fs {
      assert fs == fs[full := Dir] by { AlreadyThere(fs, full); }
    }
    ClosedAdd(fs, full, Dir);
  }

  lemma AlreadyThere(fs: Nodes, q: Names)
    requires q in fs && Compatible(Get(fs, q), Some(Dir))
    ensures fs == fs[q := Dir]
  {
  }

  lemma AllNamesAppend(a: Names, b: Names)
    requires AllNames(a) && AllNames(b)
    ensures AllNames(a + b)
  {
  }

  lemma PlacesFile(t: Target, fs: Nodes, names: Names, data: Text)
    requires FitsTarget(t, fs, names) && Compatible(Get(fs, t.dir + names), Some(File(data)))
    ensures ExtractOne(fs, t.cwd, t.truePrefix, Rel(names), Record(Regular, data, 0x1A4))
            == Success(fs[t.dir + names := File(data)])
    ensures Closed(fs[t.dir + names := File(data)])
  {
    hide Resolved, Join, MakeAll, Closed, IsDir, AllNames, Rel, NamesIn, Place;
    var full := t.dir + names;
    assert Parent(full) == t.dir + Parent(names);
    ResolvesInside(fs, t.cwd, t.dir, t.truePrefix, names);
    assert AllNames(full) by { AllNamesAppend(t.dir, names); }
    NamesOfJoin(full);
    PlacePlainly(fs, Join(full), full);
    JoinEnds(full);
    ClosedAdd(fs, full, File(data));
  }

  lemma {:induction false} JoinEnds(p: Names)
    requires AllNames(p) && p != []
    ensures Join(p) != [] && Join(p)[|Join(p)| - 1] != SLASH
  {
    hide Join;
    StatNamed(map[], p);
    JoinStarts(p);
  }

  lemma {:induction false} PlaceAllAppend(a: seq<Entry>, b: seq<Entry>, fs: Nodes, cwd: Text, truePrefix: Text)
    ensures PlaceAll(a + b, fs, cwd, truePrefix) ==
            match PlaceAll(a, fs, cwd, truePrefix)
            case Failure(x) => Failure(x)
            case Success(fs') => PlaceAll(b, fs', cwd, truePrefix)
  {
    hide ExtractOne, RecordOf;
    if a == [] {
      assert a + b == b;
    } else {
      assert (a + b)[0] == a[0] && (a + b)[1..] == a[1..] + b;
      var x := ExtractOne(fs, cwd, truePrefix, a[0].path, RecordOf(a[0]));
      if x.Success? {
        PlaceAllAppend(a[1..], b, x.value, cwd, truePrefix);
      }
    }
  }

  /* ---- trees ---- */

  function Find(children: seq<Child>, name: Text): (r: Option<Tree>) {
    if children == [] then None
    else if children[0].name == name then Some(children[0].tree)
    else Find(children[1..], name)
  }

  /** What the tree has at a relative path. */
  function At(t: Tree, rel: Names): (r: Option<Node>)
    decreases |rel|
  {
    match t
    case Leaf(data) => if rel == [] then Some(File(data)) else None
    case Special => None
    case Folder(children) =>
      if rel == [] then Some(Dir)
      else match Find(children, rel[0])
           case None => None
           case Some(child) => At(child, rel[1..])
  }

  ghost predicate DistinctNames(children: seq<Child>) {
    forall i, j :: 0 <= i < j < |children| ==> children[i].name != children[j].name
  }

  /** A tree as a file system has it, every path of which fits a header. */
  ghost predicate GoodTree(names: Names, t: Tree)
    requires names != []
    decreases t
  {
    match t
    case Leaf(data) => Storable(Rel(names)) && |data| < TWO_TO_32
    case Special => true
    case Folder(children) =>
      && Storable(Rel(names)) && DistinctNames(children)
      && forall c <- children :: IsName(c.name) && GoodTree(names + [c.name], c.tree)
  }

  /** How many names the deepest extracted path of a tree has. */
  function Depth(t: Tree): (n: nat)
    ensures t.Folder? ==> n > 0
  {
    match t
    case Leaf(_) => 1
    case Special => 0
    case Folder(children) => 1 + DepthOf(children)
  }

  function DepthOf(children: seq<Child>): (n: nat) {
    if children == [] then 0
    else
      var first, rest := Depth(children[0].tree), DepthOf(children[1..]);
      if first > rest then first else rest
  }

  lemma {:induction false} DeepEnough(children: seq<Child>, c: Child)
    requires c in children
    ensures Depth(c.tree) <= DepthOf(children)
    decreases |children|
  {
    if c != children[0] {
      DeepEnough(children[1..], c);
    }
  }

  lemma RelInjective(a: Names, b: Names)
    requires AllNames(a) && AllNames(b) && a != [] && b != [] && Rel(a) == Rel(b)
    ensures a == b
  {
    hide Join, NamesIn;
    JoinStarts(a);
    JoinStarts(b);
    assert Join(a) == [SLASH] + Rel(a) && Join(b) == [SLASH] + Rel(b);
    NamesOfJoin(a);
    NamesOfJoin(b);
  }

  /* ---- the files of one directory ---- */

  /** The regular file that the listing puts at q, below the directory `abs`. */
  function FileAt(children: seq<Child>, abs: Names, q: Names): (r: Option<Node>) {
    if |q| == |abs| + 1 && abs <= q then
      match Find(children, q[|abs|])
      case Some(Leaf(data)) => Some(File(data))
      case _ => None
    else None
  }

  lemma {:induction false} FindNot(children: seq<Child>, name: Text)
    requires forall c <- children :: c.name != name
    ensures Find(children, name) == None
  {
    if children != [] {
      FindNot(children[1..], name);
    }
  }

  lemma OneMore(abs: Names, q: Names, name: Text)
    ensures q == abs + [name] <==> |q| == |abs| + 1 && abs <= q && q[|abs|] == name
  {
  }

  lemma FileAtFirst(children: seq<Child>, abs: Names, q: Names)
    requires children != [] && DistinctNames(children)
    ensures children[0].tree.Leaf? ==>
              FileAt(children, abs, q) ==
              if q == abs + [children[0].name] then Some(File(children[0].tree.data)) else FileAt(children[1..], abs, q)
    ensures !children[0].tree.Leaf? ==> FileAt(children, abs, q) == FileAt(children[1..], abs, q)
    ensures q == abs + [children[0].name] ==> FileAt(children[1..], abs, q) == None
  {
    var name := children[0].name;
    OneMore(abs, q, name);
    FindNot(children[1..], name) by {
      forall c <- children[1..] ensures c.name != name {
        var j :| 0 <= j < |children[1..]| && children[1..][j] == c;
        assert children[j + 1] == c;
      }
    }
  }

  ghost predicate FitsFiles(t: Target, fs: Nodes, names: Names, children: seq<Child>) {
    && Closed(fs) && GoodTarget(t) && AllNames(names) && names != []
    && IsDir(fs, t.dir + names) && DistinctNames(children)
    && (forall c <- children :: IsName(c.name))
    && (forall c <- children :: c.tree.Leaf? ==>
          |t.dir| + |names| + 1 <= LIMIT && !IsDir(fs, t.dir + names + [c.name]))
  }

  ghost predicate FilesPlaced(fs: Nodes, fs': Nodes, children: seq<Child>, here: Names) {
    && Closed(fs') && IsDir(fs', here)
    && forall q :: Get(fs', q) == match FileAt(children, here, q)
                                  case Some(node) => Some(node)
                                  case None => Get(fs, q)
  }

  lemma NoFilesPlaced(t: Target, fs: Nodes, names: Names)
    requires FitsFiles(t, fs, names, [])
    ensures FilesPlaced(fs, fs, [], t.dir + names)
  {
    hide Closed, FileAt, GoodTarget;
    forall q ensures FileAt([], t.dir + names, q) == None {
      FileAtNone(t.dir + names, q);
    }
  }

  /** The names of the later children are different from the first. */
  lemma LaterNames(children: seq<Child>)
    requires children != [] && DistinctNames(children)
    ensures DistinctNames(children[1..])
    ensures forall d <- children[1..] :: d in children && d.name != children[0].name
  {
    forall d <- children[1..] ensures d in children && d.name != children[0].name {
      var j :| 0 <= j < |children[1..]| && children[1..][j] == d;
      assert children[j + 1] == d;
    }
  }

  lemma SkipsNoFile(t: Target, fs: Nodes, names: Names, children: seq<Child>)
    requires children != [] && FitsFiles(t, fs, names, children)
    ensures FitsFiles(t, fs, names, children[1..])
  {
    hide Closed, GoodTarget;
    LaterNames(children);
  }

  lemma PlacesOneFile(t: Target, fs: Nodes, names: Names, children: seq<Child>) returns (fs': Nodes)
    requires children != [] && children[0].tree.Leaf? && FitsFiles(t, fs, names, children)
    ensures var c := children[0];
            && fs' == fs[t.dir + names + [c.name] := File(c.tree.data)]
            && ExtractOne(fs, t.cwd, t.truePrefix, Rel(names + [c.name]), Record(Regular, c.tree.data, 0x1A4))
               == Success(fs')
    ensures FitsFiles(t, fs', names, children[1..])
  {
    hide ExtractOne, Rel, GoodTarget, Closed;
    var c, here := children[0], t.dir + names;
    var full := names + [c.name];
    assert t.dir + full == here + [c.name] && Parent(full) == names;
    assert c in children;
    PlacesFile(t, fs, full, c.tree.data) by { AllNamesAppend(names, [c.name]); }
    fs' := fs[here + [c.name] := File(c.tree.data)];
    LaterNames(children);
    forall d <- children[1..] ensures IsDir(fs', here + [d.name]) == IsDir(fs, here + [d.name]) {
      assert d.name == (here + [d.name])[|here|] && c.name == (here + [c.name])[|here|];
    }
    assert here != here + [c.name];
  }

  lemma FilesPlacedAfter(fs: Nodes, fs1: Nodes, fs': Nodes, children: seq<Child>, here: Names)
    requires children != [] && children[0].tree.Leaf? && DistinctNames(children)
    requires fs1 == fs[here + [children[0].name] := File(children[0].tree.data)]
    requires FilesPlaced(fs1, fs', children[1..], here)
    ensures FilesPlaced(fs, fs', children, here)
  {
    hide Closed, FileAt;
    forall q ensures Get(fs', q) == match FileAt(children, here, q)
                                    case Some(node) => Some(node)
                                    case None => Get(fs, q) {
      FileAtFirst(children, here, q);
    }
  }

  lemma FilesPlacedSkip(fs: Nodes, fs': Nodes, children: seq<Child>, here: Names)
    requires children != [] && !children[0].tree.Leaf? && DistinctNames(children)
    requires FilesPlaced(fs, fs', children[1..], here)
    ensures FilesPlaced(fs, fs', children, here)
  {
    hide Closed, FileAt;
    forall q ensures FileAt(children, here, q) == FileAt(children[1..], here, q) {
      FileAtFirst(children, here, q);
    }
  }

  lemma {:induction false} FilesInFirst(stem: Text, names: Names, children: seq<Child>)
    requires children != [] && names != []
    ensures var rest := FilesIn(stem + Rel(names), children[1..], |stem|, true);
            FilesIn(stem + Rel(names), children, |stem|, true) ==
            if children[0].tree.Leaf? then [FileEntry(Rel(names + [children[0].name]), children[0].tree.data)] + rest
            else rest
  {
    hide Rel, CleanPath, ChildPath;
    var c, rest := children[0], FilesIn(stem + Rel(names), children[1..], |stem|, true);
    if c.tree.Leaf? {
      FileEntryHere(stem, names, c.name, c.tree.data);
    } else {
      assert [] + rest == rest;
    }
  }

  /** Placing the files of one directory adds exactly those files. */
  lemma {:induction false} PlacesFiles(t: Target, fs: Nodes, names: Names, stem: Text, children: seq<Child>)
    returns (fs': Nodes)
    requires FitsFiles(t, fs, names, children) && names != []
    ensures PlaceAll(FilesIn(stem + Rel(names), children, |stem|, true), fs, t.cwd, t.truePrefix) == Success(fs')
    ensures FilesPlaced(fs, fs', children, t.dir + names)
    decreases |children|
  {
    assert DistinctNames(children);
    hide ExtractOne, Rel, FitsFiles, FilesPlaced, DistinctNames;
    if children == [] {
      fs' := fs;
      NoFilesPlaced(t, fs, names);
    } else {
      hide FilesIn;
      var c, rest := children[0], FilesIn(stem + Rel(names), children[1..], |stem|, true);
      FilesInFirst(stem, names, children);
      if c.tree.Leaf? {
        var fs1 := PlacesOneFile(t, fs, names, children);
        fs' := PlacesFiles(t, fs1, names, stem, children[1..]);
        PlaceAllFirst(FileEntry(Rel(names + [c.name]), c.tree.data), rest, fs, t.cwd, t.truePrefix);
        FilesPlacedAfter(fs, fs1, fs', children, t.dir + names);
      } else {
        SkipsNoFile(t, fs, names, children);
        fs' := PlacesFiles(t, fs, names, stem, children[1..]);
        FilesPlacedSkip(fs, fs', children, t.dir + names);
      }
    }
  }

  lemma FileAtNone(abs: Names, q: Names)
    ensures FileAt([], abs, q) == None
  {
  }

  lemma {:induction false} PlaceAllFirst(e: Entry, rest: seq<Entry>, fs: Nodes, cwd: Text, truePrefix: Text)
    requires ExtractOne(fs, cwd, truePrefix, e.path, RecordOf(e)).Success?
    ensures PlaceAll([e] + rest, fs, cwd, truePrefix) ==
            PlaceAll(rest, ExtractOne(fs, cwd, truePrefix, e.path, RecordOf(e)).value, cwd, truePrefix)
  {
    hide ExtractOne;
    assert ([e] + rest)[1..] == rest;
  }

  lemma FileEntryHere(stem: Text, names: Names, name: Text, data: Text)
    requires names != []
    ensures |stem| <= |ChildPath(stem + Rel(names), name)|
    ensures CleanPath(ChildPath(stem + Rel(names), name), |stem|, true) == Rel(names + [name])
    ensures ChildPath(stem + Rel(names), name) == stem + Rel(names + [name])
  {
    hide Rel;
    RelPush(names, name);
    assert stem + Rel(names) + [SLASH] + name == stem + Rel(names + [name]);
  }

  /* ---- the queue ---- */

  /** A queue of directories, and where each is relative to the archived root. */
  ghost predicate Waiting(todo: seq<Todo>, ns: seq<Names>, stem: Text) {
    && |todo| == |ns|
    && forall i :: 0 <= i < |todo| ==>
         && ns[i] != [] && AllNames(ns[i]) && todo[i].path == stem + Rel(ns[i])
         && todo[i].tree.Folder? && GoodTree(ns[i], todo[i].tree)
  }

  ghost predicate Incomparable(ns: seq<Names>) {
    forall i, j :: 0 <= i < |ns| && 0 <= j < |ns| && i != j ==> !(ns[i] <= ns[j])
  }

  /** The parent is there, and what is already below is compatible with the tree. */
  ghost predicate Fits(fs: Nodes, dir: Names, n: Names, tree: Tree) {
    n != [] && IsDir(fs, dir + Parent(n)) && FitsBelow(fs, dir + n, tree)
  }

  ghost predicate FitsBelow(fs: Nodes, abs: Names, tree: Tree) {
    forall q :: abs <= q ==> Compatible(Get(fs, q), At(tree, q[|abs|..]))
  }

  ghost predicate AllFit(fs: Nodes, dir: Names, todo: seq<Todo>, ns: seq<Names>) {
    |todo| == |ns| && forall i :: 0 <= i < |ns| ==> Fits(fs, dir, ns[i], todo[i].tree)
  }

  /** What the trees of the queue have at q. */
  function Queued(todo: seq<Todo>, ns: seq<Names>, dir: Names, q: Names): (r: Option<Node>)
    requires |todo| == |ns|
  {
    if todo == [] then None
    else if dir + ns[0] <= q && At(todo[0].tree, q[|dir + ns[0]|..]).Some? then At(todo[0].tree, q[|dir + ns[0]|..])
    else Queued(todo[1..], ns[1..], dir, q)
  }

  function Over(above: Option<Node>, below: Option<Node>): (r: Option<Node>) {
    if above.Some? then above else below
  }

  /** What should be at q once the queue has been extracted over fs. */
  function Overlay(todo: seq<Todo>, ns: seq<Names>, dir: Names, fs: Nodes, q: Names): (r: Option<Node>)
    requires |todo| == |ns|
  {
    Over(Queued(todo, ns, dir, q), Get(fs, q))
  }

  lemma {:induction false} QueuedAppend(a: seq<Todo>, na: seq<Names>, b: seq<Todo>, nb: seq<Names>, dir: Names,
                                        q: Names)
    requires |a| == |na| && |b| == |nb|
    ensures Queued(a + b, na + nb, dir, q) == Over(Queued(a, na, dir, q), Queued(b, nb, dir, q))
  {
    hide At;
    if a == [] {
      assert a + b == b && na + nb == nb;
    } else {
      assert (a + b)[1..] == a[1..] + b && (na + nb)[1..] == na[1..] + nb;
      QueuedAppend(a[1..], na[1..], b, nb, dir, q);
    }
  }

  /** Where the directories queued from a listing are. */
  function FolderNames(names: Names, children: seq<Child>): (r: seq<Names>) {
    if children == [] then []
    else
      var c := children[0];
      (if c.tree.Folder? then [names + [c.name]] else []) + FolderNames(names, children[1..])
  }

  lemma {:induction false} FolderNamesMatch(dir: Text, names: Names, children: seq<Child>)
    ensures |FoldersIn(dir, children)| == |FolderNames(names, children)|
  {
    if children != [] {
      FolderNamesMatch(dir, names, children[1..]);
    }
  }

  lemma {:induction false} FolderNamesAre(names: Names, children: seq<Child>, n: Names)
    ensures n in FolderNames(names, children) <==>
            exists c <- children :: c.tree.Folder? && n == names + [c.name]
  {
    if children != [] {
      FolderNamesAre(names, children[1..], n);
      assert forall c :: c in children <==> c == children[0] || c in children[1..];
    }
  }

  /** Below the directory, the queued subdirectories hold exactly the folders. */
  lemma {:induction false} QueuedFolders(path: Text, names: Names, children: seq<Child>, dir: Names, q: Names)
    requires |FoldersIn(path, children)| == |FolderNames(names, children)|
    requires DistinctNames(children)
    ensures Queued(FoldersIn(path, children), FolderNames(names, children), dir, q) ==
            var abs := dir + names;
            if |q| > |abs| && abs <= q && Find(children, q[|abs|]).Some? && Find(children, q[|abs|]).value.Folder?
            then At(Find(children, q[|abs|]).value, q[|abs| + 1..])
            else None
  {
    hide At;
    if children != [] {
      var c, abs := children[0], dir + names;
      var rest, restNames := FoldersIn(path, children[1..]), FolderNames(names, children[1..]);
      FolderNamesMatch(path, names, children[1..]);
      QueuedFolders(path, names, children[1..], dir, q);
      LaterNames(children);
      FindNot(children[1..], c.name);
      if c.tree.Folder? {
        var d, n := Todo(ChildPath(path, c.name), c.tree), names + [c.name];
        assert FoldersIn(path, children) == [d] + rest && FolderNames(names, children) == [n] + restNames;
        assert ([d] + rest)[1..] == rest && ([n] + restNames)[1..] == restNames;
        assert dir + n == abs + [c.name];
        assert abs + [c.name] <= q <==> |q| > |abs| && abs <= q && q[|abs|] == c.name by { Extends(abs, c.name, q); }
      } else {
        assert [] + rest == rest && [] + restNames == restNames;
      }
    }
  }

  lemma Extends(abs: Names, name: Text, q: Names)
    ensures abs + [name] <= q <==> |q| > |abs| && abs <= q && q[|abs|] == name
  {
    if |q| > |abs| && abs <= q && q[|abs|] == name {
      assert abs + [name] == q[..|abs| + 1];
    }
  }

  /* ---- one step of the queue ---- */

  /** The disk after the first directory of the queue and its files were placed. */
  ghost predicate HeadPlaced(fs: Nodes, fs': Nodes, children: seq<Child>, abs: Names) {
    && Closed(fs') && IsDir(fs', abs)
    && forall q :: Get(fs', q) == if q == abs then Some(Dir)
                                  else match FileAt(children, abs, q)
                                       case Some(node) => Some(node)
                                       case None => Get(fs, q)
  }

  /** No path of the waiting trees has more names than can be resolved. */
  ghost predicate Room(todo: seq<Todo>, ns: seq<Names>, dir: Names) {
    |todo| == |ns| && forall i :: 0 <= i < |todo| ==> |dir| + |ns[i]| + Depth(todo[i].tree) <= LIMIT + 1
  }

  lemma FirstDirectory(todo: seq<Todo>, ns: seq<Names>, stem: Text, t: Target, fs: Nodes) returns (fs': Nodes)
    requires todo != [] && Waiting(todo, ns, stem) && Room(todo, ns, t.dir)
    requires AllFit(fs, t.dir, todo, ns) && Closed(fs) && GoodTarget(t)
    ensures var d := todo[0];
            && |stem| <= |d.path|
            && PlaceAll([DirEntry(CleanPath(d.path, |stem|, true))] + FilesIn(d.path, d.tree.children, |stem|, true),
                        fs, t.cwd, t.truePrefix) == Success(fs')
            && HeadPlaced(fs, fs', d.tree.children, t.dir + ns[0])
  {
    hide ExtractOne, Rel, GoodTarget, Storable, FitsFiles, FilesPlaced, Closed;
    var d, n := todo[0], ns[0];
    assert GoodTree(n, d.tree) && Fits(fs, t.dir, n, d.tree);
    assert Compatible(Get(fs, t.dir + n), Some(Dir)) by { FolderIsDir(fs, t.dir + n, d.tree); }
    PlacesFolder(t, fs, n);
    var fs1 := fs[t.dir + n := Dir];
    FitsListing(t, fs, n, d.tree);
    fs' := PlacesFiles(t, fs1, n, stem, d.tree.children);
    assert CleanPath(d.path, |stem|, true) == Rel(n);
    PlaceAllFirst(DirEntry(Rel(n)), FilesIn(d.path, d.tree.children, |stem|, true), fs, t.cwd, t.truePrefix);
    HeadIsPlaced(fs, fs', d.tree.children, t.dir + n);
  }

  lemma FolderIsDir(fs: Nodes, abs: Names, tree: Tree)
    requires tree.Folder? && FitsBelow(fs, abs, tree)
    ensures Compatible(Get(fs, abs), Some(Dir))
  {
    assert abs <= abs && abs[|abs|..] == [];
  }

  lemma ChildFits(fs: Nodes, abs: Names, tree: Tree, c: Child)
    requires tree.Folder? && FitsBelow(fs, abs, tree) && c in tree.children && DistinctNames(tree.children)
    ensures FitsBelow(fs, abs + [c.name], c.tree)
  {
    FindsChild(tree.children, c);
    forall q | abs + [c.name] <= q ensures Compatible(Get(fs, q), At(c.tree, q[|abs| + 1..])) {
      Extends(abs, c.name, q);
      assert q[|abs|..][0] == c.name && q[|abs|..][1..] == q[|abs| + 1..];
    }
  }

  lemma {:induction false} FitsListing(t: Target, fs: Nodes, n: Names, tree: Tree)
    requires tree.Folder? && n != [] && AllNames(n) && GoodTree(n, tree) && Fits(fs, t.dir, n, tree) && GoodTarget(t)
    requires |t.dir| + |n| + Depth(tree) <= LIMIT + 1 && Closed(fs[t.dir + n := Dir])
    ensures FitsFiles(t, fs[t.dir + n := Dir], n, tree.children)
  {
    hide Closed, GoodTarget, Storable, Depth;
    var fs1 := fs[t.dir + n := Dir];
    forall c <- tree.children
      ensures IsName(c.name)
      ensures c.tree.Leaf? ==> |t.dir| + |n| + 1 <= LIMIT && !IsDir(fs1, t.dir + n + [c.name])
    {
      ChildIsDeeper(tree, c);
      ChildFits(fs, t.dir + n, tree, c);
      if c.tree.Leaf? {
        LeafIsFile(fs, t.dir + n + [c.name], c.tree);
      }
    }
  }

  lemma LeafIsFile(fs: Nodes, abs: Names, tree: Tree)
    requires tree.Leaf? && FitsBelow(fs, abs, tree)
    ensures !IsDir(fs, abs)
  {
    assert abs <= abs && abs[|abs|..] == [];
  }

  lemma {:induction false} ChildIsDeeper(tree: Tree, c: Child)
    requires tree.Folder? && c in tree.children
    ensures Depth(c.tree) + 1 <= Depth(tree) && (c.tree.Leaf? ==> Depth(c.tree) == 1)
  {
    DeepEnough(tree.children, c);
  }

  lemma HeadIsPlaced(fs: Nodes, fs': Nodes, children: seq<Child>, abs: Names)
    requires FilesPlaced(fs[abs := Dir], fs', children, abs)
    ensures HeadPlaced(fs, fs', children, abs)
  {
    hide Closed, FileAt;
    forall q ensures Get(fs', q) == if q == abs then Some(Dir)
                                    else match FileAt(children, abs, q)
                                         case Some(node) => Some(node)
                                         case None => Get(fs, q) {
      if q == abs {
        assert Get(fs', q).Some? && IsDir(fs', abs);
      }
    }
  }

  /** Where the queue stands after its first directory. */
  function NextNames(todo: seq<Todo>, ns: seq<Names>): (r: seq<Names>)
    requires todo != [] && ns != [] && todo[0].tree.Folder?
  {
    ns[1..] + FolderNames(ns[0], todo[0].tree.children)
  }

  lemma {:induction false} FoldersWait(stem: Text, names: Names, children: seq<Child>)
    requires names != [] && AllNames(names)
    requires forall c <- children :: IsName(c.name) && GoodTree(names + [c.name], c.tree)
    ensures Waiting(FoldersIn(stem + Rel(names), children), FolderNames(names, children), stem)
  {
    hide Rel, GoodTree;
    if children != [] {
      var c := children[0];
      FoldersWait(stem, names, children[1..]);
      if c.tree.Folder? {
        FileEntryHere(stem, names, c.name, []);
        assert AllNames(names + [c.name]);
      }
    }
  }

  lemma NextWaits(todo: seq<Todo>, ns: seq<Names>, stem: Text)
    requires todo != [] && Waiting(todo, ns, stem)
    ensures Waiting(NextQueue(todo), NextNames(todo, ns), stem)
  {
    hide Rel, Weight, WeightOf;
    var folders, names := FoldersIn(todo[0].path, todo[0].tree.children), FolderNames(ns[0], todo[0].tree.children);
    assert GoodTree(ns[0], todo[0].tree);
    FoldersWait(stem, ns[0], todo[0].tree.children);
    WaitingAppend(todo[1..], ns[1..], folders, names, stem);
  }

  lemma {:induction false} FoldersHaveRoom(path: Text, names: Names, children: seq<Child>, dir: Names)
    requires |dir| + |names| + 1 + DepthOf(children) <= LIMIT + 1
    ensures Room(FoldersIn(path, children), FolderNames(names, children), dir)
    decreases |children|
  {
    hide Depth, Room, ChildPath;
    if children == [] {
      NoRoomNeeded(dir);
    } else {
      var c, rest := children[0], children[1..];
      FoldersHaveRoom(path, names, rest, dir);
      DeepEnough(children, c);
      if c.tree.Folder? {
        OneHasRoom(Todo(ChildPath(path, c.name), c.tree), names + [c.name], dir);
        RoomAppend([Todo(ChildPath(path, c.name), c.tree)], [names + [c.name]],
                   FoldersIn(path, rest), FolderNames(names, rest), dir);
      } else {
        assert [] + FoldersIn(path, rest) == FoldersIn(path, rest);
        assert [] + FolderNames(names, rest) == FolderNames(names, rest);
      }
    }
  }

  lemma NoRoomNeeded(dir: Names)
    ensures Room([], [], dir)
  {
  }

  lemma OneHasRoom(d: Todo, n: Names, dir: Names)
    requires |dir| + |n| + Depth(d.tree) <= LIMIT + 1
    ensures Room([d], [n], dir)
  {
  }

  lemma RoomAppend(a: seq<Todo>, na: seq<Names>, b: seq<Todo>, nb: seq<Names>, dir: Names)
    requires Room(a, na, dir) && Room(b, nb, dir)
    ensures Room(a + b, na + nb, dir)
  {
    hide Depth;
  }

  lemma NextHasRoom(todo: seq<Todo>, ns: seq<Names>, dir: Names)
    requires todo != [] && Room(todo, ns, dir) && todo[0].tree.Folder?
    ensures Room(NextQueue(todo), NextNames(todo, ns), dir)
  {
    hide Weight, WeightOf, QueueWeight, FoldersIn, FolderNames;
    var children := todo[0].tree.children;
    FoldersHaveRoom(todo[0].path, ns[0], children, dir);
    RoomAppend(todo[1..], ns[1..], FoldersIn(todo[0].path, children), FolderNames(ns[0], children), dir);
  }

  lemma WaitingAppend(a: seq<Todo>, na: seq<Names>, b: seq<Todo>, nb: seq<Names>, stem: Text)
    requires Waiting(a, na, stem) && Waiting(b, nb, stem)
    ensures Waiting(a + b, na + nb, stem)
  {
    hide Rel, GoodTree, AllNames;
  }

  lemma Prefixes(a: Names, b: Names, c: Names)
    requires a <= c && b <= c
    ensures a <= b || b <= a
  {
    if |a| <= |b| {
      assert a == b[..|a|];
    } else {
      assert b == a[..|b|];
    }
  }

  lemma NotBelowChild(n: Names, name: Text, m: Names)
    requires !(n <= m) && !(m <= n)
    ensures !(m <= n + [name]) && !(n + [name] <= m)
  {
    if m <= n + [name] {
      Prefixes(m, n, n + [name]);
    }
    assert n <= n + [name];
  }

  lemma {:induction false} FolderNamesDistinct(names: Names, children: seq<Child>)
    requires DistinctNames(children)
    ensures Incomparable(FolderNames(names, children))
  {
    if children != [] {
      var c, rest := children[0], FolderNames(names, children[1..]);
      FolderNamesDistinct(names, children[1..]);
      if c.tree.Folder? {
        var all := [names + [c.name]] + rest;
        assert FolderNames(names, children) == all;
        forall j | 0 <= j < |rest| ensures !(names + [c.name] <= rest[j]) && !(rest[j] <= names + [c.name]) {
          FolderNamesAre(names, children[1..], rest[j]);
          var d :| d in children[1..] && d.tree.Folder? && rest[j] == names + [d.name];
          var k :| 0 <= k < |children[1..]| && children[1..][k] == d;
          assert children[k + 1] == d;
          assert rest[j][|names|] == d.name && (names + [c.name])[|names|] == c.name;
        }
        forall i, j | 0 <= i < |all| && 0 <= j < |all| && i != j ensures !(all[i] <= all[j]) {
          if i > 0 && j > 0 {
            assert all[i] == rest[i - 1] && all[j] == rest[j - 1];
          } else if i == 0 {
            assert all[j] == rest[j - 1];
          } else {
            assert all[i] == rest[i - 1];
          }
        }
      } else {
        assert [] + rest == rest;
      }
    }
  }

  lemma NextIncomparable(todo: seq<Todo>, ns: seq<Names>)
    requires todo != [] && ns != [] && todo[0].tree.Folder? && DistinctNames(todo[0].tree.children)
    requires Incomparable(ns)
    ensures Incomparable(NextNames(todo, ns))
  {
    var n, tail, names := ns[0], ns[1..], FolderNames(ns[0], todo[0].tree.children);
    var all := tail + names;
    FolderNamesDistinct(n, todo[0].tree.children);
    forall i, j | 0 <= i < |tail| && 0 <= j < |names| ensures !(tail[i] <= names[j]) && !(names[j] <= tail[i]) {
      FolderNamesAre(n, todo[0].tree.children, names[j]);
      var c :| c in todo[0].tree.children && c.tree.Folder? && names[j] == n + [c.name];
      assert tail[i] == ns[i + 1];
      assert !(ns[0] <= ns[i + 1]) && !(ns[i + 1] <= ns[0]);
      NotBelowChild(n, c.name, tail[i]);
    }
    forall i, j | 0 <= i < |all| && 0 <= j < |all| && i != j ensures !(all[i] <= all[j]) {
      if i < |tail| && j < |tail| {
        assert all[i] == ns[i + 1] && all[j] == ns[j + 1];
      } else if i >= |tail| && j >= |tail| {
        assert all[i] == names[i - |tail|] && all[j] == names[j - |tail|];
      } else if i < |tail| {
        assert all[i] == tail[i] && all[j] == names[j - |tail|];
      } else {
        assert all[i] == names[i - |tail|] && all[j] == tail[j];
      }
    }
  }

  lemma NextFits(todo: seq<Todo>, ns: seq<Names>, dir: Names, fs: Nodes, fs': Nodes)
    requires todo != [] && |todo| == |ns| && todo[0].tree.Folder? && Incomparable(ns) && AllFit(fs, dir, todo, ns)
    requires DistinctNames(todo[0].tree.children)
    requires HeadPlaced(fs, fs', todo[0].tree.children, dir + ns[0])
    ensures AllFit(fs', dir, NextQueue(todo), NextNames(todo, ns))
  {
    hide Closed, At, FitsBelow, IsDir, Weight, WeightOf, QueueWeight;
    var n, d := ns[0], todo[0];
    assert Fits(fs, dir, n, d.tree);
    forall i | 0 <= i < |todo[1..]| ensures Fits(fs', dir, ns[1..][i], todo[1..][i].tree) {
      TailFits(todo, ns, dir, fs, fs', i + 1);
    }
    FoldersFit(d, n, d.tree.children, dir, fs, fs');
    AllFitAppend(fs', dir, todo[1..], ns[1..], FoldersIn(d.path, d.tree.children), FolderNames(n, d.tree.children));
  }

  lemma AllFitAppend(fs: Nodes, dir: Names, a: seq<Todo>, na: seq<Names>, b: seq<Todo>, nb: seq<Names>)
    requires AllFit(fs, dir, a, na) && AllFit(fs, dir, b, nb)
    ensures AllFit(fs, dir, a + b, na + nb)
  {
    hide Fits;
  }

  lemma {:induction false} FoldersFit(d: Todo, n: Names, children: seq<Child>, dir: Names, fs: Nodes, fs': Nodes)
    requires d.tree.Folder? && DistinctNames(d.tree.children) && forall c <- children :: c in d.tree.children
    requires HeadPlaced(fs, fs', d.tree.children, dir + n) && FitsBelow(fs, dir + n, d.tree)
    ensures AllFit(fs', dir, FoldersIn(d.path, children), FolderNames(n, children))
    decreases |children|
  {
    hide HeadPlaced, FitsBelow, Fits, DistinctNames;
    if children != [] {
      var c := children[0];
      FoldersFit(d, n, children[1..], dir, fs, fs');
      if c.tree.Folder? {
        FolderFits(d.tree, n, dir, fs, fs', c);
      }
    }
  }

  lemma TailFits(todo: seq<Todo>, ns: seq<Names>, dir: Names, fs: Nodes, fs': Nodes, i: nat)
    requires 0 < i < |todo| == |ns| && todo[0].tree.Folder? && Incomparable(ns) && AllFit(fs, dir, todo, ns)
    requires HeadPlaced(fs, fs', todo[0].tree.children, dir + ns[0])
    ensures Fits(fs', dir, ns[i], todo[i].tree)
  {
    hide Closed, At, FileAt;
    var n, m, children := ns[0], ns[i], todo[0].tree.children;
    var abs := dir + n;
    assert !(n <= m) && !(m <= n);
    assert Fits(fs, dir, m, todo[i].tree);
    assert Get(fs, dir + Parent(m)) == Some(Dir);
    NotUnder(children, abs, dir, m, n, fs);
    assert Get(fs', dir + Parent(m)) == Some(Dir);
    forall q | dir + m <= q ensures Get(fs', q) == Get(fs, q) {
      if abs <= q {
        StripPrefix(dir, m, q);
        StripPrefix(dir, n, q);
        Prefixes(n, m, q[|dir|..]);
      }
      FileAtBelow(children, abs, q);
    }
  }

  lemma FileAtBelow(children: seq<Child>, abs: Names, q: Names)
    ensures !(abs <= q) ==> FileAt(children, abs, q) == None
  {
  }

  lemma SamePrefix(dir: Names, a: Names, b: Names)
    ensures dir + a <= dir + b <==> a <= b
  {
    assert (dir + a)[|dir|..] == a && (dir + b)[|dir|..] == b;
  }

  lemma StripPrefix(dir: Names, m: Names, q: Names)
    requires dir + m <= q
    ensures dir <= q && m <= q[|dir|..]
  {
    assert (dir + m)[|dir|..] == m;
  }

  /** The parent of a path that is not below the directory is not one of its files. */
  lemma NotUnder(children: seq<Child>, abs: Names, dir: Names, m: Names, n: Names, fs: Nodes)
    requires abs == dir + n && m != [] && !(n <= m)
    ensures FileAt(children, abs, dir + Parent(m)) == None && dir + Parent(m) != abs
  {
    assert Parent(m) <= m;
    SamePrefix(dir, n, Parent(m));
  }

  lemma FolderFits(tree: Tree, n: Names, dir: Names, fs: Nodes, fs': Nodes, c: Child)
    requires tree.Folder? && c in tree.children && c.tree.Folder? && DistinctNames(tree.children)
    requires HeadPlaced(fs, fs', tree.children, dir + n) && FitsBelow(fs, dir + n, tree)
    ensures Fits(fs', dir, n + [c.name], c.tree)
  {
    hide Closed, At, DistinctNames;
    var abs, m := dir + n, n + [c.name];
    assert Parent(m) == n && dir + m == abs + [c.name];
    FindsChild(tree.children, c);
    ChildFits(fs, abs, tree, c);
    forall q | dir + m <= q ensures Compatible(Get(fs', q), At(c.tree, q[|dir + m|..])) {
      Extends(abs, c.name, q);
      assert Get(fs', q) == Get(fs, q);
    }
  }

  lemma {:induction false} FindsChild(children: seq<Child>, c: Child)
    requires c in children && DistinctNames(children)
    ensures Find(children, c.name) == Some(c.tree)
  {
    if children[0] != c {
      var i :| 0 <= i < |children| && children[i] == c;
      assert children[1..][i - 1] == c;
      FindsChild(children[1..], c);
    }
  }

  /** Extracting the rest of the queue over the new disk is extracting the whole
      queue over the old one. */
  lemma OverlayStep(todo: seq<Todo>, ns: seq<Names>, dir: Names, fs: Nodes, fs': Nodes, q: Names)
    requires todo != [] && |todo| == |ns| && todo[0].tree.Folder? && DistinctNames(todo[0].tree.children)
    requires |NextQueue(todo)| == |NextNames(todo, ns)|
    requires Incomparable(ns)
    requires HeadPlaced(fs, fs', todo[0].tree.children, dir + ns[0])
    ensures Overlay(NextQueue(todo), NextNames(todo, ns), dir, fs', q) == Overlay(todo, ns, dir, fs, q)
  {
    hide Closed, At, Queued, Weight;
    var n, d := ns[0], todo[0];
    var abs, children := dir + n, d.tree.children;
    var folders, names := FoldersIn(d.path, children), FolderNames(n, children);
    FolderNamesMatch(d.path, n, children);
    QueuedAppend(todo[1..], ns[1..], folders, names, dir, q);
    QueuedFolders(d.path, n, children, dir, q);
    QueuedFirst(todo, ns, dir, q);
    if abs <= q {
      NotInTail(todo, ns, dir, q);
      AtHead(d.tree, abs, q);
    }
  }

  lemma {:induction false} QueuedFirst(todo: seq<Todo>, ns: seq<Names>, dir: Names, q: Names)
    requires todo != [] && |todo| == |ns|
    ensures Queued(todo, ns, dir, q) ==
            Over(if dir + ns[0] <= q then At(todo[0].tree, q[|dir + ns[0]|..]) else None,
                 Queued(todo[1..], ns[1..], dir, q))
  {
    hide At;
  }

  lemma {:induction false} QueuedNowhere(todo: seq<Todo>, ns: seq<Names>, dir: Names, q: Names)
    requires |todo| == |ns| && forall n <- ns :: !(dir + n <= q)
    ensures Queued(todo, ns, dir, q) == None
  {
    hide At;
    if todo != [] {
      assert ns[0] in ns;
      assert forall n <- ns[1..] :: n in ns;
      QueuedNowhere(todo[1..], ns[1..], dir, q);
    }
  }

  lemma {:induction false} NotInTail(todo: seq<Todo>, ns: seq<Names>, dir: Names, q: Names)
    requires |todo| == |ns| && ns != [] && Incomparable(ns) && dir + ns[0] <= q
    ensures Queued(todo[1..], ns[1..], dir, q) == None
  {
    forall m | m in ns[1..] ensures !(dir + m <= q) {
      var i :| 0 <= i < |ns[1..]| && ns[1..][i] == m;
      assert ns[i + 1] == m;
      if dir + m <= q {
        StripPrefix(dir, m, q);
        StripPrefix(dir, ns[0], q);
        Prefixes(ns[0], m, q[|dir|..]);
      }
    }
    QueuedNowhere(todo[1..], ns[1..], dir, q);
  }

  /** A folder's contents: itself, its files, and what its subfolders hold. */
  lemma {:induction false} AtHead(t: Tree, abs: Names, q: Names)
    requires t.Folder? && abs <= q
    ensures At(t, q[|abs|..]) ==
            if q == abs then Some(Dir)
            else match Find(t.children, q[|abs|])
                 case Some(Folder(_)) => At(Find(t.children, q[|abs|]).value, q[|abs| + 1..])
                 case _ => FileAt(t.children, abs, q)
  {
    var rel := q[|abs|..];
    if rel != [] {
      assert rel[0] == q[|abs|] && rel[1..] == q[|abs| + 1..];
    } else {
      assert q == abs;
    }
  }

  /* ---- the whole queue ---- */

  ghost predicate Ready(todo: seq<Todo>, ns: seq<Names>, stem: Text, t: Target, fs: Nodes) {
    && Waiting(todo, ns, stem) && Room(todo, ns, t.dir) && Incomparable(ns)
    && AllFit(fs, t.dir, todo, ns) && Closed(fs) && GoodTarget(t)
  }

  lemma ReadyQueue(todo: seq<Todo>, ns: seq<Names>, stem: Text)
    requires Waiting(todo, ns, stem)
    ensures QueueReady(todo, |stem|)
  {
  }

  /** Extracting what a queue of directories emits puts exactly those directories, with
      everything below them, over what is there. */
  lemma {:induction false} PlacesQueue(todo: seq<Todo>, ns: seq<Names>, stem: Text, t: Target, fs: Nodes)
    returns (fs': Nodes)
    requires Ready(todo, ns, stem, t, fs)
    ensures QueueReady(todo, |stem|)
    ensures PlaceAll(Emit(todo, |stem|, true), fs, t.cwd, t.truePrefix) == Success(fs')
    ensures Closed(fs') && forall q :: Get(fs', q) == Overlay(todo, ns, t.dir, fs, q)
    decreases QueueWeight(todo)
  {
    hide GoodTree, GoodTarget, Closed, ExtractOne, Rel, QueueWeight, FilesIn;
    ReadyQueue(todo, ns, stem);
    fs' := fs;
    if todo != [] {
      EmitStep([], todo, |stem|, true);
      var d := todo[0];
      var head := [DirEntry(CleanPath(d.path, |stem|, true))] + FilesIn(d.path, d.tree.children, |stem|, true);
      var tail := Emit(NextQueue(todo), |stem|, true);
      assert Emit(todo, |stem|, true) == head + tail;
      var fs1 := FirstDirectory(todo, ns, stem, t, fs);
      assert DistinctNames(d.tree.children) by { GoodMeansDistinct(ns[0], d.tree); }
      NextWaits(todo, ns, stem);
      NextHasRoom(todo, ns, t.dir);
      NextIncomparable(todo, ns);
      NextFits(todo, ns, t.dir, fs, fs1);
      fs' := PlacesQueue(NextQueue(todo), NextNames(todo, ns), stem, t, fs1);
      PlaceAllAppend(head, tail, fs, t.cwd, t.truePrefix);
      forall q ensures Get(fs', q) == Overlay(todo, ns, t.dir, fs, q) {
        OverlayStep(todo, ns, t.dir, fs, fs1, q);
      }
    }
  }

  lemma {:induction false} GoodMeansDistinct(names: Names, t: Tree)
    requires names != [] && GoodTree(names, t) && t.Folder?
    ensures DistinctNames(t.children)
  {
  }

  /* ---- each entry is storable, and none is written twice ---- */

  /** Where each emitted entry is, relative to the archived root. */
  ghost function FileNames(names: Names, children: seq<Child>): (r: seq<Names>) {
    if children == [] then []
    else
      var c := children[0];
      (if c.tree.Leaf? then [names + [c.name]] else []) + FileNames(names, children[1..])
  }

  ghost function EmitNames(todo: seq<Todo>, ns: seq<Names>): (r: seq<Names>)
    requires |todo| == |ns| && forall d <- todo :: d.tree.Folder?
    decreases QueueWeight(todo)
  {
    if todo == [] then []
    else
      FolderNamesMatch(todo[0].path, ns[0], todo[0].tree.children);
      [ns[0]] + FileNames(ns[0], todo[0].tree.children) + EmitNames(NextQueue(todo), NextNames(todo, ns))
  }

  /** Entries that are at these places and fit the archive. */
  ghost predicate Matches(entries: seq<Entry>, places: seq<Names>) {
    && |entries| == |places|
    && forall i :: 0 <= i < |entries| ==>
         places[i] != [] && AllNames(places[i]) && entries[i].path == Rel(places[i]) && Archivable(entries[i])
  }

  lemma MatchesAppend(a: seq<Entry>, pa: seq<Names>, b: seq<Entry>, pb: seq<Names>)
    requires Matches(a, pa) && Matches(b, pb)
    ensures Matches(a + b, pa + pb)
  {
    hide Archivable, Rel, AllNames;
  }

  lemma {:induction false} FilesMatch(stem: Text, names: Names, children: seq<Child>)
    requires names != [] && AllNames(names)
    requires forall c <- children :: IsName(c.name) && GoodTree(names + [c.name], c.tree)
    ensures Matches(FilesIn(stem + Rel(names), children, |stem|, true), FileNames(names, children))
  {
    hide Rel, Storable;
    if children != [] {
      var c := children[0];
      FilesMatch(stem, names, children[1..]);
      if c.tree.Leaf? {
        FileEntryHere(stem, names, c.name, c.tree.data);
        assert AllNames(names + [c.name]);
        assert GoodTree(names + [c.name], c.tree);
        MatchesAppend([FileEntry(Rel(names + [c.name]), c.tree.data)], [names + [c.name]],
                      FilesIn(stem + Rel(names), children[1..], |stem|, true), FileNames(names, children[1..]));
      } else {
        MatchesAppend([], [], FilesIn(stem + Rel(names), children[1..], |stem|, true), FileNames(names, children[1..]));
      }
    }
  }

  lemma {:induction false} EmitMatches(todo: seq<Todo>, ns: seq<Names>, stem: Text)
    requires Waiting(todo, ns, stem)
    ensures QueueReady(todo, |stem|)
    ensures Matches(Emit(todo, |stem|, true), EmitNames(todo, ns))
    decreases QueueWeight(todo)
  {
    hide Rel, Storable, QueueWeight, FilesIn, FileNames, Matches;
    ReadyQueue(todo, ns, stem);
    if todo == [] {
      MatchesNothing();
    } else {
      EmitStep([], todo, |stem|, true);
      var d, n := todo[0], ns[0];
      NextWaits(todo, ns, stem);
      EmitMatches(NextQueue(todo), NextNames(todo, ns), stem);
      assert GoodTree(n, d.tree);
      FilesMatch(stem, n, d.tree.children);
      var dir := [DirEntry(Rel(n))];
      assert CleanPath(d.path, |stem|, true) == Rel(n);
      assert Matches(dir, [n]) by { MatchesDirectory(n, d.tree); }
      var files, fileNames := FilesIn(d.path, d.tree.children, |stem|, true), FileNames(n, d.tree.children);
      MatchesAppend(dir, [n], files, fileNames);
      MatchesAppend(dir + files, [n] + fileNames, Emit(NextQueue(todo), |stem|, true),
                    EmitNames(NextQueue(todo), NextNames(todo, ns)));
    }
  }

  lemma MatchesNothing()
    ensures Matches([], [])
  {
  }

  lemma {:induction false} MatchesDirectory(n: Names, t: Tree)
    requires n != [] && AllNames(n) && GoodTree(n, t) && t.Folder?
    ensures Matches([DirEntry(Rel(n))], [n])
  {
    hide Storable, Rel;
  }

  ghost predicate NoRepeats(s: seq<Names>) {
    forall i, j :: 0 <= i < j < |s| ==> s[i] != s[j]
  }

  lemma NoRepeatsAppend(a: seq<Names>, b: seq<Names>)
    requires NoRepeats(a) && NoRepeats(b) && forall x <- a, y <- b :: x != y
    ensures NoRepeats(a + b)
  {
    var s := a + b;
    forall i, j | 0 <= i < j < |s| ensures s[i] != s[j] {
      if i < |a| && j >= |a| {
        assert s[i] in a && s[j] in b;
      }
    }
  }

  lemma {:induction false} FileNamesAre(names: Names, children: seq<Child>, m: Names)
    ensures m in FileNames(names, children) <==> exists c <- children :: c.tree.Leaf? && m == names + [c.name]
  {
    if children != [] {
      FileNamesAre(names, children[1..], m);
      assert forall c :: c in children <==> c == children[0] || c in children[1..];
    }
  }

  lemma {:induction false} FilesDistinct(names: Names, children: seq<Child>)
    requires DistinctNames(children)
    ensures NoRepeats(FileNames(names, children))
  {
    if children != [] {
      var c, rest := children[0], FileNames(names, children[1..]);
      FilesDistinct(names, children[1..]);
      if c.tree.Leaf? {
        forall x <- [names + [c.name]], y <- rest ensures x != y {
          FileNamesAre(names, children[1..], y);
          var d :| d in children[1..] && d.tree.Leaf? && y == names + [d.name];
          var k :| 0 <= k < |children[1..]| && children[1..][k] == d;
          assert children[k + 1] == d;
          assert x[|names|] == c.name && y[|names|] == d.name;
        }
        NoRepeatsAppend([names + [c.name]], rest);
      } else {
        assert [] + rest == rest;
      }
    }
  }

  /** What is emitted later is neither the first directory nor one of its files. */
  lemma LaterDiffers(todo: seq<Todo>, ns: seq<Names>, k: Names, m: Names, x: Names)
    requires todo != [] && ns != [] && todo[0].tree.Folder? && DistinctNames(todo[0].tree.children)
    requires Incomparable(ns) && k in NextNames(todo, ns) && k <= m
    requires x == ns[0] || x in FileNames(ns[0], todo[0].tree.children)
    ensures x != m
  {
    var n, children := ns[0], todo[0].tree.children;
    FileNamesAre(n, children, x);
    if k in ns[1..] {
      var i :| 0 <= i < |ns[1..]| && ns[1..][i] == k;
      assert ns[i + 1] == k;
      if x != n {
        var c :| c in children && c.tree.Leaf? && x == n + [c.name];
        NotBelowChild(n, c.name, k);
      }
    } else {
      FolderNamesAre(n, children, k);
      var d :| d in children && d.tree.Folder? && k == n + [d.name];
      if x != n {
        var c :| c in children && c.tree.Leaf? && x == n + [c.name];
        FindsChild(children, c);
        FindsChild(children, d);
        Extends(n, d.name, x);
      }
    }
  }

  lemma {:induction false} EmitDistinct(todo: seq<Todo>, ns: seq<Names>, stem: Text)
    requires Waiting(todo, ns, stem) && Incomparable(ns)
    ensures NoRepeats(EmitNames(todo, ns))
    ensures forall m <- EmitNames(todo, ns) :: exists n <- ns :: n <= m
    decreases QueueWeight(todo)
  {
    hide GoodTree, Rel, QueueWeight, AllNames;
    if todo != [] {
      var d, n := todo[0], ns[0];
      assert DistinctNames(d.tree.children) by { GoodMeansDistinct(n, d.tree); }
      NextWaits(todo, ns, stem);
      NextIncomparable(todo, ns);
      ReadyQueue(todo, ns, stem);
      EmitStep([], todo, |stem|, true);
      var next, nextNames := NextQueue(todo), NextNames(todo, ns);
      EmitDistinct(next, nextNames, stem);
      var head, rest := [n] + FileNames(n, d.tree.children), EmitNames(next, nextNames);
      FilesDistinct(n, d.tree.children);
      forall x <- [n], y <- FileNames(n, d.tree.children) ensures x != y {
        FileNamesAre(n, d.tree.children, y);
      }
      NoRepeatsAppend([n], FileNames(n, d.tree.children));
      forall x <- head, y <- rest ensures x != y {
        var k :| k in nextNames && k <= y;
        LaterDiffers(todo, ns, k, y, x);
      }
      NoRepeatsAppend(head, rest);
      assert EmitNames(todo, ns) == head + rest;
      forall m <- head + rest ensures exists k <- ns :: k <= m {
        EmittedBelow(todo, ns, m);
      }
    }
  }

  lemma EmittedBelow(todo: seq<Todo>, ns: seq<Names>, m: Names)
    requires todo != [] && ns != [] && todo[0].tree.Folder?
    requires m == ns[0] || m in FileNames(ns[0], todo[0].tree.children) || exists k <- NextNames(todo, ns) :: k <= m
    ensures exists n <- ns :: n <= m
  {
    var n, children := ns[0], todo[0].tree.children;
    assert n in ns;
    FileNamesAre(n, children, m);
    if m != n && m !in FileNames(n, children) {
      var k :| k in NextNames(todo, ns) && k <= m;
      if k in ns[1..] {
        assert k in ns;
      } else {
        FolderNamesAre(n, children, k);
        assert n <= k;
        assert n <= m;
      }
    }
  }

  /** The archive of a good tree is a good archive. */
  lemma {:induction false} ArchiveIsGood(todo: seq<Todo>, ns: seq<Names>, stem: Text, clock: nat -> Env)
    requires Waiting(todo, ns, stem) && Incomparable(ns)
    ensures QueueReady(todo, |stem|)
    ensures GoodArchive(Stamp(Emit(todo, |stem|, true), clock))
  {
    hide Rel, GoodTree, Storable, Emit, EmitNames;
    EmitMatches(todo, ns, stem);
    EmitDistinct(todo, ns, stem);
    var entries, places := Emit(todo, |stem|, true), EmitNames(todo, ns);
    var items := Stamp(entries, clock);
    forall i, j | 0 <= i < j < |items| ensures items[i].entry.path != items[j].entry.path {
      if entries[i].path == entries[j].path {
        RelInjective(places[i], places[j]);
      }
    }
  }

  /* ---- the theorem ---- */

  /** A tree goes over what is there and compatible with it. */
  lemma PlacesTree(t: Target, fs: Nodes, base: Names, stem: Text, tree: Tree) returns (fs': Nodes)
    requires base != [] && AllNames(base) && tree.Folder? && GoodTree(base, tree)
    requires |t.dir| + |base| + Depth(tree) <= LIMIT + 1
    requires Closed(fs) && GoodTarget(t) && Fits(fs, t.dir, base, tree)
    ensures var todo := [Todo(stem + Rel(base), tree)];
            && QueueReady(todo, |stem|)
            && PlaceAll(Emit(todo, |stem|, true), fs, t.cwd, t.truePrefix) == Success(fs')
    ensures Closed(fs') && Merged(fs, fs', t.dir + base, tree)
  {
    hide GoodTree, GoodTarget, Emit, Closed, Fits, Rel, Depth, At, Waiting, Incomparable;
    var todo, ns := [Todo(stem + Rel(base), tree)], [base];
    OneWaits(base, stem, tree);
    assert Ready(todo, ns, stem, t, fs);
    fs' := PlacesQueue(todo, ns, stem, t, fs);
    forall q ensures Overlay(todo, ns, t.dir, fs, q) == Over(Inside(t.dir + base, tree, q), Get(fs, q)) {
      QueuedFirst(todo, ns, t.dir, q);
      assert todo[1..] == [] && ns[1..] == [];
    }
  }

  /** What a tree at the path abs has at q. */
  function Inside(abs: Names, tree: Tree, q: Names): (r: Option<Node>) {
    if abs <= q then At(tree, q[|abs|..]) else None
  }

  /** The tree is at abs, over what was on the disk before. */
  ghost predicate Merged(fs: Nodes, fs': Nodes, abs: Names, tree: Tree) {
    forall q :: Get(fs', q) == Over(Inside(abs, tree, q), Get(fs, q))
  }

  /** Extracting from the archive of these entries, with anything at all after its footer. */
  ghost function ExtractedFrom(entries: seq<Entry>, clock: nat -> Env, more: Text,
                               fs: Nodes, cwd: Text, prefix: Text, drop: bool)
    : (r: Result<Nodes, ExtractError>)
  {
    var stream := Archive(Stamp(entries, clock)) + (FOOTER + more);
    ExtractTo(State(stream, false, map[], false), fs, cwd, prefix, drop).result
  }

  /** The archive of one tree, read and extracted: its entries are placed in order. */
  lemma {:induction false} ExtractsTree(base: Names, stem: Text, tree: Tree, clock: nat -> Env, more: Text, fs: Nodes,
                                        cwd: Text, prefix: Text, drop: bool)
    requires base != [] && AllNames(base) && tree.Folder? && GoodTree(base, tree)
    requires prefix != [] && Resolved(fs, cwd, prefix).Success?
    ensures var todo := [Todo(stem + Rel(base), tree)];
            && QueueReady(todo, |stem|)
            && ExtractedFrom(Emit(todo, |stem|, true), clock, more, fs, cwd, prefix, drop) ==
               PlaceAll(Emit(todo, |stem|, true), fs, cwd, Resolved(fs, cwd, prefix).value)
  {
    hide GoodTree, Emit, ExtractAll, ExtractTo, Resolved, Rel, Archive, PlaceAll, Waiting, Incomparable, GoodArchive,
         Stamp;
    var todo, ns := [Todo(stem + Rel(base), tree)], [base];
    OneWaits(base, stem, tree);
    ArchiveIsGood(todo, ns, stem, clock);
    var entries := Emit(todo, |stem|, true);
    var items := Stamp(entries, clock);
    StampedEntries(entries, clock);
    var src := Archive(items) + (FOOTER + more);
    ExtractToStarts(src, fs, cwd, prefix, drop);
    ExtractsArchive(items, more, State(src, false, map[], false), fs, cwd, Resolved(fs, cwd, prefix).value, drop);
  }

  lemma {:induction false} OneWaits(base: Names, stem: Text, tree: Tree)
    requires base != [] && AllNames(base) && tree.Folder? && GoodTree(base, tree)
    ensures Waiting([Todo(stem + Rel(base), tree)], [base], stem) && Incomparable([base])
  {
    hide GoodTree, Rel;
  }

  lemma StampedEntries(entries: seq<Entry>, clock: nat -> Env)
    ensures EntriesOf(Stamp(entries, clock)) == entries
  {
  }

  lemma {:induction false} ExtractToStarts(src: Text, fs: Nodes, cwd: Text, prefix: Text, drop: bool)
    requires prefix != [] && Resolved(fs, cwd, prefix).Success?
    ensures var st := State(src, false, map[], false);
            ExtractTo(st, fs, cwd, prefix, drop) == ExtractAll(st, fs, cwd, Resolved(fs, cwd, prefix).value, drop)
  {
    hide Resolved, ExtractAll;
  }

  /** The name of the archived directory itself. */
  function BaseName(basePath: Text): (name: Text) {
    basePath[LastSlash(basePath)..]
  }

  /** An existing directory, and the text that names it. */
  ghost predicate TargetAt(fs: Nodes, cwd: Text, prefix: Text, dir: Names) {
    && Closed(fs) && AllNames(dir) && IsDir(fs, dir)
    && prefix != [] && Resolved(fs, cwd, prefix).Success? && IsTextOf(Resolved(fs, cwd, prefix).value, dir)
  }

  ghost predicate EmptyTarget(fs: Nodes, cwd: Text, prefix: Text, dir: Names) {
    TargetAt(fs, cwd, prefix, dir) && forall q :: q in fs && dir <= q ==> q == dir
  }

  /* ---- what extraction never changes ---- */

  /** Nothing is taken away, and directories stay directories, files files. */
  ghost predicate KindsKept(fs: Nodes, fs': Nodes) {
    forall q :: q in fs ==> q in fs' && fs'[q].Dir? == fs[q].Dir?
  }

  lemma {:induction false} MakeFromKeeps(fs: Nodes, path: Text, from: nat)
    requires from <= |path| && path != [] && MakeFrom(fs, path, from).Success?
    ensures KindsKept(fs, MakeFrom(fs, path, from).value)
    decreases |path| - from
  {
    hide MakeOne, Slash;
    var k := from + Slash(path[from..]);
    if k == |path| {
      if path[|path| - 1] != SLASH {
        MakeOneKeeps(fs, path);
      }
    } else {
      MakeOneKeeps(fs, path[..k]);
      MakeFromKeeps(MakeOne(fs, path[..k]).value, path, k + 1);
    }
  }

  lemma MakeOneKeeps(fs: Nodes, path: Text)
    requires MakeOne(fs, path).Success?
    ensures KindsKept(fs, MakeOne(fs, path).value)
  {
    hide Place;
  }

  lemma ExtractKeeps(fs: Nodes, cwd: Text, truePrefix: Text, name: Text, record: Record)
    requires ExtractOne(fs, cwd, truePrefix, name, record).Success?
    ensures KindsKept(fs, ExtractOne(fs, cwd, truePrefix, name, record).value)
  {
    hide Resolved, MakeFrom, Place;
    var path := Resolved(fs, cwd, if truePrefix == [] then name else truePrefix + [SLASH] + name).value;
    if record.kind == Directory {
      MakeFromKeeps(fs, path, 1);
    }
  }

  lemma {:induction false} PlacingKeeps(entries: seq<Entry>, fs: Nodes, cwd: Text, truePrefix: Text)
    requires PlaceAll(entries, fs, cwd, truePrefix).Success?
    ensures KindsKept(fs, PlaceAll(entries, fs, cwd, truePrefix).value)
    decreases |entries|
  {
    hide ExtractOne, RecordOf;
    if entries != [] {
      var e := entries[0];
      ExtractKeeps(fs, cwd, truePrefix, e.path, RecordOf(e));
      PlacingKeeps(entries[1..], ExtractOne(fs, cwd, truePrefix, e.path, RecordOf(e)).value, cwd, truePrefix);
    }
  }

  /* ---- the theorems ---- */

  /** Archive a directory of directories and regular files whose paths fit, from a
      path not ending in '/', with the path to it stripped. Read the archive and extract
      it into an existing directory, whatever is there: the disk then holds the tree,
      under the directory's own name, and is otherwise as before, exactly when no
      directory was where the tree has a file and no file where it has a directory. */
  lemma {:induction false} ExtractsOver(basePath: Text, tree: Tree, clock: nat -> Env, more: Text, fs: Nodes, cwd: Text,
                                        prefix: Text, dir: Names, drop: bool)
    requires IsName(BaseName(basePath)) && tree.Folder? && GoodTree([BaseName(basePath)], tree)
    requires TargetAt(fs, cwd, prefix, dir) && |dir| + Depth(tree) <= LIMIT
    ensures QueueReady([Todo(basePath, tree)], PrefixLength(basePath, true))
    ensures var entries := Emit([Todo(basePath, tree)], PrefixLength(basePath, true), true);
            var r, abs := ExtractedFrom(entries, clock, more, fs, cwd, prefix, drop), dir + [BaseName(basePath)];
            && (r.Success? && Merged(fs, r.value, abs, tree) <==> FitsBelow(fs, abs, tree))
            && (FitsBelow(fs, abs, tree) ==> Closed(r.value))
  {
    hide GoodTree, Emit, Closed, ExtractedFrom, Resolved, FitsBelow, Rel, At, Depth, PlaceAll, Merged;
    var base, stem := BaseName(basePath), basePath[..LastSlash(basePath)];
    RelOne(base);
    assert basePath == stem + Rel([base]) && |stem| == PrefixLength(basePath, true);
    ExtractsTree([base], stem, tree, clock, more, fs, cwd, prefix, drop);
    var entries, truePrefix := Emit([Todo(basePath, tree)], |stem|, true), Resolved(fs, cwd, prefix).value;
    var r := PlaceAll(entries, fs, cwd, truePrefix);
    if FitsBelow(fs, dir + [base], tree) {
      assert Parent([base]) == [] && dir + [] == dir;
      var fs' := PlacesTree(Target(cwd, truePrefix, dir), fs, [base], stem, tree);
    } else if r.Success? {
      PlacingKeeps(entries, fs, cwd, truePrefix);
      KeptMeansFits(fs, r.value, dir + [base], tree);
    }
  }

  lemma KeptMeansFits(fs: Nodes, fs': Nodes, abs: Names, tree: Tree)
    requires KindsKept(fs, fs')
    ensures Merged(fs, fs', abs, tree) ==> FitsBelow(fs, abs, tree)
  {
    hide At;
    if Merged(fs, fs', abs, tree) {
      forall q | abs <= q ensures Compatible(Get(fs, q), At(tree, q[|abs|..])) {
        assert Get(fs', q) == Over(Inside(abs, tree, q), Get(fs, q));
      }
    }
  }

  /** Into an existing empty directory the tree always comes out. */
  lemma ArchiveThenExtract(basePath: Text, tree: Tree, clock: nat -> Env, more: Text,
                           fs: Nodes, cwd: Text, prefix: Text, dir: Names, drop: bool)
    returns (fs': Nodes)
    requires IsName(BaseName(basePath)) && tree.Folder? && GoodTree([BaseName(basePath)], tree)
    requires EmptyTarget(fs, cwd, prefix, dir) && |dir| + Depth(tree) <= LIMIT
    ensures QueueReady([Todo(basePath, tree)], PrefixLength(basePath, true))
    ensures var entries := Emit([Todo(basePath, tree)], PrefixLength(basePath, true), true);
            ExtractedFrom(entries, clock, more, fs, cwd, prefix, drop) == Success(fs')
    ensures forall q ::
              Get(fs', q) == if dir + [BaseName(basePath)] <= q then At(tree, q[|dir| + 1..]) else Get(fs, q)
  {
    hide GoodTree, Emit, TargetAt, ExtractedFrom, At, Depth;
    var abs := dir + [BaseName(basePath)];
    ExtractsOver(basePath, tree, clock, more, fs, cwd, prefix, dir, drop);
    forall q | abs <= q ensures Get(fs, q) == None {
      assert dir <= abs;
    }
    var entries := Emit([Todo(basePath, tree)], PrefixLength(basePath, true), true);
    fs' := ExtractedFrom(entries, clock, more, fs, cwd, prefix, drop).value;
  }

  /** Extracting a second time changes nothing. */
  lemma {:induction false} ExtractsAgain(basePath: Text, tree: Tree, clock: nat -> Env, more: Text, fs: Nodes,
                                         cwd: Text, prefix: Text, dir: Names, drop: bool)
    requires IsName(BaseName(basePath)) && tree.Folder? && GoodTree([BaseName(basePath)], tree)
    requires Closed(fs) && AllNames(dir) && IsDir(fs, dir) && IsTextOf(prefix, dir) && |dir| + Depth(tree) <= LIMIT
    requires FitsBelow(fs, dir + [BaseName(basePath)], tree)
    ensures QueueReady([Todo(basePath, tree)], PrefixLength(basePath, true))
    ensures var entries := Emit([Todo(basePath, tree)], PrefixLength(basePath, true), true);
            var once := ExtractedFrom(entries, clock, more, fs, cwd, prefix, drop);
            once.Success? && ExtractedFrom(entries, clock, more, once.value, cwd, prefix, drop) == once
  {
    hide GoodTree, Emit, ExtractedFrom, At, Depth, Join, Closed, Resolved, FitsBelow;
    var abs := dir + [BaseName(basePath)];
    var entries := Emit([Todo(basePath, tree)], PrefixLength(basePath, true), true);
    ExistingTarget(fs, cwd, prefix, dir);
    ExtractsOver(basePath, tree, clock, more, fs, cwd, prefix, dir, drop);
    var once := ExtractedFrom(entries, clock, more, fs, cwd, prefix, drop).value;
    assert Get(once, dir) == Over(Inside(abs, tree, dir), Get(fs, dir));
    ExistingTarget(once, cwd, prefix, dir);
    MergedFits(fs, once, abs, tree);
    ExtractsOver(basePath, tree, clock, more, once, cwd, prefix, dir, drop);
    MergedTwice(fs, once, ExtractedFrom(entries, clock, more, once, cwd, prefix, drop).value, abs, tree);
  }

  lemma MergedFits(fs: Nodes, fs': Nodes, abs: Names, tree: Tree)
    requires Merged(fs, fs', abs, tree)
    ensures FitsBelow(fs', abs, tree)
  {
    hide At;
  }

  lemma MergedTwice(fs: Nodes, once: Nodes, twice: Nodes, abs: Names, tree: Tree)
    requires Merged(fs, once, abs, tree) && Merged(once, twice, abs, tree)
    ensures once == twice
  {
    hide Inside;
    SameNodes(once, twice);
  }

  lemma SameNodes(fs: Nodes, fs': Nodes)
    requires forall q :: Get(fs, q) == Get(fs', q)
    ensures fs == fs'
  {
    assert forall q :: (q in fs <==> Get(fs, q).Some?) && (q in fs' <==> Get(fs', q).Some?);
  }

  /** An absolute path of an existing directory, with or without a '/' at its end, is a
      target as it stands. */
  lemma ExistingTarget(fs: Nodes, cwd: Text, prefix: Text, dir: Names)
    requires Closed(fs) && AllNames(dir) && |dir| <= LIMIT && IsDir(fs, dir) && IsTextOf(prefix, dir)
    ensures TargetAt(fs, cwd, prefix, dir) && Resolved(fs, cwd, prefix) == Success(prefix)
  {
    hide Walk, Join, Assemble, Known, Closed;
    JoinStarts(dir);
    if prefix == Join(dir) {
      assert IsDir(fs, Parent(dir)) by {
        Ancestors(fs, dir, |dir| - 1);
      }
      WalksPlainly(fs, dir);
      NamesResolved(dir, dir !in fs);
    } else {
      WalksToSlash(fs, dir);
    }
  }

  /** The empty name behind the last '/' of an existing directory is kept. */
  lemma {:induction false} WalksToSlash(fs: Nodes, dir: Names)
    requires Closed(fs) && AllNames(dir) && |dir| <= LIMIT && IsDir(fs, dir)
    ensures Join(dir) + [SLASH] != [] && (Join(dir) + [SLASH])[0] == SLASH
    ensures var walked := Walk(fs, [], (Join(dir) + [SLASH])[1..], [], 0);
            walked.Success? && Assemble(walked.value) == Join(dir) + [SLASH]
  {
    hide Walk, Enter, Join, Known, Closed, Assemble, IsDir, AllNames;
    JoinStarts(dir);
    WalksUpToSlash(fs, dir);
    var none: Text := [];
    WalkLast(fs, none, none, Known(dir), |dir|);
    assert none + none == none;
    EntersNothing(fs, dir);
  }

  lemma {:induction false} WalksUpToSlash(fs: Nodes, dir: Names)
    requires Closed(fs) && AllNames(dir) && |dir| <= LIMIT && IsDir(fs, dir)
    ensures Join(dir) + [SLASH] != []
    ensures Walk(fs, [], (Join(dir) + [SLASH])[1..], [], 0) == Walk(fs, [], [], Known(dir), |dir|)
  {
    hide Walk, Join, Known, Closed, IsDir;
    KnownNothing();
    if dir == [] {
      assert (Join(dir) + [SLASH])[1..] == [] by { JoinStarts(dir); }
    } else {
      forall i | 0 <= i <= |dir| ensures IsDir(fs, [] + dir[..i]) {
        Ancestors(fs, dir, i);
        assert [] + dir[..i] == dir[..i];
      }
      assert [] + dir == dir;
      PastFirstSlash(dir);
      WalkThrough(fs, [], dir, [], 0);
    }
  }

  lemma {:induction false} PastFirstSlash(dir: Names)
    requires dir != []
    ensures Join(dir) + [SLASH] != [] && (Join(dir) + [SLASH])[1..] == Join(dir)[1..] + ([SLASH] + [])
  {
    hide Join;
    JoinStarts(dir);
  }

  lemma {:induction false} EntersNothing(fs: Nodes, dir: Names)
    requires AllNames(dir) && IsDir(fs, dir)
    ensures Enter(fs, Known(dir), []) == Success(Known(dir) + [Comp([], false)])
    ensures Assemble(Known(dir) + [Comp([], false)]) == Join(dir) + [SLASH]
  {
    hide Join, NamesIn;
    var comps := Known(dir) + [Comp([], false)];
    assert NamesOf(comps) == dir + [[]];
    JoinAppend(dir, [[]]);
    JoinOne([]);
    assert [SLASH] + [] == [SLASH];
    NamesOfJoinSlash(dir);
    PlacePlainly(fs, Join(dir) + [SLASH], dir);
    assert !AnyHypothetical(Known(dir));
  }

  ghost predicate ShortName(name: Text) {
    IsName(name) && NulFree(name) && |name| < 50
  }

  lemma ShortPaths(name: Text, file: Text)
    requires ShortName(name) && ShortName(file)
    ensures Storable(Rel([name])) && Storable(Rel([name, file]))
  {
    JoinOne(name);
    JoinOne(file);
    assert [name] + [file] == [name, file];
    JoinAppend([name], [file]);
    assert Rel([name, file]) == name + [SLASH] + file;
  }

  lemma SmallTreeIsGood(name: Text, file: Text, data: Text)
    requires ShortName(name) && ShortName(file) && |data| < TWO_TO_32
    ensures GoodTree([name], Folder([Child(file, Leaf(data))]))
  {
    hide Rel, Storable;
    ShortPaths(name, file);
    assert [name] + [file] == [name, file];
    assert GoodTree([name, file], Leaf(data));
  }

  /** The theorem at work: a directory with one file, archived from "/", comes out below
      an empty directory. */
  lemma SmallTreeExtracts(name: Text, file: Text, target: Text, data: Text, clock: nat -> Env, more: Text)
    returns (fs: Nodes, fs': Nodes)
    requires ShortName(name) && ShortName(file) && ShortName(target) && |data| < TWO_TO_32
    ensures fs == map[[] := Dir, [target] := Dir]
    ensures fs' == fs[[target, name] := Dir][[target, name, file] := File(data)]
    ensures var todo := [Todo([SLASH] + name, Folder([Child(file, Leaf(data))]))];
            QueueReady(todo, 1) &&
            ExtractedFrom(Emit(todo, 1, true), clock, more, fs, [SLASH], Join([target]), false) == Success(fs')
  {
    hide GoodTree, Storable, Emit, ExtractedFrom, Join, ShortName, EmptyTarget, Depth;
    var basePath, tree, dir := [SLASH] + name, Folder([Child(file, Leaf(data))]), [target];
    fs := map[[] := Dir, dir := Dir];
    SmallTreeIsGood(name, file, data);
    NameAfterSlash(name);
    assert IsName(target) && IsName(name) && IsName(file) by {
      NamesShort(target);
      NamesShort(name);
      NamesShort(file);
    }
    SmallTarget(fs, target);
    SmallDepth(file, data);
    fs' := ArchiveThenExtract(basePath, tree, clock, more, fs, [SLASH], Join(dir), dir, false);
    SmallResult(fs, fs', name, file, target, data);
  }

  lemma SmallTarget(fs: Nodes, target: Text)
    requires IsName(target) && fs == map[[] := Dir, [target] := Dir]
    ensures EmptyTarget(fs, [SLASH], Join([target]), [target])
  {
    hide Resolved, Join;
    assert Parent([target]) == [];
    JoinStarts([target]);
    ExistingTarget(fs, [SLASH], Join([target]), [target]);
  }

  lemma SmallDepth(file: Text, data: Text)
    ensures Depth(Folder([Child(file, Leaf(data))])) == 2
  {
    var c := Child(file, Leaf(data));
    assert [c][1..] == [] && Depth(c.tree) == 1;
    assert DepthOf([c]) == 1;
  }

  lemma NamesShort(name: Text)
    requires ShortName(name)
    ensures IsName(name)
  {
  }

  lemma {:induction false} NameAfterSlash(name: Text)
    requires ShortName(name)
    ensures LastSlash([SLASH] + name) == 1 && BaseName([SLASH] + name) == name
  {
    var path := [SLASH] + name;
    assert path[0] == SLASH && forall i :: 1 <= i < |path| ==> path[i] == name[i - 1] && name[i - 1] in name;
    assert path[0..] == path;
  }

  lemma SmallResult(fs: Nodes, fs': Nodes, name: Text, file: Text, target: Text, data: Text)
    requires fs == map[[] := Dir, [target] := Dir]
    requires forall q ::
                Get(fs', q)
                == if [target] + [name] <= q then At(Folder([Child(file, Leaf(data))]), q[2..]) else Get(fs, q)
    ensures fs' == fs[[target, name] := Dir][[target, name, file] := File(data)]
  {
    var tree, want := Folder([Child(file, Leaf(data))]), fs[[target, name] := Dir][[target, name, file] := File(data)];
    forall q ensures Get(fs', q) == Get(want, q) {
      if [target] + [name] <= q {
        var rel := q[2..];
        assert q == [target, name] + rel;
        SmallAt(file, data, rel);
        if rel == [] {
          assert q == [target, name];
        } else if rel == [file] {
          assert q == [target, name, file];
        }
      } else {
        assert [target] + [name] <= [target, name] && [target] + [name] <= [target, name, file];
      }
    }
    assert forall q :: q in fs' <==> Get(fs', q).Some?;
    assert forall q :: q in want <==> Get(want, q).Some?;
  }

  lemma {:induction false} SmallAt(file: Text, data: Text, rel: Names)
    ensures At(Folder([Child(file, Leaf(data))]), rel) ==
            if rel == [] then Some(Dir) else if rel == [file] then Some(File(data)) else None
  {
    var children := [Child(file, Leaf(data))];
    if rel != [] {
      assert children[1..] == [];
      assert Find(children, rel[0]) == if rel[0] == file then Some(Leaf(data)) else None;
      assert rel == [rel[0]] + rel[1..];
    }
  }
}
