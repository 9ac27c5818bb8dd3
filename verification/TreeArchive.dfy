/** Archiving a directory tree breadth first. */
module TreeArchive {
  import opened Bytes
  import opened TarHeader
  import opened TarStream
  import opened TarRoundTrip

  /* ---- the archiver ---- */

  /** What lies on the disk being archived, in the order of directory listings.
      Nodes that are neither directories, regular files nor links are Special. */
  datatype Tree = Leaf(data: Text) | Folder(children: seq<Child>) | Special
  datatype Child = Child(name: Text, tree: Tree)

  /** A directory waiting in the archiver's queue. */
  datatype Todo = Todo(path: Text, tree: Tree)

  function LastSlash(path: Text): (k: nat)
    ensures k <= |path| && SLASH !in path[k..]
    ensures k > 0 ==> path[k - 1] == SLASH
  {
    if path == [] then 0
    else if path[|path| - 1] == SLASH then |path|
    else LastSlash(path[..|path| - 1])
  }

  function PrefixLength(basePath: Text, stripPrefix: bool): (k: nat)
    ensures k <= |basePath|
  {
    if stripPrefix then LastSlash(basePath) else 0
  }

  function CleanPath(path: Text, prefixLen: nat, stripPrefix: bool): (r: Text)
    requires prefixLen <= |path|
  {
    if stripPrefix then path[prefixLen..]
    else if path != [] && path[0] == SLASH then path[1..]
    else path
  }

  function ChildPath(dir: Text, name: Text): (r: Text) {
    dir + [SLASH] + name
  }

  /** The entries appended while one directory is listed. */
  function FilesIn(dir: Text, children: seq<Child>, prefixLen: nat, stripPrefix: bool): (r: seq<Entry>)
    requires prefixLen <= |dir|
  {
    if children == [] then []
    else
      var c := children[0];
      (if c.tree.Leaf? then [FileEntry(CleanPath(ChildPath(dir, c.name), prefixLen, stripPrefix), c.tree.data)] else [])
      + FilesIn(dir, children[1..], prefixLen, stripPrefix)
  }

  /** The directories queued while one directory is listed. */
  function FoldersIn(dir: Text, children: seq<Child>): (todo: seq<Todo>)
    ensures forall d <- todo :: d.tree.Folder? && |dir| <= |d.path|
  {
    if children == [] then []
    else
      var c := children[0];
      (if c.tree.Folder? then [Todo(ChildPath(dir, c.name), c.tree)] else []) + FoldersIn(dir, children[1..])
  }

  function Weight(t: Tree): (w: nat)
    ensures w > 0
  {
    if t.Folder? then 1 + WeightOf(t.children) else 1
  }

  function WeightOf(children: seq<Child>): (r: nat) {
    if children == [] then 0 else Weight(children[0].tree) + WeightOf(children[1..])
  }

  function QueueWeight(todo: seq<Todo>): (r: nat) {
    if todo == [] then 0 else Weight(todo[0].tree) + QueueWeight(todo[1..])
  }

  lemma {:induction false} QueueWeightAppend(a: seq<Todo>, b: seq<Todo>)
    ensures QueueWeight(a + b) == QueueWeight(a) + QueueWeight(b)
  {
    if a == [] {
      assert a + b == b;
    } else {
      assert (a + b)[1..] == a[1..] + b;
      QueueWeightAppend(a[1..], b);
    }
  }

  lemma {:induction false} FoldersWeigh(dir: Text, children: seq<Child>)
    ensures QueueWeight(FoldersIn(dir, children)) <= WeightOf(children)
  {
    if children != [] {
      var c := children[0];
      var first := if c.tree.Folder? then [Todo(ChildPath(dir, c.name), c.tree)] else [];
      FoldersWeigh(dir, children[1..]);
      QueueWeightAppend(first, FoldersIn(dir, children[1..]));
      if c.tree.Folder? {
        assert first[1..] == [];
      }
    }
  }

  ghost predicate QueueReady(todo: seq<Todo>, prefixLen: nat) {
    forall d <- todo :: d.tree.Folder? && prefixLen <= |d.path|
  }

  function NextQueue(todo: seq<Todo>): (next: seq<Todo>)
    requires todo != [] && todo[0].tree.Folder?
    ensures QueueWeight(next) < QueueWeight(todo)
  {
    var folders := FoldersIn(todo[0].path, todo[0].tree.children);
    FoldersWeigh(todo[0].path, todo[0].tree.children);
    QueueWeightAppend(todo[1..], folders);
    todo[1..] + folders
  }

  lemma NextReady(todo: seq<Todo>, prefixLen: nat)
    requires todo != [] && QueueReady(todo, prefixLen)
    ensures todo[0].tree.Folder? && prefixLen <= |todo[0].path| && QueueReady(NextQueue(todo), prefixLen)
  {
  }

  /** Everything appended from a queue of directories on. */
  ghost function Emit(todo: seq<Todo>, prefixLen: nat, stripPrefix: bool): (r: seq<Entry>)
    requires QueueReady(todo, prefixLen)
    decreases QueueWeight(todo)
  {
    if todo == [] then []
    else
      NextReady(todo, prefixLen);
      var d := todo[0];
      [DirEntry(CleanPath(d.path, prefixLen, stripPrefix))]
      + FilesIn(d.path, d.tree.children, prefixLen, stripPrefix)
      + Emit(NextQueue(todo), prefixLen, stripPrefix)
  }

  /** Entries and the surroundings of each append. */
  ghost function Stamp(entries: seq<Entry>, clock: nat -> Env): (items: seq<Item>)
    ensures |items| == |entries|
    ensures forall i :: 0 <= i < |items| ==> items[i] == Item(entries[i], clock(i))
  {
    seq(|entries|, i requires 0 <= i < |entries| => Item(entries[i], clock(i)))
  }

  lemma {:induction false} ArchiveAppend(a: seq<Item>, b: seq<Item>)
    ensures Archive(a + b) == Archive(a) + Archive(b)
  {
    hide BytesOf;
    if a == [] {
      assert a + b == b;
    } else {
      assert (a + b)[1..] == a[1..] + b;
      ArchiveAppend(a[1..], b);
    }
  }

  lemma StampPush(entries: seq<Entry>, e: Entry, clock: nat -> Env)
    ensures Archive(Stamp(entries + [e], clock)) == Archive(Stamp(entries, clock)) + BytesOf(Item(e, clock(|entries|)))
  {
    hide BytesOf;
    var one := [Item(e, clock(|entries|))];
    assert Stamp(entries + [e], clock) == Stamp(entries, clock) + one;
    ArchiveAppend(Stamp(entries, clock), one);
    assert one[1..] == [];
  }

  datatype ArchiveError = NotADirectory | Unstorable(error: Error)

  /** The stream grew by exactly these entries, none of which the writer refused. */
  ghost predicate Wrote(before: Text, after: Text, entries: seq<Entry>, clock: nat -> Env) {
    after == before + Archive(Stamp(entries, clock)) && Accepted(entries, clock)
  }

  ghost predicate Accepted(entries: seq<Entry>, clock: nat -> Env) {
    forall i :: 0 <= i < |entries| ==> EntryBytes(entries[i], clock(i)).Success?
  }

  /** The stream grew by the entries before the first one that the writer refused. */
  ghost predicate Stopped(before: Text, after: Text, entries: seq<Entry>, clock: nat -> Env, error: Error) {
    exists k: nat :: StoppedAt(before, after, entries, clock, k, error)
  }

  ghost predicate StoppedAt(before: Text, after: Text, entries: seq<Entry>, clock: nat -> Env, k: nat, error: Error) {
    && k < |entries| && Wrote(before, after, entries[..k], clock)
    && EntryBytes(entries[k], clock(k)) == Failure(error)
  }

  lemma StopsHere(before: Text, after: Text, entries: seq<Entry>, e: Entry, more: seq<Entry>, clock: nat -> Env,
                  error: Error)
    requires Wrote(before, after, entries, clock) && EntryBytes(e, clock(|entries|)) == Failure(error)
    ensures Stopped(before, after, entries + [e] + more, clock, error)
  {
    hide Wrote, EntryBytes;
    var all := entries + [e] + more;
    assert all[..|entries|] == entries && all[|entries|] == e;
    assert StoppedAt(before, after, all, clock, |entries|, error);
  }

  lemma StopsEarlier(before: Text, after: Text, entries: seq<Entry>, more: seq<Entry>, clock: nat -> Env, error: Error)
    requires Stopped(before, after, entries, clock, error)
    ensures Stopped(before, after, entries + more, clock, error)
  {
    hide Wrote, EntryBytes;
    var k: nat :| StoppedAt(before, after, entries, clock, k, error);
    assert (entries + more)[..k] == entries[..k];
    assert StoppedAt(before, after, entries + more, clock, k, error);
  }

  /** Stopping and writing everything exclude each other. */
  lemma StoppedMeansRefused(before: Text, after: Text, entries: seq<Entry>, clock: nat -> Env, error: Error)
    requires Stopped(before, after, entries, clock, error)
    ensures !Accepted(entries, clock)
  {
    hide EntryBytes, Wrote;
    var k: nat :| StoppedAt(before, after, entries, clock, k, error);
    assert EntryBytes(entries[k], clock(k)).Failure?;
  }

  lemma WroteMeansAccepted(before: Text, after: Text, entries: seq<Entry>, clock: nat -> Env)
    requires Wrote(before, after, entries, clock)
    ensures Accepted(entries, clock)
  {
  }

  lemma WroteOne(before: Text, mid: Text, after: Text, entries: seq<Entry>, e: Entry, clock: nat -> Env,
                 done: Result<(), Error>)
    requires Wrote(before, mid, entries, clock) && Appended(e, clock(|entries|), mid, after, done) && done.Success?
    ensures Wrote(before, after, entries + [e], clock)
  {
    hide EntryBytes, Stamp;
    StampPush(entries, e, clock);
  }

  /** One regular file of a listing. */
  method ArchiveFile(path: Text, data: Text, writer: TarWriter, prefixLen: nat, stripPrefix: bool, clock: nat -> Env,
                     n: nat, ghost start: Text, ghost written: seq<Entry>)
    returns (r: Result<(), ArchiveError>)
    requires !writer.ended && prefixLen <= |path| && n == |written|
    requires Wrote(start, writer.sink, written, clock)
    modifies writer
    ensures !writer.ended
    ensures r.Success? ==>
              Wrote(start, writer.sink, written + [FileEntry(CleanPath(path, prefixLen, stripPrefix), data)], clock)
    ensures r.Failure? ==> r.error.Unstorable?
    ensures r.Failure? ==> Wrote(start, writer.sink, written, clock)
    ensures r.Failure? ==>
              EntryBytes(FileEntry(CleanPath(path, prefixLen, stripPrefix), data), clock(n)) == Failure(r.error.error)
  {
    hide EntryBytes, CleanPath, Wrote;
    var name := CleanPath(path, prefixLen, stripPrefix);
    ghost var before := writer.sink;
    var done := writer.AppendFile(name, data, clock(n));
    if done.Failure? {
      return Failure(Unstorable(done.error));
    }
    WroteOne(start, before, writer.sink, written, FileEntry(name, data), clock, done);
    r := Success(());
  }

  /** Lists one directory: appends its files and returns its directories. */
  method ListDirectory(d: Todo, writer: TarWriter, prefixLen: nat, stripPrefix: bool, clock: nat -> Env, n: nat,
                       ghost start: Text, ghost written: seq<Entry>)
    returns (r: Result<seq<Todo>, ArchiveError>, n': nat)
    requires !writer.ended && d.tree.Folder? && prefixLen <= |d.path| && n == |written|
    requires Wrote(start, writer.sink, written, clock)
    modifies writer
    ensures !writer.ended
    ensures r.Success? ==> r.value == FoldersIn(d.path, d.tree.children)
    ensures r.Success? ==>
              var now := written + FilesIn(d.path, d.tree.children, prefixLen, stripPrefix);
              n' == |now| && Wrote(start, writer.sink, now, clock)
    ensures r.Failure? ==> r.error.Unstorable?
    ensures r.Failure? ==>
              Stopped(start, writer.sink, written + FilesIn(d.path, d.tree.children, prefixLen, stripPrefix), clock,
                      r.error.error)
  {
    hide CleanPath, ChildPath, Wrote, Stopped, EntryBytes, FilesIn, FoldersIn;
    var todo: seq<Todo> := [];
    ghost var now := written;
    n' := n;
    var children := d.tree.children;
    assert children[0..] == children;
    for i := 0 to |children|
      invariant !writer.ended && n' == |now|
      invariant todo + FoldersIn(d.path, children[i..]) == FoldersIn(d.path, children)
      invariant now + FilesIn(d.path, children[i..], prefixLen, stripPrefix)
                == written + FilesIn(d.path, children, prefixLen, stripPrefix)
      invariant Wrote(start, writer.sink, now, clock)
    {
      var c := children[i];
      ghost var rest := FilesIn(d.path, children[i + 1..], prefixLen, stripPrefix);
      ListingStep(d.path, children, i, prefixLen, stripPrefix);
      match c.tree
      case Folder(_) =>
        todo := todo + [Todo(ChildPath(d.path, c.name), c.tree)];
      case Leaf(data) =>
        LongerPath(d.path, c.name);
        var path := ChildPath(d.path, c.name);
        ghost var e := FileEntry(CleanPath(path, prefixLen, stripPrefix), data);
        ghost var total := written + FilesIn(d.path, children, prefixLen, stripPrefix);
        assert now + [e] + rest == total by { Regrouped(now, [e], rest); }
        var done := ArchiveFile(path, data, writer, prefixLen, stripPrefix, clock, n', start, now);
        if done.Failure? {
          StopsHere(start, writer.sink, now, e, rest, clock, done.error.error);
          r := Failure(done.error);
          return;
        }
        now, n' := now + [e], n' + 1;
      case Special =>
    }
    NothingListed(d.path, prefixLen, stripPrefix);
    assert children[|children|..] == [] && now + [] == now && todo + [] == todo;
    r := Success(todo);
  }

  lemma Regrouped(a: seq<Entry>, b: seq<Entry>, c: seq<Entry>)
    ensures a + b + c == a + (b + c)
  {
  }

  lemma {:induction false} NothingListed(dir: Text, prefixLen: nat, stripPrefix: bool)
    requires prefixLen <= |dir|
    ensures FilesIn(dir, [], prefixLen, stripPrefix) == [] && FoldersIn(dir, []) == []
  {
  }

  /** What one child adds to the entries or to the directories waiting. */
  lemma {:induction false} ListingStep(dir: Text, children: seq<Child>, i: nat, prefixLen: nat, stripPrefix: bool)
    requires i < |children| && prefixLen <= |dir|
    ensures prefixLen <= |ChildPath(dir, children[i].name)|
    ensures var c := children[i];
            var path, files := ChildPath(dir, c.name), FilesIn(dir, children[i + 1..], prefixLen, stripPrefix);
            FilesIn(dir, children[i..], prefixLen, stripPrefix) ==
            if c.tree.Leaf? then [FileEntry(CleanPath(path, prefixLen, stripPrefix), c.tree.data)] + files else files
    ensures var c, folders := children[i], FoldersIn(dir, children[i + 1..]);
            FoldersIn(dir, children[i..]) ==
            if c.tree.Folder? then [Todo(ChildPath(dir, c.name), c.tree)] + folders else folders
  {
    hide CleanPath, ChildPath;
    LongerPath(dir, children[i].name);
    assert children[i..][0] == children[i] && children[i..][1..] == children[i + 1..];
  }

  lemma {:induction false} EmitStep(written: seq<Entry>, todo: seq<Todo>, prefixLen: nat, stripPrefix: bool)
    requires todo != [] && QueueReady(todo, prefixLen)
    ensures todo[0].tree.Folder? && prefixLen <= |todo[0].path| && QueueReady(NextQueue(todo), prefixLen)
    ensures QueueWeight(NextQueue(todo)) < QueueWeight(todo)
    ensures var d := todo[0];
            written + Emit(todo, prefixLen, stripPrefix) ==
            written + [DirEntry(CleanPath(d.path, prefixLen, stripPrefix))]
            + FilesIn(d.path, d.tree.children, prefixLen, stripPrefix)
            + Emit(NextQueue(todo), prefixLen, stripPrefix)
  {
    hide CleanPath, FilesIn, NextQueue;
    NextReady(todo, prefixLen);
  }

  method RecursivelyArchive(basePath: Text, tree: Tree, writer: TarWriter, stripPrefix: bool, clock: nat -> Env)
    returns (r: Result<(), ArchiveError>)
    requires !writer.ended
    modifies writer
    ensures !writer.ended
    ensures r == Failure(NotADirectory) <==> !tree.Folder?
    ensures tree.Folder? ==> QueueReady([Todo(basePath, tree)], PrefixLength(basePath, stripPrefix))
    ensures r.Success? ==>
              Wrote(old(writer.sink), writer.sink,
                    Emit([Todo(basePath, tree)], PrefixLength(basePath, stripPrefix), stripPrefix), clock)
    ensures r.Success? <==>
            tree.Folder?
            && Accepted(Emit([Todo(basePath, tree)], PrefixLength(basePath, stripPrefix), stripPrefix), clock)
    ensures r.Failure? && tree.Folder? ==>
              Stopped(old(writer.sink), writer.sink,
                      Emit([Todo(basePath, tree)], PrefixLength(basePath, stripPrefix), stripPrefix), clock,
                      r.error.error)
    ensures r == Failure(NotADirectory) ==> writer.sink == old(writer.sink)
  {
    hide EntryBytes, CleanPath, FilesIn, FoldersIn, Wrote, Stopped, Accepted, Emit, QueueWeight;
    if !tree.Folder? {
      return Failure(NotADirectory);
    }
    var prefixLen := PrefixLength(basePath, stripPrefix);
    var todo := [Todo(basePath, tree)];
    ghost var all := Emit(todo, prefixLen, stripPrefix);
    ghost var written: seq<Entry> := [];
    var count := 0;
    NothingWritten(writer.sink, clock);
    while todo != []
      invariant QueueReady(todo, prefixLen) && !writer.ended && count == |written|
      invariant all == written + Emit(todo, prefixLen, stripPrefix)
      invariant Wrote(old(writer.sink), writer.sink, written, clock)
      decreases QueueWeight(todo)
    {
      EmitStep(written, todo, prefixLen, stripPrefix);
      var d := todo[0];
      ghost var before := writer.sink;
      ghost var dirEntry := DirEntry(CleanPath(d.path, prefixLen, stripPrefix));
      var done := writer.AppendDirectory(CleanPath(d.path, prefixLen, stripPrefix), clock(count));
      ghost var files := FilesIn(d.path, d.tree.children, prefixLen, stripPrefix);
      ghost var later := Emit(NextQueue(todo), prefixLen, stripPrefix);
      if done.Failure? {
        assert all == written + [dirEntry] + (files + later);
        StopsHere(old(writer.sink), writer.sink, written, dirEntry, files + later, clock, done.error);
        StoppedMeansRefused(old(writer.sink), writer.sink, all, clock, done.error);
        return Failure(Unstorable(done.error));
      }
      WroteOne(old(writer.sink), before, writer.sink, written, dirEntry, clock, done);
      written, count := written + [dirEntry], count + 1;
      var folders;
      folders, count := ListDirectory(d, writer, prefixLen, stripPrefix, clock, count, old(writer.sink), written);
      if folders.Failure? {
        StopsEarlier(old(writer.sink), writer.sink, written + files, later, clock, folders.error.error);
        StoppedMeansRefused(old(writer.sink), writer.sink, all, clock, folders.error.error);
        return Failure(folders.error);
      }
      written := written + files;
      ghost var next := NextQueue(todo);
      todo := todo[1..] + folders.value;
      assert todo == next;
    }
    EmitNothing(prefixLen, stripPrefix);
    assert written + [] == written;
    WroteMeansAccepted(old(writer.sink), writer.sink, written, clock);
    r := Success(());
  }

  lemma {:induction false} EmitNothing(prefixLen: nat, stripPrefix: bool)
    ensures QueueReady([], prefixLen) && Emit([], prefixLen, stripPrefix) == []
  {
  }

  lemma LongerPath(dir: Text, name: Text)
    ensures |ChildPath(dir, name)| >= |dir|
  {
  }

  lemma NothingWritten(sink: Text, clock: nat -> Env)
    ensures Wrote(sink, sink, [], clock)
  {
    assert Stamp([], clock) == [];
    assert sink + [] == sink;
  }
}
