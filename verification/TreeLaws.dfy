/** The order in which a tree is archived, and what is left of the reader after extracting. */
module TreeLaws {
  import opened Bytes
  import opened TarStream
  import opened TarRoundTrip
  import opened FileTree
  import opened Extraction
  import opened TreeArchive
  import opened TreeRoundTrip

  /* ---- the order of the entries ---- */

  /** The directories in order, each followed by the files directly in it. */
  ghost function Level(todo: seq<Todo>, prefixLen: nat, stripPrefix: bool): (r: seq<Entry>)
    requires QueueReady(todo, prefixLen)
  {
    if todo == [] then []
    else
      NextReady(todo, prefixLen);
      [DirEntry(CleanPath(todo[0].path, prefixLen, stripPrefix))]
      + FilesIn(todo[0].path, todo[0].tree.children, prefixLen, stripPrefix)
      + Level(todo[1..], prefixLen, stripPrefix)
  }

  /** The directories directly in them, in order. */
  ghost function Below(todo: seq<Todo>): (r: seq<Todo>)
    requires forall d <- todo :: d.tree.Folder?
    ensures forall d <- r :: d.tree.Folder?
  {
    if todo == [] then []
    else
      assert todo[0] in todo;
      FoldersIn(todo[0].path, todo[0].tree.children) + Below(todo[1..])
  }

  lemma {:induction false} BelowReady(todo: seq<Todo>, prefixLen: nat)
    requires QueueReady(todo, prefixLen)
    ensures QueueReady(Below(todo), prefixLen)
  {
    if todo != [] {
      assert todo[0] in todo;
      BelowReady(todo[1..], prefixLen);
    }
  }

  lemma ReadyTogether(a: seq<Todo>, b: seq<Todo>, prefixLen: nat)
    requires QueueReady(a, prefixLen) && QueueReady(b, prefixLen)
    ensures QueueReady(a + b, prefixLen)
  {
  }

  lemma {:induction false} EmitOnce(todo: seq<Todo>, prefixLen: nat, stripPrefix: bool)
    requires todo != [] && QueueReady(todo, prefixLen)
    ensures todo[0].tree.Folder? && prefixLen <= |todo[0].path| && QueueReady(NextQueue(todo), prefixLen)
    ensures var d := todo[0];
            Emit(todo, prefixLen, stripPrefix) ==
            [DirEntry(CleanPath(d.path, prefixLen, stripPrefix))]
            + FilesIn(d.path, d.tree.children, prefixLen, stripPrefix)
            + Emit(NextQueue(todo), prefixLen, stripPrefix)
  {
    hide CleanPath, FilesIn, NextQueue;
    NextReady(todo, prefixLen);
  }

  lemma {:induction false} LevelFirst(a: seq<Todo>, b: seq<Todo>, prefixLen: nat, stripPrefix: bool)
    requires QueueReady(a, prefixLen) && QueueReady(b, prefixLen)
    ensures QueueReady(a + b, prefixLen) && QueueReady(b + Below(a), prefixLen)
    ensures Emit(a + b, prefixLen, stripPrefix) ==
            Level(a, prefixLen, stripPrefix) + Emit(b + Below(a), prefixLen, stripPrefix)
    decreases |a|
  {
    hide CleanPath, FilesIn, FoldersIn, QueueReady, Emit, QueueWeight;
    ReadyTogether(a, b, prefixLen);
    BelowReady(a, prefixLen);
    ReadyTogether(b, Below(a), prefixLen);
    if a == [] {
      assert a + b == b + Below(a);
    } else {
      NextReady(a, prefixLen);
      EmitOnce(a + b, prefixLen, stripPrefix);
      var folders := FoldersIn(a[0].path, a[0].tree.children);
      ReadyParts(a, folders, prefixLen);
      ReadyTogether(b, folders, prefixLen);
      LevelFirst(a[1..], b + folders, prefixLen, stripPrefix);
      assert NextQueue(a + b) == a[1..] + (b + folders);
      assert b + folders + Below(a[1..]) == b + Below(a);
    }
  }

  lemma ReadyParts(a: seq<Todo>, folders: seq<Todo>, prefixLen: nat)
    requires a != [] && QueueReady(a, prefixLen)
    requires a[0].tree.Folder? && folders == FoldersIn(a[0].path, a[0].tree.children)
    ensures QueueReady(a[1..], prefixLen) && QueueReady(folders, prefixLen)
  {
    assert a[0] in a;
  }

  /** A tree is archived level by level: all directories of one depth with their files come
      before any deeper directory. */
  lemma {:induction false} LevelByLevel(todo: seq<Todo>, prefixLen: nat, stripPrefix: bool)
    requires QueueReady(todo, prefixLen)
    ensures QueueReady(Below(todo), prefixLen)
    ensures Emit(todo, prefixLen, stripPrefix) ==
            Level(todo, prefixLen, stripPrefix) + Emit(Below(todo), prefixLen, stripPrefix)
  {
    hide Level, Emit, Below;
    assert QueueReady([], prefixLen) by { EmitNothing(prefixLen, stripPrefix); }
    LevelFirst(todo, [], prefixLen, stripPrefix);
    assert todo + [] == todo && [] + Below(todo) == Below(todo);
  }

  function OneFile(dir: Text, c: Child, prefixLen: nat, stripPrefix: bool): (r: seq<Entry>)
    requires prefixLen <= |dir|
  {
    if c.tree.Leaf? then [FileEntry(CleanPath(dir + [47] + c.name, prefixLen, stripPrefix), c.tree.data)] else []
  }

  function OneFolder(dir: Text, c: Child): (r: seq<Todo>) {
    if c.tree.Folder? then [Todo(dir + [47] + c.name, c.tree)] else []
  }

  lemma {:induction false} FirstListed(dir: Text, c: Child, rest: seq<Child>, all: seq<Child>, prefixLen: nat,
                                       stripPrefix: bool)
    requires prefixLen <= |dir| && all == [c] + rest
    ensures FilesIn(dir, all, prefixLen, stripPrefix) ==
            OneFile(dir, c, prefixLen, stripPrefix) + FilesIn(dir, rest, prefixLen, stripPrefix)
    ensures FoldersIn(dir, all) == OneFolder(dir, c) + FoldersIn(dir, rest)
  {
    hide CleanPath;
    assert all[1..] == rest;
  }

  /** Files and directories are taken in the order of the listing, each by itself; what is
      neither is passed over. */
  lemma {:induction false} ListingOrder(dir: Text, a: seq<Child>, c: Child, prefixLen: nat, stripPrefix: bool)
    requires prefixLen <= |dir|
    ensures FilesIn(dir, a + [c], prefixLen, stripPrefix) ==
            FilesIn(dir, a, prefixLen, stripPrefix) + OneFile(dir, c, prefixLen, stripPrefix)
    ensures FoldersIn(dir, a + [c]) == FoldersIn(dir, a) + OneFolder(dir, c)
    decreases |a|
  {
    hide FilesIn, FoldersIn, OneFile, OneFolder;
    NothingListed(dir, prefixLen, stripPrefix);
    if a == [] {
      FirstListed(dir, c, [], a + [c], prefixLen, stripPrefix);
    } else {
      ListingOrder(dir, a[1..], c, prefixLen, stripPrefix);
      FirstListed(dir, a[0], a[1..], a, prefixLen, stripPrefix);
      FirstListed(dir, a[0], a[1..] + [c], a + [c], prefixLen, stripPrefix);
    }
  }

  /* ---- the reader afterwards ---- */

  /** The records that stay with the reader: those that were placed, unless they are
      dropped, and the one that could not be placed. */
  ghost function Left(files: map<Text, Record>, placed: seq<Item>, stuck: seq<Item>, drop: bool)
    : (r: map<Text, Record>)
  {
    WithFiles(if drop then files else WithFiles(files, placed), stuck)
  }

  /** Where extraction ends: behind the footer when everything was placed, and otherwise
      just behind the first entry that could not be placed. */
  ghost predicate EndsAt(items: seq<Item>, k: nat, more: Text, st: State, fs: Nodes, cwd: Text, truePrefix: Text,
                         drop: bool, x: Extracted)
    requires k <= |items|
  {
    && PlaceAll(EntriesOf(items[..k]), fs, cwd, truePrefix).Success?
    && if k == |items| then
         x.result.Success? && x.state == State(more, false, Left(st.files, items, [], drop), true)
       else
         && x.result.Failure?
         && x.state == State(Archive(items[k + 1..]) + (FOOTER + more), false,
                             Left(st.files, items[..k], [items[k]], drop), false)
  }

  lemma {:induction false} LeftNothing(files: map<Text, Record>, drop: bool)
    ensures Left(files, [], [], drop) == files
  {
  }

  lemma {:induction false} LeftAtOnce(files: map<Text, Record>, item: Item, drop: bool)
    ensures Left(files, [], [item], drop) == files[item.entry.path := RecordOf(item.entry)]
  {
    hide RecordOf;
    assert [item][1..] == [];
    LeftNothing(files, drop);
    LeftNothing(files[item.entry.path := RecordOf(item.entry)], drop);
  }

  lemma {:induction false} LeftLater(files: map<Text, Record>, files': map<Text, Record>, item: Item, placed: seq<Item>,
                                     stuck: seq<Item>, drop: bool)
    requires files' == if drop then files else files[item.entry.path := RecordOf(item.entry)]
    ensures Left(files', placed, stuck, drop) == Left(files, [item] + placed, stuck, drop)
  {
    hide RecordOf;
    assert ([item] + placed)[1..] == placed;
  }

  lemma {:induction false} PlacedFirst(items: seq<Item>, fs: Nodes, fs': Nodes, cwd: Text, truePrefix: Text, k: nat)
    requires items != [] && k < |items|
    requires ExtractOne(fs, cwd, truePrefix, items[0].entry.path, RecordOf(items[0].entry)) == Success(fs')
    ensures items[..k + 1] == [items[0]] + items[1..][..k]
    ensures PlaceAll(EntriesOf(items[..k + 1]), fs, cwd, truePrefix) ==
            PlaceAll(EntriesOf(items[1..][..k]), fs', cwd, truePrefix)
  {
    hide ExtractOne, RecordOf;
    var entries := EntriesOf(items[..k + 1]);
    assert entries[0] == items[0].entry && entries[1..] == EntriesOf(items[1..][..k]);
  }

  lemma EndsLater(items: seq<Item>, k: nat, more: Text, st: State, st': State, fs: Nodes, fs': Nodes, cwd: Text,
                  truePrefix: Text, drop: bool, x: Extracted)
    requires items != [] && k < |items|
    requires ExtractOne(fs, cwd, truePrefix, items[0].entry.path, RecordOf(items[0].entry)) == Success(fs')
    requires st'.files == if drop then st.files else st.files[items[0].entry.path := RecordOf(items[0].entry)]
    requires EndsAt(items[1..], k, more, st', fs', cwd, truePrefix, drop, x)
    ensures EndsAt(items, k + 1, more, st, fs, cwd, truePrefix, drop, x)
  {
    hide ExtractOne, RecordOf, Left, PlaceAll, Archive;
    PlacedFirst(items, fs, fs', cwd, truePrefix, k);
    if k < |items| - 1 {
      assert items[1..][k] == items[k + 1] && items[1..][k + 1..] == items[k + 2..];
      LeftLater(st.files, st'.files, items[0], items[1..][..k], [items[k + 1]], drop);
    } else {
      LeftLater(st.files, st'.files, items[0], items[1..], [], drop);
      assert [items[0]] + items[1..] == items;
      assert items[..k + 1] == items;
    }
  }

  lemma {:induction false} ReaderAfterwards(items: seq<Item>, more: Text, st: State, fs: Nodes, cwd: Text,
                                            truePrefix: Text, drop: bool) returns (k: nat)
    requires GoodArchive(items) && !st.srcEof && !st.ended
    requires st.src == Archive(items) + (FOOTER + more)
    requires forall item <- items :: item.entry.path !in st.files
    ensures k <= |items|
    ensures EndsAt(items, k, more, st, fs, cwd, truePrefix, drop, ExtractAll(st, fs, cwd, truePrefix, drop))
    decreases |items|
  {
    hide BytesOf, ReadUpTo, ExtractOne, RecordOf;
    if items == [] {
      k := 0;
      assert st.src == FOOTER + more;
      FooterEndsReading(more, st, []);
      assert ReadUpTo(st, []) == ReadFrom(st, [], 0) by { ReadUpToIs(st); }
      LeftNothing(st.files, drop);
    } else {
      var item, rest := items[0], Archive(items[1..]) + (FOOTER + more);
      assert GoodItem(item);
      assert st.src == BytesOf(item) + rest;
      ReadsFirst(item, rest, st);
      var e := item.entry;
      var read := st.(src := rest, files := st.files[e.path := RecordOf(e)]);
      var x := ExtractOne(fs, cwd, truePrefix, e.path, RecordOf(e));
      if x.Success? {
        var st' := Dropped(read, e.path, drop);
        forall other <- items[1..] ensures other.entry.path !in st'.files {
          var j :| 0 <= j < |items[1..]| && items[1..][j] == other;
          assert items[j + 1] == other;
        }
        var k' := ReaderAfterwards(items[1..], more, st', x.value, cwd, truePrefix, drop);
        k := k' + 1;
        assert !drop || st'.files == st.files;
        EndsLater(items, k', more, st, st', fs, x.value, cwd, truePrefix, drop,
                  ExtractAll(st', x.value, cwd, truePrefix, drop));
      } else {
        k := 0;
        LeftAtOnce(st.files, item, drop);
        assert items[..0] == [];
      }
    }
  }
}
