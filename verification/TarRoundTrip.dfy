/** What the writer puts into a stream, the reader takes out of it: in order, and
    on demand by name. */
module TarRoundTrip {
  import opened Bytes
  import opened TarHeader
  import opened TarHeaderProofs
  import opened TarStream

  /* ---- one entry ---- */

  /** Paths that can be stored, told apart from the end marker "" and read back. */
  ghost predicate Storable(path: Text) {
    path != [] && NulFree(path) && SplitsWell(path)
  }

  ghost predicate Archivable(e: Entry) {
    && Storable(e.path)
    && (e.FileEntry? ==> |e.data| < TWO_TO_32)
    && (e.LinkEntry? ==> NulFree(e.target) && |e.target| <= 99)
  }

  /** The record under which an entry should be found. */
  function RecordOf(e: Entry): (r: Record) {
    match e
    case FileEntry(_, data) => Record(Regular, data, 0x1A4)
    case DirEntry(_) => Record(Directory, [], 0x1A4)
    case LinkEntry(_, target) => Record(SymLink, target, 0x1A4)
  }

  /** An entry and the surroundings in which it was appended. */
  datatype Item = Item(entry: Entry, env: Env)

  ghost predicate GoodItem(item: Item) {
    Archivable(item.entry)
  }

  lemma DescribedParses(h: Text, path: Text, size: nat, kind: Kind, target: Text)
    requires NulFree(path) && SplitsWell(path) && SplitName(path).Success? && size < TWO_TO_32
    requires Describes(h, SplitName(path).value, size, kind) && ChecksumOk(h)
    requires NulFree(target) && |target| <= 99 && Holds(h, LINKNAME, target + Zeros(100 - |target|))
    ensures ParseHeader(h) == Success(Parsed(size, 0x1A4, kind, path, target))
  {
    hide StoredSum, Sum, Unsummed, ScanDigits, ScanNumber, CString, PrintOctal, HeaderName, SplitIndex, ChecksumOk;
    NameRoundTrip(path, h, size, kind);
    SizeReadsBack(h, SplitName(path).value, size, kind);
    LinkReadsBack(h, target);
    KindRoundTrip(kind);
  }

  lemma FilledParses(path: Text, size: nat, kind: Kind, env: Env)
    requires NulFree(path) && SplitsWell(path) && size < TWO_TO_32
    ensures FilledHeader(path, size, kind, env).Success?
    ensures var h := FilledHeader(path, size, kind, env).value;
            !AllZero(h) && ParseHeader(h) == Success(Parsed(size, 0x1A4, kind, path, []))
  {
    var h := FilledHeader(path, size, kind, env).value;
    FilledDescribes(path, size, kind, env);
    SummedIsAccepted(WithType(WithNumbers(WithName(Zeros(SIZE), SplitName(path).value), size, env), kind));
    assert [] + Zeros(100) == Zeros(100);
    DescribedParses(h, path, size, kind, []);
  }

  lemma LinkParses(path: Text, target: Text, env: Env)
    requires NulFree(path) && SplitsWell(path)
    requires NulFree(target) && |target| <= 99
    ensures LinkHeader(path, target, env).Success?
    ensures var h := LinkHeader(path, target, env).value;
            !AllZero(h) && ParseHeader(h) == Success(Parsed(0, 0x1A4, SymLink, path, target))
  {
    var h := LinkHeader(path, target, env).value;
    LinkDescribes(path, target, env);
    SummedIsAccepted(Put(FilledHeader(path, 0, SymLink, env).value, LINKNAME, target));
    DescribedParses(h, path, 0, SymLink, target);
  }

  /** The part of an entry after its header block. */
  function Body(e: Entry): (r: Text) {
    if e.FileEntry? then e.data + Zeros(Padding(|e.data|)) else []
  }

  /** An entry is a header block that announces it, then its data and padding. */
  lemma EntryShape(item: Item) returns (h: Text)
    requires GoodItem(item)
    ensures EntryBytes(item.entry, item.env) == Success(h + Body(item.entry)) && |h| == SIZE && !AllZero(h)
    ensures ParseHeader(h).Success?
    ensures var (e, p) := (item.entry, ParseHeader(h).value);
            && p.name == e.path && p.mode == 0x1A4
            && p.size == (if e.FileEntry? then |e.data| else 0)
            && p.kind == RecordOf(e).kind
            && (e.LinkEntry? ==> p.target == e.target)
  {
    hide ParseHeader, FilledHeader;
    match item.entry
    case FileEntry(path, data) =>
      FilledParses(path, |data|, Regular, item.env);
      h := FilledHeader(path, |data|, Regular, item.env).value;
      assert h + Body(item.entry) == h + data + Zeros(Padding(|data|));
    case DirEntry(path) =>
      FilledParses(path, 0, Directory, item.env);
      h := FilledHeader(path, 0, Directory, item.env).value;
      assert h + [] == h;
    case LinkEntry(path, target) =>
      LinkParses(path, target, item.env);
      h := LinkHeader(path, target, item.env).value;
      assert h + [] == h;
  }

  lemma StoresBody(e: Entry, p: Parsed, st: State, rest: Text)
    requires st.src == Body(e) + rest
    requires p.name == e.path && p.mode == 0x1A4 && p.kind == RecordOf(e).kind
    requires p.size == (if e.FileEntry? then |e.data| else 0)
    requires e.LinkEntry? ==> p.target == e.target
    ensures StoreRecord(p, st) == st.(src := rest, files := Insert(st.files, e.path, RecordOf(e)))
  {
    var n := |Body(e)|;
    assert Drop(st.src, n) == rest;
    if e.FileEntry? {
      assert Take(st.src, |e.data|) == e.data;
    }
  }

  ghost function BytesOf(item: Item): (r: Text)
  {
    match EntryBytes(item.entry, item.env)
    case Success(bytes) => bytes
    case Failure(_) => []
  }

  function AfterReading(st: State, e: Entry, rest: Text): (r: State) {
    st.(src := rest, files := Insert(st.files, e.path, RecordOf(e)))
  }

  /** A reader standing before an entry stores it and moves just past it. */
  lemma {:induction false} EntryReadsBack(item: Item, rest: Text, st: State, target: Text, nEmpty: nat)
    requires GoodItem(item) && !st.srcEof && st.src == BytesOf(item) + rest
    ensures EntryBytes(item.entry, item.env).Success?
    ensures var st' := AfterReading(st, item.entry, rest);
            ReadFrom(st, target, nEmpty) ==
            if item.entry.path == target || target == [] then Outcome(Success(item.entry.path), st')
            else ReadFrom(st', target, 0)
  {
    hide ParseHeader, EntryBytes;
    var h := EntryShape(item);
    assert st.src[..SIZE] == h && st.src[SIZE..] == Body(item.entry) + rest;
    var next := st.(src := st.src[SIZE..]);
    StoresBody(item.entry, ParseHeader(h).value, next, rest);
    assert ReadRecord(h, next) == Outcome(Success(item.entry.path), AfterReading(st, item.entry, rest));
  }

  /** Two empty blocks end the listing, and whatever follows them is not read. */
  lemma {:induction false} FooterEndsReading(more: Text, st: State, target: Text)
    requires !st.srcEof && st.src == FOOTER + more
    ensures ReadFrom(st, target, 0) == Outcome(Success([]), st.(src := more, ended := true))
  {
    var next := st.(src := st.src[SIZE..]);
    assert AllZero(st.src[..SIZE]);
    assert AllZero(next.src[..SIZE]);
    assert next.src[SIZE..] == more;
    assert ReadFrom(next, target, 1) == Outcome(Success([]), st.(src := more, ended := true));
  }

  /* ---- the whole stream, in order ---- */

  ghost function Archive(items: seq<Item>): (r: Text)
  {
    if items == [] then [] else BytesOf(items[0]) + Archive(items[1..])
  }

  ghost predicate Distinct(items: seq<Item>) {
    forall i, j :: 0 <= i < j < |items| ==> items[i].entry.path != items[j].entry.path
  }

  ghost predicate GoodArchive(items: seq<Item>) {
    Distinct(items) && forall item <- items :: GoodItem(item)
  }

  function Listing(items: seq<Item>): (r: seq<(Text, Record)>) {
    seq(|items|, i requires 0 <= i < |items| => (items[i].entry.path, RecordOf(items[i].entry)))
  }

  /** The loop of a caller of nextFile: names until "", each with its record. */
  function ReadAll(st: State): (r: (seq<(Text, Record)>, State))
    decreases |st.src|
  {
    var o := NextStored(st);
    if o.result.Failure? || o.result.value == [] then ([], o.state)
    else
      var (more, last) := ReadAll(o.state);
      ([(o.result.value, o.state.files[o.result.value])] + more, last)
  }

  /** The files seen after reading these items, over those known before. */
  function WithFiles(files: map<Text, Record>, items: seq<Item>): (r: map<Text, Record>)
    decreases items
  {
    if items == [] then files
    else WithFiles(files[items[0].entry.path := RecordOf(items[0].entry)], items[1..])
  }

  lemma {:induction false} ReadAllEnd(more: Text, st: State)
    requires !st.srcEof && st.src == FOOTER + more
    ensures ReadAll(st) == ([], st.(src := more, ended := true))
  {
    hide ReadFrom;
    FooterEndsReading(more, st, []);
  }

  lemma ReadAllStep(item: Item, rest: Text, st: State)
    requires GoodItem(item) && !st.srcEof && st.src == BytesOf(item) + rest
    requires item.entry.path !in st.files
    ensures var st' := st.(src := rest, files := st.files[item.entry.path := RecordOf(item.entry)]);
            |rest| < |st.src| &&
            ReadAll(st) == ([(item.entry.path, RecordOf(item.entry))] + ReadAll(st').0, ReadAll(st').1)
  {
    hide ReadFrom, BytesOf, RecordOf;
    var st' := st.(src := rest, files := st.files[item.entry.path := RecordOf(item.entry)]);
    EntryReadsBack(item, rest, st, [], 0);
    assert AfterReading(st, item.entry, rest) == st';
    assert NextStored(st) == Outcome(Success(item.entry.path), st');
  }

  /** Whatever follows the footer: entries come back in order with their type,
      data and mode, then "", with the reader at its end. In particular entries
      appended after endStream are never seen. */
  lemma {:induction false} ArchiveReadsBack(items: seq<Item>, more: Text, st: State)
    requires GoodArchive(items) && !st.srcEof
    requires st.src == Archive(items) + (FOOTER + more)
    requires forall item <- items :: item.entry.path !in st.files
    ensures ReadAll(st) ==
            (Listing(items), State(more, false, WithFiles(st.files, items), true))
    decreases |items|
  {
    hide BytesOf, ReadAll, RecordOf;
    if items == [] {
      assert st.src == FOOTER + more;
      ReadAllEnd(more, st);
      assert Listing(items) == [];
    } else {
      var item, rest := items[0], Archive(items[1..]) + (FOOTER + more);
      assert GoodItem(item);
      assert st.src == BytesOf(item) + rest;
      ReadAllStep(item, rest, st);
      var st' := st.(src := rest, files := st.files[item.entry.path := RecordOf(item.entry)]);
      forall other <- items[1..] ensures other.entry.path !in st'.files {
        var j :| 0 <= j < |items[1..]| && items[1..][j] == other;
        assert items[j + 1] == other;
      }
      ArchiveReadsBack(items[1..], more, st');
      assert Listing(items) == [(item.entry.path, RecordOf(item.entry))] + Listing(items[1..]);
    }
  }

  /* ---- on demand, by name ---- */

  /** The records of a list of items with distinct names. */
  function FilesOf(items: seq<Item>): (r: map<Text, Record>) {
    if items == [] then map[]
    else FilesOf(items[..|items| - 1])[items[|items| - 1].entry.path := RecordOf(items[|items| - 1].entry)]
  }

  lemma {:induction false} FilesOfKeys(items: seq<Item>, name: Text)
    ensures name in FilesOf(items) <==> exists i :: 0 <= i < |items| && items[i].entry.path == name
    ensures name in FilesOf(items) && Distinct(items) ==>
              forall i :: 0 <= i < |items| && items[i].entry.path == name ==>
                FilesOf(items)[name] == RecordOf(items[i].entry)
  {
    if items != [] {
      var n := |items| - 1;
      FilesOfKeys(items[..n], name);
      assert forall i :: 0 <= i < n ==> items[..n][i] == items[i];
      if exists i :: 0 <= i < |items[..n]| && items[..n][i].entry.path == name {
        var i :| 0 <= i < |items[..n]| && items[..n][i].entry.path == name;
        assert items[i].entry.path == name;
      }
    }
  }

  /** The reader has taken in exactly the first k items and stands at item k, with
      `tail` zero blocks of footer left; or it has hit the end of the stream. */
  ghost predicate Boundary(items: seq<Item>, k: nat, tail: nat, st: State)
  {
    && k <= |items|
    && st.files == FilesOf(items[..k])
    && (if st.srcEof then k == |items| && st.src == [] else st.src == Archive(items[k..]) + Zeros(1024 * tail))
  }

  lemma BoundaryStep(items: seq<Item>, k: nat, tail: nat, st: State)
    requires GoodArchive(items) && Boundary(items, k, tail, st) && !st.srcEof && k < |items|
    ensures var item := items[k];
            var rest := Archive(items[k + 1..]) + Zeros(1024 * tail);
            && GoodItem(item) && st.src == BytesOf(item) + rest
            && Boundary(items, k + 1, tail, AfterReading(st, item.entry, rest))
            && !AfterReading(st, item.entry, rest).srcEof
  {
    hide BytesOf;
    var item, rest := items[k], Archive(items[k + 1..]) + Zeros(1024 * tail);
    assert GoodItem(item);
    assert Archive(items[k..]) == BytesOf(item) + Archive(items[k + 1..]) by {
      assert items[k..][0] == item && items[k..][1..] == items[k + 1..];
    }
    assert st.src == BytesOf(item) + rest;
    assert item.entry.path !in st.files by {
      FilesOfKeys(items[..k], item.entry.path);
      assert forall i :: 0 <= i < k ==> items[..k][i] == items[i];
    }
    assert items[..k + 1][..k] == items[..k];
  }

  lemma NothingLeft(items: seq<Item>, tail: nat, st: State, name: Text) returns (tail': nat)
    requires Boundary(items, |items|, tail, st) && !st.srcEof
    ensures var o := ReadFrom(st, name, 0);
            o.result.Success? && Boundary(items, |items|, tail', o.state)
  {
    assert st.src == Zeros(1024 * tail);
    tail' := 0;
    if tail > 0 {
      tail' := tail - 1;
      assert Zeros(1024 * tail) == FOOTER + Zeros(1024 * tail');
      FooterEndsReading(Zeros(1024 * tail'), st, name);
      assert Archive([]) + Zeros(1024 * tail') == Zeros(1024 * tail');
    }
  }

  /** Where reading on for a name ends: just after that name's entry, or at the end. */
  ghost predicate StopsAt(items: seq<Item>, k: nat, k': nat, tail': nat, name: Text, o: Outcome) {
    && o.result.Success? && k <= k' && Boundary(items, k', tail', o.state)
    && (k' == |items| || (k' > k && items[k' - 1].entry.path == name))
  }

  lemma StopsEarlier(items: seq<Item>, k: nat, k': nat, tail': nat, name: Text, o: Outcome)
    requires StopsAt(items, k + 1, k', tail', name, o)
    ensures StopsAt(items, k, k', tail', name, o)
  {
    hide Boundary;
  }

  lemma StopsAfterEntry(items: seq<Item>, k: nat, tail: nat, name: Text, o: Outcome)
    requires k < |items| && o.result.Success? && Boundary(items, k + 1, tail, o.state) && items[k].entry.path == name
    ensures StopsAt(items, k, k + 1, tail, name, o)
  {
    hide Boundary;
  }

  lemma StopsAtEnd(items: seq<Item>, tail: nat, name: Text, o: Outcome)
    requires o.result.Success? && Boundary(items, |items|, tail, o.state)
    ensures StopsAt(items, |items|, |items|, tail, name, o)
  {
    hide Boundary;
  }

  /** Reading on for a name from a boundary stops at the boundary after that
      name's entry, or takes everything in. */
  lemma {:induction false} ReadOnForName(items: seq<Item>, k: nat, tail: nat, st: State, name: Text)
    returns (k': nat, tail': nat)
    requires GoodArchive(items) && Boundary(items, k, tail, st) && name != [] && !st.srcEof
    ensures StopsAt(items, k, k', tail', name, ReadFrom(st, name, 0))
    decreases |items| - k
  {
    assert k <= |items|;
    hide ReadFrom, BytesOf, Archive, FilesOf, Boundary, AfterReading, GoodArchive, GoodItem, StopsAt;
    if k == |items| {
      k' := k;
      tail' := NothingLeft(items, tail, st, name);
      StopsAtEnd(items, tail', name, ReadFrom(st, name, 0));
    } else {
      BoundaryStep(items, k, tail, st);
      var item, rest := items[k], Archive(items[k + 1..]) + Zeros(1024 * tail);
      var st' := AfterReading(st, item.entry, rest);
      EntryReadsBack(item, rest, st, name, 0);
      if item.entry.path == name {
        k', tail' := k + 1, tail;
        StopsAfterEntry(items, k, tail, name, ReadFrom(st, name, 0));
      } else {
        k', tail' := ReadOnForName(items, k + 1, tail, st', name);
        StopsEarlier(items, k, k', tail', name, ReadFrom(st, name, 0));
      }
    }
  }

  ghost function FullLookup(items: seq<Item>, name: Text): (r: Result<Record, LookupError>) {
    if name in FilesOf(items) then Success(FilesOf(items)[name]) else Failure(Missing)
  }

  lemma {:induction false} PrefixFiles(items: seq<Item>, k: nat, name: Text)
    requires Distinct(items) && k <= |items| && name in FilesOf(items[..k])
    ensures name in FilesOf(items) && FilesOf(items)[name] == FilesOf(items[..k])[name]
  {
    FilesOfKeys(items[..k], name);
    FilesOfKeys(items, name);
    var i :| 0 <= i < |items[..k]| && items[..k][i].entry.path == name;
    assert items[i].entry.path == name;
  }

  /** A lookup made lazily answers as a lookup in the whole archive would, and
      leaves the reader at a boundary again. */
  lemma LazyLookup(items: seq<Item>, k: nat, tail: nat, st: State, name: Text) returns (k': nat, tail': nat)
    requires GoodArchive(items) && Boundary(items, k, tail, st) && name != []
    ensures Lookup(st, name).result == FullLookup(items, name)
    ensures k <= k' && Boundary(items, k', tail', Lookup(st, name).state)
  {
    hide ReadFrom, Archive, FilesOf;
    if name in st.files {
      PrefixFiles(items, k, name);
      return k, tail;
    }
    if st.srcEof {
      assert items[..k] == items;
      return k, tail;
    }
    k', tail' := ReadOnForName(items, k, tail, st, name);
    var files := ReadFrom(st, name, 0).state.files;
    if name in files {
      PrefixFiles(items, k', name);
    } else {
      if k' < |items| {
        FilesOfKeys(items[..k'], name);
      }
      assert items[..|items|] == items;
    }
  }

  function Lookups(st: State, names: seq<Text>): (r: (seq<Result<Record, LookupError>>, State))
    decreases names
  {
    if names == [] then ([], st)
    else
      var first := Lookup(st, names[0]);
      var (results, last) := Lookups(first.state, names[1..]);
      ([first.result] + results, last)
  }

  /** Any run of lookups on a written archive, in any order and with repetitions,
      agrees with the full listing. */
  lemma {:induction false} LazyRun(items: seq<Item>, k: nat, tail: nat, st: State, names: seq<Text>)
    requires GoodArchive(items) && Boundary(items, k, tail, st)
    requires [] !in names
    ensures |Lookups(st, names).0| == |names|
    ensures forall i :: 0 <= i < |names| ==> Lookups(st, names).0[i] == FullLookup(items, names[i])
    decreases |names|
  {
    if names != [] {
      var k', tail' := LazyLookup(items, k, tail, st, names[0]);
      LazyRun(items, k', tail', Lookup(st, names[0]).state, names[1..]);
    }
  }

  /** A fresh reader over a finished archive stands at boundary 0. */
  lemma {:induction false} FreshReader(items: seq<Item>)
    requires GoodArchive(items)
    ensures Boundary(items, 0, 1, State(Archive(items) + FOOTER, false, map[], false))
  {
    assert items[0..] == items && items[..0] == [];
  }
}
