/** Writing entries to a tar stream and reading them back on demand. */
module TarStream {
  import opened Bytes
  import opened TarHeader
  import opened TarHeaderProofs

  /* ---- writing ---- */

  datatype Entry =
    | FileEntry(path: Text, data: Text)
    | DirEntry(path: Text)
    | LinkEntry(path: Text, target: Text)

  function Padding(n: nat): (r: nat) {
    if n % SIZE == 0 then 0 else SIZE - n % SIZE
  }

  /** The bytes one append call adds to the stream, or what it throws. */
  function EntryBytes(e: Entry, env: Env): (r: Result<Text, Error>)
  {
    match e
    case FileEntry(path, data) =>
      (match FilledHeader(path, |data|, Regular, env)
       case Failure(x) => Failure(x)
       case Success(h) => Success(h + data + Zeros(Padding(|data|))))
    case DirEntry(path) => FilledHeader(path, 0, Directory, env)
    case LinkEntry(path, target) => LinkHeader(path, target, env)
  }

  /** Constructs a header and gives its memory image. */
  method BuildHeader(path: Text, size: nat, kind: Kind, env: Env) returns (r: Result<Text, Error>)
    ensures r == FilledHeader(path, size, kind, env)
  {
    var header := new Header();
    var filled := header.Fill(path, size, kind, env);
    r := if filled.Failure? then Failure(filled.error) else Success(header.raw[..]);
  }

  /** Copies the target into a symbolic link's header and sums it again. */
  method AddTarget(header: Text, target: Text) returns (h: Text)
    requires |header| == SIZE && |target| <= 100
    ensures h == Summed(Put(header, LINKNAME, target))
  {
    var symEntry := new Header();
    symEntry.Write(0, header);
    assert symEntry.raw[..] == header;
    symEntry.Write(LINKNAME, target);
    var _ := symEntry.SetChecksum();
    h := symEntry.raw[..];
  }

  const FOOTER: Text := Zeros(2 * SIZE)

  class TarWriter {
    var sink: Text
    var ended: bool

    constructor ()
      ensures sink == [] && !ended
    {
      sink, ended := [], false;
    }

    /** sink.put('\\0'), n times. */
    method PutZeros(n: nat)
      modifies `sink
      ensures sink == old(sink) + Zeros(n)
    {
      assert sink + Zeros(0) == sink;
      for i := 0 to n
        invariant sink == old(sink) + Zeros(i)
      {
        assert Zeros(i + 1) == Zeros(i) + [NUL];
        sink := sink + [NUL];
      }
    }

    method AppendFile(filepath: Text, data: Text, env: Env) returns (r: Result<(), Error>)
      modifies `sink
      ensures ended ==> r == Failure(StreamEnded) && sink == old(sink)
      ensures !ended ==> Appended(FileEntry(filepath, data), env, old(sink), sink, r)
    {
      hide FilledHeader;
      if ended {
        return Failure(StreamEnded);
      }
      var header := BuildHeader(filepath, |data|, Regular, env);
      if header.Failure? {
        return Failure(header.error);
      }
      sink := sink + header.value;
      sink := sink + data;
      var remainder := |data| % SIZE;
      PutZeros(if remainder != 0 then SIZE - remainder else 0);
      Joined(old(sink), header.value, data, Zeros(Padding(|data|)));
      return Success(());
    }

    method AppendDirectory(path: Text, env: Env) returns (r: Result<(), Error>)
      modifies `sink
      ensures ended ==> r == Failure(StreamEnded) && sink == old(sink)
      ensures !ended ==> Appended(DirEntry(path), env, old(sink), sink, r)
    {
      hide FilledHeader;
      if ended {
        return Failure(StreamEnded);
      }
      var header := BuildHeader(path, 0, Directory, env);
      if header.Failure? {
        return Failure(header.error);
      }
      sink := sink + header.value;
      return Success(());
    }

    method AppendSymLink(filepath: Text, linkTarget: Text, env: Env) returns (r: Result<(), Error>)
      modifies `sink
      ensures ended ==> r == Failure(StreamEnded) && sink == old(sink)
      ensures !ended ==> Appended(LinkEntry(filepath, linkTarget), env, old(sink), sink, r)
    {
      if ended {
        return Failure(StreamEnded);
      }
      var symEntry := BuildHeader(filepath, 0, SymLink, env);
      if symEntry.Failure? {
        return Failure(symEntry.error);
      }
      if |linkTarget| > 100 {
        return Failure(LinkTargetTooLong);
      }
      var h := AddTarget(symEntry.value, linkTarget);
      sink := sink + h;
      return Success(());
    }

    /** Never sets `ended`, so a second call (the destructor's) writes a second footer. */
    method EndStream()
      modifies `sink
      ensures sink == old(sink) + if ended then [] else FOOTER
    {
      if ended {
        assert sink + [] == sink;
      } else {
        PutZeros(2 * SIZE);
      }
    }
  }

  lemma Joined(a: Text, b: Text, c: Text, d: Text)
    ensures a + b + c + d == a + (b + c + d)
  {
  }

  ghost predicate Appended(e: Entry, env: Env, before: Text, after: Text, r: Result<(), Error>)
  {
    match EntryBytes(e, env)
    case Failure(x) => r == Failure(x) && after == before
    case Success(bytes) => r.Success? && after == before + bytes
  }

  /* ---- reading ---- */

  datatype Record = Record(kind: Kind, data: Text, mode: nat)

  /** A reader over an input stream: the bytes not yet read, the stream's eof
      flag, the records read so far, and whether the end has been seen. */
  datatype State = State(src: Text, srcEof: bool, files: map<Text, Record>, ended: bool)

  datatype Outcome = Outcome(result: Result<Text, Error>, state: State)

  /** What `dataSrc.get()` delivers past the end of the stream: EOF cut to a char. */
  const EOF_BYTE: byte := 255

  function Take(src: Text, n: nat): (r: Text) {
    if n <= |src| then src[..n] else src + Repeat(EOF_BYTE, n - |src|)
  }

  function Drop(src: Text, n: nat): (r: Text) {
    if n <= |src| then src[n..] else []
  }

  /** The fields of a header that the reader uses. */
  datatype Parsed = Parsed(size: nat, mode: nat, kind: Kind, name: Text, target: Text)

  function ParseHeader(h: Text): (r: Result<Parsed, Error>)
    requires |h| == SIZE
  {
    var size, mode := ScanNumber(h[FILE_SIZE..]), ScanNumber(h[MODE..]);
    if !ChecksumOk(h) then Failure(BadChecksum)
    else if !Terminated(h[FILE_SIZE..MTIME]) then Failure(SizeNotTerminated)
    else if size.None? then Failure(NumberMissing)
    else if size.value > 0x1_FFFF_FFFF then Failure(OverlargeSize)
    else if !Terminated(h[MODE..UID]) then Failure(ModeNotTerminated)
    else if mode.None? then Failure(NumberMissing)
    else Success(Parsed(size.value, mode.value, KindOfFlag(h[TYPEFLAG]), HeaderName(h), CString(h[LINKNAME..])))
  }

  /** Stores the record that a header announces and passes its data and padding. */
  function StoreRecord(p: Parsed, st: State): (r: State) {
    var data := if p.kind.Regular? then Take(st.src, p.size) else if p.kind.SymLink? then p.target else [];
    var used := (if p.kind.Regular? then p.size else 0) + Padding(p.size);
    st.(src := Drop(st.src, used), srcEof := st.srcEof || used > |st.src|,
        files := Insert(st.files, p.name, Record(p.kind, data, p.mode)))
  }

  function ReadRecord(h: Text, st: State): (o: Outcome)
    requires |h| == SIZE
    ensures |o.state.src| <= |st.src|
  {
    match ParseHeader(h)
    case Failure(e) => Outcome(Failure(e), st)
    case Success(p) => Outcome(Success(p.name), StoreRecord(p, st))
  }

  /** std::map::insert keeps a record that is already there. */
  function Insert(files: map<Text, Record>, name: Text, record: Record): (r: map<Text, Record>) {
    if name in files then files else files[name := record]
  }

  /** readFiles from a point where `nEmpty` empty blocks have just been read. */
  function ReadFrom(st: State, target: Text, nEmpty: nat): (o: Outcome)
    ensures o.result.Success? && o.result.value != [] ==> |o.state.src| < |st.src|
    decreases |st.src|
  {
    if st.srcEof || |st.src| < SIZE then
      Outcome(Success([]), st.(src := [], srcEof := true, ended := true))
    else
      var h, next := st.src[..SIZE], st.(src := st.src[SIZE..]);
      if AllZero(h) then
        if nEmpty == 1 then Outcome(Success([]), next.(ended := true)) else ReadFrom(next, target, nEmpty + 1)
      else
        var o := ReadRecord(h, next);
        if o.result.Failure? || o.result.value == target || target == [] then o
        else ReadFrom(o.state, target, 0)
  }

  function ReadUpTo(st: State, target: Text): (o: Outcome)
    ensures o.result.Success? && o.result.value != [] ==> |o.state.src| < |st.src|
  {
    ReadFrom(st, target, 0)
  }

  /** A name that readFiles returns is the name of a stored record. */
  lemma {:induction false} NamesAreStored(st: State, target: Text, nEmpty: nat)
    ensures var o := ReadFrom(st, target, nEmpty);
            o.result.Success? && o.result.value != [] ==> o.result.value in o.state.files
    decreases |st.src|
  {
    if !st.srcEof && |st.src| >= SIZE {
      var h, next := st.src[..SIZE], st.(src := st.src[SIZE..]);
      if AllZero(h) {
        if nEmpty != 1 {
          NamesAreStored(next, target, nEmpty + 1);
        }
      } else {
        var o := ReadRecord(h, next);
        if o.result.Success? && o.result.value != target && target != [] {
          NamesAreStored(o.state, target, 0);
        }
      }
    }
  }

  /** nextFile: the next name that is still stored. */
  function NextStored(st: State): (o: Outcome)
    ensures o.result.Success? && o.result.value != [] ==> |o.state.src| < |st.src|
    ensures o.result.Success? && o.result.value != [] ==> o.result.value in o.state.files
    decreases |st.src|
  {
    var o := ReadUpTo(st, []);
    if o.result.Failure? || o.result.value == [] || o.result.value in o.state.files then o else NextStored(o.state)
  }

  datatype LookupError = Missing | Unreadable(error: Error)

  datatype Found = Found(result: Result<Record, LookupError>, state: State)

  /** The common part of stringForFile, typeForFile and modeForFile. */
  function Lookup(st: State, name: Text): (r: Found) {
    if name in st.files then Found(Success(st.files[name]), st)
    else if st.srcEof then Found(Failure(Missing), st)
    else
      var o := ReadUpTo(st, name);
      if o.result.Failure? then Found(Failure(Unreadable(o.result.error)), o.state)
      else if name in o.state.files then Found(Success(o.state.files[name]), o.state)
      else Found(Failure(Missing), o.state)
  }

  class TarReader {
    var src: Text
    var srcEof: bool
    var files: map<Text, Record>
    var fileEnded: bool

    function Value(): (r: State)
      reads this
    {
      State(src, srcEof, files, fileEnded)
    }

    constructor (source: Text)
      ensures Value() == State(source, false, map[], false)
    {
      src, srcEof, files, fileEnded := source, false, map[], false;
    }

    /** istream::read of one block; false when the stream fails. */
    method ReadBlock(h: Header) returns (ok: bool)
      requires h.Valid() && (srcEof ==> src == [])
      modifies this`src, this`srcEof, h.raw
      ensures ok <==> !old(srcEof) && |old(src)| >= SIZE
      ensures ok ==> h.raw[..] == old(src)[..SIZE] && src == old(src)[SIZE..] && !srcEof
      ensures !ok ==> src == [] && srcEof
    {
      if srcEof || |src| < SIZE {
        src, srcEof := [], true;
        return false;
      }
      h.Write(0, src[..SIZE]);
      assert h.raw[..] == src[..SIZE];
      src := src[SIZE..];
      return true;
    }

    /** One character at a time, as the FileRecord constructor does. */
    method ReadData(dataSize: nat) returns (data: Text)
      modifies this`src, this`srcEof
      ensures data == Take(old(src), dataSize) && src == Drop(old(src), dataSize)
      ensures srcEof == (old(srcEof) || dataSize > |old(src)|)
    {
      data := [];
      for i := 0 to dataSize
        invariant data == Take(old(src), i) && src == Drop(old(src), i)
        invariant srcEof == (old(srcEof) || i > |old(src)|)
      {
        if src == [] {
          data, srcEof := data + [EOF_BYTE], true;
        } else {
          data, src := data + [src[0]], src[1..];
        }
      }
    }

    /** istream::ignore. */
    method Ignore(n: nat)
      modifies this`src, this`srcEof
      ensures src == Drop(old(src), n) && srcEof == (old(srcEof) || n > |old(src)|)
    {
      srcEof := srcEof || n > |src|;
      src := Drop(src, n);
    }

    /** The checks readFiles makes on a header that is not empty. */
    method Parse(h: Header) returns (r: Result<Parsed, Error>)
      requires h.Valid()
      ensures r == ParseHeader(h.raw[..])
    {
      var bytes := h.raw[..];
      var ok := h.ChecksumValid();
      if !ok {
        return Failure(BadChecksum);
      }
      if !Terminated(bytes[FILE_SIZE..MTIME]) {
        return Failure(SizeNotTerminated);
      }
      var size := ScanNumber(bytes[FILE_SIZE..]);
      if size.None? {
        return Failure(NumberMissing);
      }
      if size.value > 0x1_FFFF_FFFF {
        return Failure(OverlargeSize);
      }
      if !Terminated(bytes[MODE..UID]) {
        return Failure(ModeNotTerminated);
      }
      var mode := ScanNumber(bytes[MODE..]);
      if mode.None? {
        return Failure(NumberMissing);
      }
      var name := h.GetName();
      return Success(Parsed(size.value, mode.value, KindOfFlag(bytes[TYPEFLAG]), name, CString(bytes[LINKNAME..])));
    }

    /** Inserts the record of the file whose header has just been read. */
    method Store(p: Parsed)
      modifies this
      ensures Value() == StoreRecord(p, old(Value()))
    {
      hide Insert;
      if p.kind == Regular {
        var data := ReadData(p.size);
        files := Insert(files, p.name, Record(p.kind, data, p.mode));
      } else if p.kind == SymLink {
        files := Insert(files, p.name, Record(p.kind, p.target, p.mode));
      } else {
        files := Insert(files, p.name, Record(p.kind, [], p.mode));
      }
      if p.size % 512 != 0 {
        Ignore(512 - p.size % 512);
      }
    }

    method ReadFiles(target: Text) returns (r: Result<Text, Error>)
      requires srcEof ==> src == []
      modifies this
      ensures Outcome(r, Value()) == ReadUpTo(old(Value()), target)
      ensures srcEof ==> src == []
    {
      var h := new Header();
      var nEmpty := 0;
      while true
        invariant h.Valid() && fresh(h.raw)
        invariant nEmpty < 2 && (srcEof ==> src == [])
        invariant ReadFrom(old(Value()), target, 0) == ReadFrom(Value(), target, nEmpty)
        decreases |src|
      {
        var ok := ReadBlock(h);
        if !ok {
          fileEnded := true;
          return Success([]);
        }
        var empty := h.IsEmpty();
        if empty {
          nEmpty := nEmpty + 1;
          if nEmpty == 2 {
            fileEnded := true;
            return Success([]);
          }
        } else {
          nEmpty := 0;
          var p := Parse(h);
          if p.Failure? {
            return Failure(p.error);
          }
          Store(p.value);
          if p.value.name == target || target == [] {
            return Success(p.value.name);
          }
        }
      }
    }

    method NextFile() returns (r: Result<Text, Error>)
      requires srcEof ==> src == []
      modifies this
      ensures Outcome(r, Value()) == NextStored(old(Value()))
      ensures srcEof ==> src == []
    {
      while true
        invariant NextStored(old(Value())) == NextStored(Value())
        invariant srcEof ==> src == []
        decreases |src|
      {
        r := ReadFiles([]);
        if r.Failure? || r.value == [] || r.value in files {
          return;
        }
      }
    }

    method Locate(name: Text) returns (r: Result<Record, LookupError>)
      requires srcEof ==> src == []
      modifies this
      ensures Found(r, Value()) == Lookup(old(Value()), name)
      ensures srcEof ==> src == []
    {
      if name !in files {
        if srcEof {
          return Failure(Missing);
        }
        var read := ReadFiles(name);
        if read.Failure? {
          return Failure(Unreadable(read.error));
        }
        if name !in files {
          return Failure(Missing);
        }
      }
      return Success(files[name]);
    }

    method StringForFile(name: Text) returns (r: Result<Text, LookupError>)
      requires srcEof ==> src == []
      modifies this
      ensures Value() == Lookup(old(Value()), name).state
      ensures r == match Lookup(old(Value()), name).result
                   case Success(record) => Success(record.data)
                   case Failure(e) => Failure(e)
      ensures srcEof ==> src == []
    {
      var found := Locate(name);
      match found
      case Success(record) => r := Success(record.data);
      case Failure(e) => r := Failure(e);
    }

    method TypeForFile(name: Text) returns (r: Result<Kind, LookupError>)
      requires srcEof ==> src == []
      modifies this
      ensures Value() == Lookup(old(Value()), name).state
      ensures r == match Lookup(old(Value()), name).result
                   case Success(record) => Success(record.kind)
                   case Failure(e) => Failure(e)
      ensures srcEof ==> src == []
    {
      var found := Locate(name);
      match found
      case Success(record) => r := Success(record.kind);
      case Failure(e) => r := Failure(e);
    }
  }
}
