/** Extracting an archive into a directory. */
module Extraction {
  import opened Bytes
  import opened TarHeader
  import opened TarStream
  import opened FileTree
  import opened RealPath

  datatype ExtractError =
    | AlreadyRead
    | CannotRead(error: Error)
    | BadPath(path: PathError)
    | Outside
    | DiskFailed(disk: DiskError)
    | NotImplemented(kind: Kind)
    | LinkNotModelled

  /** Puts one record onto the disk. */
  function ExtractOne(fs: Nodes, cwd: Text, truePrefix: Text, name: Text, record: Record)
    : (r: Result<Nodes, ExtractError>)
  {
    match Resolved(fs, cwd, if truePrefix == [] then name else truePrefix + [SLASH] + name)
    case Failure(e) => Failure(BadPath(e))
    case Success(filePath) =>
      if !(truePrefix <= filePath) then Failure(Outside)
      else
        match record.kind
        case Regular =>
          (match WriteFile(fs, filePath, record.data)
           case Success(fs') => Success(fs')
           case Failure(e) => Failure(DiskFailed(e)))
        case Directory =>
          (match MakeAll(fs, filePath)
           case Success(fs') => Success(fs')
           case Failure(e) => Failure(DiskFailed(e)))
        case SymLink => Failure(LinkNotModelled)
        case _ => Failure(NotImplemented(record.kind))
  }

  datatype Extracted = Extracted(result: Result<Nodes, ExtractError>, state: State)

  /** The loop of extractToFileSystem. */
  function ExtractAll(st: State, fs: Nodes, cwd: Text, truePrefix: Text, drop: bool): (r: Extracted)
    decreases |st.src|
  {
    if st.ended then Extracted(Success(fs), st)
    else
      var o := ReadUpTo(st, []);
      NamesAreStored(st, [], 0);
      if o.result.Failure? then Extracted(Failure(CannotRead(o.result.error)), o.state)
      else if o.result.value == [] then Extracted(Success(fs), o.state)
      else
        var name := o.result.value;
        var x := ExtractOne(fs, cwd, truePrefix, name, o.state.files[name]);
        if x.Failure? then Extracted(Failure(x.error), o.state)
        else ExtractAll(Dropped(o.state, name, drop), x.value, cwd, truePrefix, drop)
  }

  function Dropped(st: State, name: Text, drop: bool): (r: State) {
    if drop then st.(files := st.files - {name}) else st
  }

  function ExtractTo(st: State, fs: Nodes, cwd: Text, prefix: Text, drop: bool): (r: Extracted) {
    if st.files != map[] then Extracted(Failure(AlreadyRead), st)
    else if prefix == [] then ExtractAll(st, fs, cwd, [], drop)
    else match Resolved(fs, cwd, prefix)
         case Failure(e) => Extracted(Failure(BadPath(e)), st)
         case Success(truePrefix) => ExtractAll(st, fs, cwd, truePrefix, drop)
  }

  method PlaceRecord(disk: Disk, filePath: Text, record: Record) returns (r: Result<Nodes, ExtractError>)
    modifies disk
    ensures r.Success? ==> r.value == disk.nodes
    ensures r == match record.kind
                 case Regular =>
                   (match WriteFile(old(disk.nodes), filePath, record.data)
                    case Success(fs') => Success(fs')
                    case Failure(e) => Failure(DiskFailed(e)))
                 case Directory =>
                   (match MakeAll(old(disk.nodes), filePath)
                    case Success(fs') => Success(fs')
                    case Failure(e) => Failure(DiskFailed(e)))
                 case SymLink => Failure(LinkNotModelled)
                 case _ => Failure(NotImplemented(record.kind))
  {
    hide WriteFile, MakeAllWith;
    match record.kind
    case Regular =>
      var done := disk.Write(filePath, record.data);
      r := if done.Failure? then Failure(DiskFailed(done.error)) else Success(disk.nodes);
    case Directory =>
      var done := disk.MkdirP(filePath, 0x1ED);
      r := if done.Failure? then Failure(DiskFailed(done.error)) else Success(disk.nodes);
    case SymLink =>
      r := Failure(LinkNotModelled);
    case _ =>
      r := Failure(NotImplemented(record.kind));
  }

  /** The body of the loop, once a record has been read. */
  method ExtractNext(reader: TarReader, disk: Disk, cwd: Text, truePrefix: Text, baseFileName: Text,
                     dropAfterExtracting: bool)
    returns (r: Result<Nodes, ExtractError>)
    requires baseFileName in reader.files
    modifies reader, disk
    ensures r == ExtractOne(old(disk.nodes), cwd, truePrefix, baseFileName, old(reader.files)[baseFileName])
    ensures r.Success? ==> r.value == disk.nodes
    ensures reader.Value() == if r.Success? then Dropped(old(reader.Value()), baseFileName, dropAfterExtracting)
                              else old(reader.Value())
    ensures reader.src == old(reader.src) && reader.srcEof == old(reader.srcEof)
  {
    hide Resolved, MakeAll, WriteFile;
    var filePath := if truePrefix == [] then baseFileName else truePrefix + [SLASH] + baseFileName;
    var resolved := RealpathHyp(disk.nodes, cwd, filePath);
    if resolved.Failure? {
      return Failure(BadPath(resolved.error));
    }
    if !(truePrefix <= resolved.value) {
      return Failure(Outside);
    }
    r := PlaceRecord(disk, resolved.value, reader.files[baseFileName]);
    if r.Success? && dropAfterExtracting {
      reader.files := reader.files - {baseFileName};
    }
  }

  /** One turn of the loop. */
  lemma {:induction false} ExtractAllOnce(st: State, fs: Nodes, cwd: Text, truePrefix: Text, drop: bool)
    ensures st.ended ==> ExtractAll(st, fs, cwd, truePrefix, drop) == Extracted(Success(fs), st)
    ensures !st.ended ==>
              var o := ReadFrom(st, [], 0);
              if o.result.Failure? then
                ExtractAll(st, fs, cwd, truePrefix, drop) == Extracted(Failure(CannotRead(o.result.error)), o.state)
              else if o.result.value == [] then
                ExtractAll(st, fs, cwd, truePrefix, drop) == Extracted(Success(fs), o.state)
              else
                var name := o.result.value;
                name in o.state.files &&
                var x := ExtractOne(fs, cwd, truePrefix, name, o.state.files[name]);
                if x.Failure? then
                  ExtractAll(st, fs, cwd, truePrefix, drop) == Extracted(Failure(x.error), o.state)
                else
                  ExtractAll(st, fs, cwd, truePrefix, drop) ==
                  ExtractAll(Dropped(o.state, name, drop), x.value, cwd, truePrefix, drop)
  {
    hide ReadFrom, ReadUpTo, ExtractOne, Dropped;
    ReadUpToIs(st);
    NamesAreStored(st, [], 0);
  }

  method ExtractToFileSystem(reader: TarReader, disk: Disk, cwd: Text, prefix: Text, dropAfterExtracting: bool)
    returns (r: Result<(), ExtractError>)
    requires reader.srcEof ==> reader.src == []
    modifies reader, disk
    ensures var x := ExtractTo(old(reader.Value()), old(disk.nodes), cwd, prefix, dropAfterExtracting);
            && reader.Value() == x.state
            && (r.Success? <==> x.result.Success?)
            && (r.Success? ==> x.result == Success(disk.nodes))
            && (r.Failure? ==> x.result == Failure(r.error))
  {
    hide Resolved, ReadFrom, ReadUpTo, ExtractOne, Dropped, ExtractAll;
    if reader.files != map[] {
      return Failure(AlreadyRead);
    }
    var truePrefix: Text := [];
    if prefix != [] {
      var resolved := RealpathHyp(disk.nodes, cwd, prefix);
      if resolved.Failure? {
        return Failure(BadPath(resolved.error));
      }
      truePrefix := resolved.value;
    }
    while !reader.fileEnded
      invariant reader.srcEof ==> reader.src == []
      invariant ExtractTo(old(reader.Value()), old(disk.nodes), cwd, prefix, dropAfterExtracting)
                == ExtractAll(reader.Value(), disk.nodes, cwd, truePrefix, dropAfterExtracting)
      decreases |reader.src|
    {
      ReadUpToIs(reader.Value());
      ExtractAllOnce(reader.Value(), disk.nodes, cwd, truePrefix, dropAfterExtracting);
      var read := reader.ReadFiles([]);
      if read.Failure? {
        return Failure(CannotRead(read.error));
      }
      var baseFileName := read.value;
      if baseFileName == [] {
        return Success(());
      }
      var placed := ExtractNext(reader, disk, cwd, truePrefix, baseFileName, dropAfterExtracting);
      if placed.Failure? {
        return Failure(placed.error);
      }
    }
    ExtractAllOnce(reader.Value(), disk.nodes, cwd, truePrefix, dropAfterExtracting);
    r := Success(());
  }

  lemma {:induction false} ReadUpToIs(st: State)
    ensures ReadUpTo(st, []) == ReadFrom(st, [], 0)
  {
  }
}
