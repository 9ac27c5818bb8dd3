/** Configuration files that include other configuration files. */
module ConfigFiles {
  import opened Bytes

  /** What an option refers to, with its present value. */
  datatype Setting = Text(s: string) | Flag(b: bool) | Number(n: nat)

  type Options = map<string, Setting>

  /** The readable files, by lines. */
  type Files = map<string, seq<string>>

  /** What std::stoul makes of a value; None when it throws. */
  type ReadNumber = string -> Option<nat>

  datatype Error = Loop(file: string) | Unreadable(file: string) | NotANumber(value: string)

  datatype Outcome = Outcome(options: Options, error: Option<Error>)

  /* ---- one line ---- */

  function EqualsAt(line: string): (k: nat)
    ensures k <= |line| && (k < |line| ==> line[k] == '=') && '=' !in line[..k]
  {
    if line == [] || line[0] == '=' then 0
    else
      var k := EqualsAt(line[1..]);
      assert line[..k + 1] == [line[0]] + line[1..][..k];
      k + 1
  }

  function Key(line: string): (r: string) {
    line[..EqualsAt(line)]
  }

  /** Without '=' the value is the whole line: npos + 1 is 0. */
  function Value(line: string): (r: string) {
    var k := EqualsAt(line);
    if k < |line| then line[k + 1..] else line
  }

  function Assigned(read: ReadNumber, setting: Setting, value: string): (r: Option<Setting>) {
    match setting
    case Text(_) => Some(Text(value))
    case Flag(_) => Some(Flag(value == "true" || value == "True" || value == "1"))
    case Number(_) =>
      var n := read(value);
      if n.Some? then Some(Number(n.value % 0x1_0000_0000)) else None
  }

  /* ---- one file ---- */

  /** The files being read, outermost first: different and readable. */
  predicate Chain(fs: Files, files: seq<string>) {
    (forall i :: 0 <= i < |files| ==> files[i] in fs)
    && forall i, j :: 0 <= i < j < |files| ==> files[i] != files[j]
  }

  lemma ChainBound(fs: Files, files: seq<string>)
    requires Chain(fs, files)
    ensures |files| <= |fs|
  {
    var names := set f | f in files;
    DistinctCount(files);
    assert names <= fs.Keys;
    SubsetCount(names, fs.Keys);
  }

  lemma {:induction false} DistinctCount(files: seq<string>)
    requires forall i, j :: 0 <= i < j < |files| ==> files[i] != files[j]
    ensures |set f | f in files| == |files|
    decreases |files|
  {
    if files != [] {
      var n := |files| - 1;
      DistinctCount(files[..n]);
      assert (set f | f in files) == (set f | f in files[..n]) + {files[n]};
      assert files[n] !in files[..n];
    } else {
      assert (set f | f in files) == {};
    }
  }

  lemma SubsetCount(s: set<string>, t: set<string>)
    requires s <= t
    ensures |s| <= |t|
  {
    assert t == s + (t - s);
  }

  function ParseFile(fs: Files, read: ReadNumber, options: Options, files: seq<string>): (r: Outcome)
    requires files != [] && Chain(fs, files[..|files| - 1])
    ensures r.options.Keys == options.Keys
    decreases |fs| + 1 - |files|, 1, 0
  {
    var n := |files| - 1;
    var file := files[n];
    if file in files[..n] then Outcome(options, Some(Loop(file)))
    else if file !in fs then Outcome(options, Some(Unreadable(file)))
    else
      ChainBound(fs, files);
      ParseLines(fs, read, options, files, fs[file])
  }

  function ParseLines(fs: Files, read: ReadNumber, options: Options, files: seq<string>, lines: seq<string>)
    : (r: Outcome)
    requires files != [] && Chain(fs, files)
    ensures r.options.Keys == options.Keys
    decreases |fs| + 1 - |files|, 0, |lines|
  {
    ChainBound(fs, files);
    if lines == [] then Outcome(options, None)
    else
      var r := ParseLine(fs, read, options, files, lines[0]);
      if r.error.Some? then r else ParseLines(fs, read, r.options, files, lines[1..])
  }

  function ParseLine(fs: Files, read: ReadNumber, options: Options, files: seq<string>, line: string): (r: Outcome)
    requires files != [] && Chain(fs, files)
    ensures r.options.Keys == options.Keys
    decreases |fs| + 1 - |files|, 0, 0
  {
    var key, value := Key(line), Value(line);
    ChainBound(fs, files);
    if key in options then
      match Assigned(read, options[key], value)
      case Some(setting) => Outcome(options[key := setting], None)
      case None => Outcome(options, Some(NotANumber(value)))
    else if key == "config" then
      assert (files + [value])[..|files|] == files;
      ParseFile(fs, read, options, files + [value])
    else Outcome(options, None)
  }

  /* ---- the code ---- */

  class Configuration {
    var options: Options

    constructor (options: Options)
      ensures this.options == options
    {
      this.options := options;
    }

    /** Reads the last file of the list; the others are the files that include it. */
    method Parse(fs: Files, read: ReadNumber, files: seq<string>) returns (error: Option<Error>)
      requires files != [] && Chain(fs, files[..|files| - 1])
      modifies this
      ensures Outcome(options, error) == ParseFile(fs, read, old(options), files)
      decreases |fs| + 1 - |files|
    {
      var n := |files| - 1;
      var i := 0;
      while i < n && files[i] != files[n]
        invariant 0 <= i <= n && files[n] !in files[..i]
      {
        i := i + 1;
      }
      if i < n {
        return Some(Loop(files[n]));
      }
      if files[n] !in fs {
        return Some(Unreadable(files[n]));
      }
      ChainBound(fs, files);
      var lines := fs[files[n]];
      ghost var goal := ParseLines(fs, read, options, files, lines);
      var lineNumber := 0;
      while lineNumber < |lines|
        invariant lineNumber <= |lines| && goal == ParseLines(fs, read, options, files, lines[lineNumber..])
      {
        var line := lines[lineNumber];
        var key, value := Key(line), Value(line);
        if key in options {
          var setting := Assigned(read, options[key], value);
          if setting.None? {
            return Some(NotANumber(value));
          }
          options := options[key := setting.value];
        } else if key == "config" {
          assert (files + [value])[..|files|] == files;
          error := Parse(fs, read, files + [value]);
          if error.Some? {
            return;
          }
        }
        lineNumber := lineNumber + 1;
      }
      error := None;
    }
  }
}
