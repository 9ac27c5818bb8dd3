/** When reading configuration files succeeds, and what it leaves in the options. */
module ConfigProofs {
  import opened Bytes
  import opened ConfigFiles

  /** The lines that include a file, given the names of the options. */
  predicate IsInclude(names: set<string>, line: string) {
    Key(line) !in names && Key(line) == "config"
  }

  predicate IncludesIn(names: set<string>, lines: seq<string>, value: string) {
    exists line <- lines :: IsInclude(names, line) && Value(line) == value
  }

  /** Each file of a walk is readable and includes the next. */
  predicate IsWalk(fs: Files, names: set<string>, w: seq<string>) {
    forall i :: 0 <= i < |w| - 1 ==> w[i] in fs && IncludesIn(names, fs[w[i]], w[i + 1])
  }

  predicate Readable(read: ReadNumber, options: Options, line: string) {
    Key(line) in options ==> Assigned(read, options[Key(line)], Value(line)).Some?
  }

  predicate AllReadable(read: ReadNumber, options: Options, lines: seq<string>) {
    forall line <- lines :: Readable(read, options, line)
  }

  /** The last file of a walk is readable, has not been met before, and its values parse. */
  predicate EndsWell(fs: Files, read: ReadNumber, options: Options, w: seq<string>)
    requires w != []
  {
    var n := |w| - 1;
    w[n] in fs && w[n] !in w[..n] && AllReadable(read, options, fs[w[n]])
  }

  predicate WellIfWalk(fs: Files, read: ReadNumber, options: Options, w: seq<string>)
    requires w != []
  {
    IsWalk(fs, options.Keys, w) ==> EndsWell(fs, read, options, w)
  }

  /** Every way to follow includes on from here ends well. */
  ghost predicate AllWell(fs: Files, read: ReadNumber, options: Options, files: seq<string>)
    requires files != []
  {
    forall more: seq<string> :: WellIfWalk(fs, read, options, files + more)
  }

  /** Only values change, never the names or kinds of the options. */
  predicate SameKinds(o: Options, o': Options) {
    o.Keys == o'.Keys && forall k <- o ::
      (o[k].Text? <==> o'[k].Text?) && (o[k].Flag? <==> o'[k].Flag?)
  }

  lemma {:induction false} KindsKept(fs: Files, read: ReadNumber, options: Options, files: seq<string>)
    requires files != [] && Chain(fs, files[..|files| - 1])
    ensures SameKinds(options, ParseFile(fs, read, options, files).options)
    decreases |fs| + 1 - |files|, 1, 0
  {
    var n := |files| - 1;
    if files[n] !in files[..n] && files[n] in fs {
      ChainBound(fs, files);
      KindsKeptLines(fs, read, options, files, fs[files[n]]);
    }
  }

  lemma {:induction false} KindsKeptLines(fs: Files, read: ReadNumber, options: Options, files: seq<string>,
                                          lines: seq<string>)
    requires files != [] && Chain(fs, files)
    ensures SameKinds(options, ParseLines(fs, read, options, files, lines).options)
    decreases |fs| + 1 - |files|, 0, |lines|
  {
    ChainBound(fs, files);
    if lines != [] {
      KindsKeptLine(fs, read, options, files, lines[0]);
      KindsKeptLines(fs, read, ParseLine(fs, read, options, files, lines[0]).options, files, lines[1..]);
    }
  }

  lemma {:induction false} KindsKeptLine(fs: Files, read: ReadNumber, options: Options, files: seq<string>,
                                         line: string)
    requires files != [] && Chain(fs, files)
    ensures SameKinds(options, ParseLine(fs, read, options, files, line).options)
    decreases |fs| + 1 - |files|, 0, 0
  {
    ChainBound(fs, files);
    if IsInclude(options.Keys, line) {
      assert (files + [Value(line)])[..|files|] == files;
      KindsKept(fs, read, options, files + [Value(line)]);
    }
  }

  lemma SameWell(fs: Files, read: ReadNumber, o: Options, o': Options, files: seq<string>)
    requires files != [] && SameKinds(o, o')
    ensures AllWell(fs, read, o, files) <==> AllWell(fs, read, o', files)
  {
    forall more: seq<string>
      ensures WellIfWalk(fs, read, o, files + more) <==> WellIfWalk(fs, read, o', files + more)
    {
      var w := files + more;
      var last := w[|w| - 1];
      if last in fs {
        forall line <- fs[last] ensures Readable(read, o, line) <==> Readable(read, o', line) {
        }
      }
    }
  }

  /** Following includes on: nothing more, or one more file first. */
  lemma WellStep(fs: Files, read: ReadNumber, options: Options, files: seq<string>)
    requires files != [] && IsWalk(fs, options.Keys, files)
    ensures AllWell(fs, read, options, files) <==>
              EndsWell(fs, read, options, files) &&
              forall v: string :: IncludesIn(options.Keys, fs[files[|files| - 1]], v) ==>
                  AllWell(fs, read, options, files + [v])
  {
    var file := files[|files| - 1];
    if AllWell(fs, read, options, files) {
      assert files + [] == files && WellIfWalk(fs, read, options, files + []);
      forall v: string | IncludesIn(options.Keys, fs[file], v) ensures AllWell(fs, read, options, files + [v]) {
        forall more: seq<string> ensures WellIfWalk(fs, read, options, files + [v] + more) {
          assert files + [v] + more == files + ([v] + more);
          assert WellIfWalk(fs, read, options, files + ([v] + more));
        }
      }
    }
    if EndsWell(fs, read, options, files) &&
       forall v: string :: IncludesIn(options.Keys, fs[file], v) ==> AllWell(fs, read, options, files + [v])
    {
      forall more: seq<string> ensures WellIfWalk(fs, read, options, files + more) {
        var w := files + more;
        if more == [] {
          assert w == files;
        } else if IsWalk(fs, options.Keys, w) {
          assert w[|files| - 1] == file && w[|files|] == more[0];
          assert w == files + [more[0]] + more[1..];
          assert WellIfWalk(fs, read, options, files + [more[0]] + more[1..]);
        }
      }
    }
  }

  /** What the lines of a file need. */
  ghost predicate LinesWell(fs: Files, read: ReadNumber, options: Options, files: seq<string>, lines: seq<string>)
    requires files != []
  {
    AllReadable(read, options, lines) &&
    forall v: string :: IncludesIn(options.Keys, lines, v) ==> AllWell(fs, read, options, files + [v])
  }

  lemma {:induction false} FileSucceeds(fs: Files, read: ReadNumber, options: Options, files: seq<string>)
    requires files != [] && Chain(fs, files[..|files| - 1]) && IsWalk(fs, options.Keys, files)
    ensures ParseFile(fs, read, options, files).error.None? <==> AllWell(fs, read, options, files)
    decreases |fs| + 1 - |files|, 1, 0
  {
    hide EndsWell, AllWell;
    var n := |files| - 1;
    WellStep(fs, read, options, files);
    EndNeeds(fs, read, options, files);
    if files[n] !in files[..n] && files[n] in fs {
      ChainBound(fs, files);
      LinesSucceed(fs, read, options, files, fs[files[n]]);
    }
  }

  lemma EndNeeds(fs: Files, read: ReadNumber, options: Options, files: seq<string>)
    requires files != []
    ensures var n := |files| - 1;
            EndsWell(fs, read, options, files) <==>
            files[n] in fs && files[n] !in files[..n] && AllReadable(read, options, fs[files[n]])
  {
  }

  lemma {:induction false} LinesSucceed(fs: Files, read: ReadNumber, options: Options, files: seq<string>,
                                        lines: seq<string>)
    requires files != [] && Chain(fs, files) && IsWalk(fs, options.Keys, files)
    requires forall line <- lines :: line in fs[files[|files| - 1]]
    ensures ParseLines(fs, read, options, files, lines).error.None? <==> LinesWell(fs, read, options, files, lines)
    decreases |fs| + 1 - |files|, 0, |lines|
  {
    hide AllWell, Readable, ParseLine;
    ChainBound(fs, files);
    if lines != [] {
      var r := ParseLine(fs, read, options, files, lines[0]);
      assert lines[0] in lines;
      forall line <- lines[1..] ensures line in fs[files[|files| - 1]] {
        assert line in lines;
      }
      LineSucceeds(fs, read, options, files, lines[0]);
      KindsKeptLine(fs, read, options, files, lines[0]);
      LinesSucceed(fs, read, r.options, files, lines[1..]);
      WellConsSame(fs, read, options, r.options, files, lines);
    }
  }

  lemma WellConsSame(fs: Files, read: ReadNumber, o: Options, o': Options, files: seq<string>, lines: seq<string>)
    requires files != [] && lines != [] && SameKinds(o, o')
    ensures LinesWell(fs, read, o, files, lines) <==>
            LinesWell(fs, read, o, files, lines[..1]) && LinesWell(fs, read, o', files, lines[1..])
  {
    hide AllWell, IsInclude;
    forall v: string ensures AllWell(fs, read, o, files + [v]) <==> AllWell(fs, read, o', files + [v]) {
      SameWell(fs, read, o, o', files + [v]);
    }
    forall line ensures Readable(read, o, line) <==> Readable(read, o', line) {
    }
    forall v: string
      ensures IncludesIn(o.Keys, lines, v) <==> IncludesIn(o.Keys, lines[..1], v) || IncludesIn(o.Keys, lines[1..], v)
    {
      assert lines == lines[..1] + lines[1..];
    }
    assert forall line :: line in lines <==> line in lines[..1] || line in lines[1..];
  }

  lemma {:induction false} LineSucceeds(fs: Files, read: ReadNumber, options: Options, files: seq<string>, line: string)
    requires files != [] && Chain(fs, files) && IsWalk(fs, options.Keys, files) && line in fs[files[|files| - 1]]
    ensures ParseLine(fs, read, options, files, line).error.None? <==> LinesWell(fs, read, options, files, [line])
    decreases |fs| + 1 - |files|, 0, 0
  {
    hide AllWell;
    ChainBound(fs, files);
    var value := Value(line);
    assert line in [line];
    if IsInclude(options.Keys, line) {
      var files' := files + [value];
      assert files'[..|files|] == files;
      assert IncludesIn(options.Keys, fs[files[|files| - 1]], value) && IncludesIn(options.Keys, [line], value);
      assert IsWalk(fs, options.Keys, files');
      FileSucceeds(fs, read, options, files');
    }
  }

  /** Reading a file ends for every set of files, and without an error exactly when, on
      every walk along include lines, the last file is readable and is met for the
      first time, and its values parse: no include cycle is reachable. */
  lemma {:induction false} SucceedsExactlyWithoutCycles(fs: Files, read: ReadNumber, options: Options, file: string)
    ensures ParseFile(fs, read, options, [file]).error.None? <==>
            forall more: seq<string> :: IsWalk(fs, options.Keys, [file] + more) ==>
                EndsWell(fs, read, options, [file] + more)
  {
    FileSucceeds(fs, read, options, [file]);
    assert AllWell(fs, read, options, [file])
           <==> forall more: seq<string> :: WellIfWalk(fs, read, options, [file] + more);
    if forall more: seq<string> :: IsWalk(fs, options.Keys, [file] + more) ==>
        EndsWell(fs, read, options, [file] + more) {
      forall more: seq<string> ensures WellIfWalk(fs, read, options, [file] + more) {
      }
    }
    if AllWell(fs, read, options, [file]) {
      forall more: seq<string> | IsWalk(fs, options.Keys, [file] + more)
        ensures EndsWell(fs, read, options, [file] + more) {
        assert WellIfWalk(fs, read, options, [file] + more);
      }
    }
  }

  /* ---- the options afterwards ---- */

  /** All assignments, in the order of reading: an include stands for its file. */
  function Flatten(fs: Files, names: set<string>, files: seq<string>): (r: seq<(string, string)>)
    requires files != [] && Chain(fs, files[..|files| - 1])
    decreases |fs| + 1 - |files|, 1, 0
  {
    var n := |files| - 1;
    if files[n] in files[..n] || files[n] !in fs then []
    else
      ChainBound(fs, files);
      FlattenLines(fs, names, files, fs[files[n]])
  }

  function FlattenLines(fs: Files, names: set<string>, files: seq<string>, lines: seq<string>)
    : (r: seq<(string, string)>)
    requires files != [] && Chain(fs, files)
    decreases |fs| + 1 - |files|, 0, |lines|
  {
    ChainBound(fs, files);
    if lines == [] then []
    else FlattenLine(fs, names, files, lines[0]) + FlattenLines(fs, names, files, lines[1..])
  }

  function FlattenLine(fs: Files, names: set<string>, files: seq<string>, line: string): (r: seq<(string, string)>)
    requires files != [] && Chain(fs, files)
    decreases |fs| + 1 - |files|, 0, 0
  {
    ChainBound(fs, files);
    var key, value := Key(line), Value(line);
    if key in names then [(key, value)]
    else if key == "config" then
      assert (files + [value])[..|files|] == files;
      Flatten(fs, names, files + [value])
    else []
  }

  /** The last value assigned to an option. */
  function LastValue(made: seq<(string, string)>, key: string): (r: Option<string>)
    decreases |made|
  {
    if made == [] then None
    else if made[|made| - 1].0 == key then Some(made[|made| - 1].1)
    else LastValue(made[..|made| - 1], key)
  }

  /** Every option has the last value assigned to it, or the value it had. */
  ghost predicate LastWins(read: ReadNumber, before: Options, after: Options, made: seq<(string, string)>) {
    after.Keys == before.Keys &&
    forall k <- before ::
      match LastValue(made, k)
      case None => after[k] == before[k]
      case Some(value) => Assigned(read, before[k], value) == Some(after[k])
  }

  lemma {:induction false} LastOfBoth(s: seq<(string, string)>, t: seq<(string, string)>, key: string)
    ensures LastValue(s + t, key) == if LastValue(t, key).Some? then LastValue(t, key) else LastValue(s, key)
    decreases |t|
  {
    if t == [] {
      assert s + t == s;
    } else {
      var n := |t| - 1;
      assert (s + t)[..|s + t| - 1] == s + t[..n];
      LastOfBoth(s, t[..n], key);
    }
  }

  lemma WinsTransitive(read: ReadNumber, a: Options, b: Options, c: Options, s: seq<(string, string)>,
                       t: seq<(string, string)>)
    requires LastWins(read, a, b, s) && LastWins(read, b, c, t)
    ensures LastWins(read, a, c, s + t)
  {
    forall k <- a
      ensures match LastValue(s + t, k)
              case None => c[k] == a[k]
              case Some(value) => Assigned(read, a[k], value) == Some(c[k])
    {
      LastOfBoth(s, t, k);
    }
  }

  lemma {:induction false} FileAssigns(fs: Files, read: ReadNumber, options: Options, files: seq<string>)
    requires files != [] && Chain(fs, files[..|files| - 1]) && ParseFile(fs, read, options, files).error.None?
    ensures LastWins(read, options, ParseFile(fs, read, options, files).options, Flatten(fs, options.Keys, files))
    decreases |fs| + 1 - |files|, 1, 0
  {
    hide LastWins;
    var n := |files| - 1;
    ChainBound(fs, files);
    LinesAssign(fs, read, options, files, fs[files[n]]);
  }

  lemma {:induction false} LinesAssign(fs: Files, read: ReadNumber, options: Options, files: seq<string>,
                                       lines: seq<string>)
    requires files != [] && Chain(fs, files) && ParseLines(fs, read, options, files, lines).error.None?
    ensures LastWins(read, options, ParseLines(fs, read, options, files, lines).options,
                     FlattenLines(fs, options.Keys, files, lines))
    decreases |fs| + 1 - |files|, 0, |lines|
  {
    hide LastWins, ParseLine, FlattenLine;
    ChainBound(fs, files);
    if lines == [] {
      NothingAssigned(read, options);
    } else {
      var r := ParseLine(fs, read, options, files, lines[0]);
      var after := ParseLines(fs, read, r.options, files, lines[1..]).options;
      LineAssigns(fs, read, options, files, lines[0]);
      LinesAssign(fs, read, r.options, files, lines[1..]);
      WinsTransitive(read, options, r.options, after, FlattenLine(fs, options.Keys, files, lines[0]),
                     FlattenLines(fs, options.Keys, files, lines[1..]));
    }
  }

  lemma {:induction false} LineAssigns(fs: Files, read: ReadNumber, options: Options, files: seq<string>, line: string)
    requires files != [] && Chain(fs, files) && ParseLine(fs, read, options, files, line).error.None?
    ensures LastWins(read, options, ParseLine(fs, read, options, files, line).options,
                     FlattenLine(fs, options.Keys, files, line))
    decreases |fs| + 1 - |files|, 0, 0
  {
    hide LastWins;
    ChainBound(fs, files);
    var key, value := Key(line), Value(line);
    if key in options {
      OneAssigned(read, options, key, value);
    } else if key == "config" {
      assert (files + [value])[..|files|] == files;
      FileAssigns(fs, read, options, files + [value]);
    } else {
      NothingAssigned(read, options);
    }
  }

  lemma NothingAssigned(read: ReadNumber, options: Options)
    ensures LastWins(read, options, options, [])
  {
  }

  lemma OneAssigned(read: ReadNumber, options: Options, key: string, value: string)
    requires key in options && Assigned(read, options[key], value).Some?
    ensures LastWins(read, options, options[key := Assigned(read, options[key], value).value], [(key, value)])
  {
    forall k <- options ensures LastValue([(key, value)], k) == if k == key then Some(value) else None {
      assert [(key, value)][..0] == [];
    }
  }

  /** After a successful read, the options are as if all assignments reachable through
      includes had been made depth first, left to right: the last one wins. */
  lemma {:induction false} LastAssignmentWins(fs: Files, read: ReadNumber, options: Options, file: string)
    requires ParseFile(fs, read, options, [file]).error.None?
    ensures LastWins(read, options, ParseFile(fs, read, options, [file]).options, Flatten(fs, options.Keys, [file]))
  {
    FileAssigns(fs, read, options, [file]);
  }
}
