/** Extracting an archive made by the writer is placing its entries one by one below
    the target directory. */
module TreeRoundTrip {
  import opened Bytes
  import opened TarStream
  import opened TarRoundTrip
  import opened FileTree
  import opened RealPath
  import opened Extraction

  /* ---- extraction, entry by entry ---- */

  /** What extraction makes of a list of entries, without the stream in between. */
  ghost function PlaceAll(entries: seq<Entry>, fs: Nodes, cwd: Text, truePrefix: Text)
    : (r: Result<Nodes, ExtractError>)
  {
    if entries == [] then Success(fs)
    else
      var e := entries[0];
      match ExtractOne(fs, cwd, truePrefix, e.path, RecordOf(e))
      case Failure(x) => Failure(x)
      case Success(fs') => PlaceAll(entries[1..], fs', cwd, truePrefix)
  }

  ghost function EntriesOf(items: seq<Item>): (entries: seq<Entry>)
    ensures |entries| == |items|
  {
    seq(|items|, i requires 0 <= i < |items| => items[i].entry)
  }

  lemma ReadsFirst(item: Item, rest: Text, st: State)
    requires GoodItem(item) && !st.srcEof && st.src == BytesOf(item) + rest
    requires item.entry.path !in st.files
    ensures ReadUpTo(st, []) ==
            Outcome(Success(item.entry.path),
                    st.(src := rest, files := st.files[item.entry.path := RecordOf(item.entry)]))
    ensures |rest| < |st.src|
  {
    hide ReadFrom, BytesOf;
    EntryReadsBack(item, rest, st, [], 0);
  }

  /** Extracting an archive places its entries one after the other, whether or not
      records are dropped on the way. */
  lemma {:induction false} ExtractsArchive(items: seq<Item>, more: Text, st: State, fs: Nodes, cwd: Text,
                                           truePrefix: Text, drop: bool)
    requires GoodArchive(items) && !st.srcEof && !st.ended
    requires st.src == Archive(items) + (FOOTER + more)
    requires forall item <- items :: item.entry.path !in st.files
    ensures ExtractAll(st, fs, cwd, truePrefix, drop).result == PlaceAll(EntriesOf(items), fs, cwd, truePrefix)
    decreases |items|
  {
    hide BytesOf, ReadUpTo, ExtractOne, RecordOf;
    if items == [] {
      assert st.src == FOOTER + more;
      FooterEndsReading(more, st, []);
      assert ReadUpTo(st, []) == ReadFrom(st, [], 0) by { ReadUpToIs(st); }
    } else {
      var item, rest := items[0], Archive(items[1..]) + (FOOTER + more);
      assert GoodItem(item);
      assert st.src == BytesOf(item) + rest;
      ReadsFirst(item, rest, st);
      var e := item.entry;
      var read := st.(src := rest, files := st.files[e.path := RecordOf(e)]);
      assert EntriesOf(items)[0] == e && EntriesOf(items)[1..] == EntriesOf(items[1..]);
      var x := ExtractOne(fs, cwd, truePrefix, e.path, RecordOf(e));
      if x.Success? {
        var st' := Dropped(read, e.path, drop);
        forall other <- items[1..] ensures other.entry.path !in st'.files {
          var j :| 0 <= j < |items[1..]| && items[1..][j] == other;
          assert items[j + 1] == other;
        }
        ExtractsArchive(items[1..], more, st', x.value, cwd, truePrefix, drop);
      }
    }
  }

  /* ---- paths inside the target directory ---- */

  ghost predicate Closed(fs: Nodes) {
    IsDir(fs, []) && forall p :: p in fs && p != [] ==> IsDir(fs, Parent(p))
  }

  lemma {:induction false} Ancestors(fs: Nodes, p: Names, i: nat)
    requires Closed(fs) && IsDir(fs, p) && i <= |p|
    ensures IsDir(fs, p[..i])
    decreases |p| - i
  {
    if i == |p| {
      assert p[..i] == p;
    } else {
      Ancestors(fs, p, i + 1);
      assert Parent(p[..i + 1]) == p[..i];
    }
  }

  /** The text of an existing directory: its names, with or without a '/' at the end. */
  ghost predicate IsTextOf(text: Text, p: Names) {
    text != [] && (text == Join(p) || text == Join(p) + [SLASH])
  }

  lemma {:induction false} NamesResolved(full: Names, missing: bool)
    requires full != []
    ensures Assemble(Known(Parent(full)) + [Comp(full[|full| - 1], missing)]) == Join(full)
  {
    hide Assemble, Join, Known;
    var known, last := Known(Parent(full)), Comp(full[|full| - 1], missing);
    var comps := known + [last];
    forall i | 0 <= i < |comps| ensures comps[i].name == full[i] {
      assert comps[i] == if i < |known| then known[i] else last;
    }
    AssembledNames(comps, full);
  }

  lemma {:induction false} AssembledNames(comps: seq<Comp>, names: Names)
    requires |comps| == |names| > 0 && forall i :: 0 <= i < |comps| ==> comps[i].name == names[i]
    ensures Assemble(comps) == Join(names)
  {
    hide Join;
    assert NamesOf(comps) == names;
  }

  lemma DirsAbove(fs: Nodes, full: Names, i: nat)
    requires Closed(fs) && full != [] && IsDir(fs, Parent(full)) && i < |full|
    ensures IsDir(fs, full[..i])
  {
    Ancestors(fs, Parent(full), i);
    assert Parent(full)[..i] == full[..i];
  }

  lemma {:induction false} WalksPlainly(fs: Nodes, full: Names)
    requires Closed(fs) && AllNames(full) && full != [] && IsDir(fs, Parent(full)) && |full| <= LIMIT + 1
    ensures Walk(fs, [], Join(full)[1..], [], 0) ==
            Success(Known(Parent(full)) + [Comp(full[|full| - 1], full !in fs)])
  {
    hide Walk, Join, IsDir, Known;
    forall i | 0 <= i < |full| ensures IsDir(fs, [] + full[..i]) {
      DirsAbove(fs, full, i);
      assert [] + full[..i] == full[..i];
    }
    KnownNothing();
    WalkNames(fs, [], full, 0);
    assert [] + Parent(full) == Parent(full) && [] + full == full;
  }

  /** The path after its first '/', when the target's text ends in one. */
  function RestPastSlash(p: Names, names: Names): (r: Text)
    requires names != []
  {
    if p == [] then Join(names) else Join(p)[1..] + ([SLASH] + Join(names))
  }

  lemma {:induction false} ThroughTarget(fs: Nodes, p: Names, names: Names)
    requires Closed(fs) && AllNames(p) && names != [] && IsDir(fs, p) && |p| <= LIMIT
    ensures Walk(fs, [], RestPastSlash(p, names), [], 0) == Walk(fs, [], [SLASH] + Rel(names), Known(p), |p|)
  {
    hide Walk, Join, IsDir, Known, Closed;
    KnownNothing();
    JoinStarts(names);
    assert Join(names) == [SLASH] + Rel(names);
    if p != [] {
      forall i | 0 <= i <= |p| ensures IsDir(fs, [] + p[..i]) {
        Ancestors(fs, p, i);
        assert [] + p[..i] == p[..i];
      }
      assert [] + p == p;
      WalkThrough(fs, [], p, Join(names), 0);
    }
  }

  lemma {:induction false} InsideTarget(fs: Nodes, p: Names, names: Names)
    requires Closed(fs) && AllNames(p) && AllNames(names) && names != []
    requires IsDir(fs, p + Parent(names)) && |p| + |names| <= LIMIT
    ensures Walk(fs, [], [SLASH] + Rel(names), Known(p), |p|) ==
            Success(Known(p + Parent(names)) + [Comp(names[|names| - 1], p + names !in fs)])
  {
    hide Walk, Join, IsDir, Known, Closed;
    var full := p + names;
    assert Parent(full) == p + Parent(names);
    WalkSkip(fs, Rel(names), Known(p), |p|);
    forall i | 0 <= i < |names| ensures IsDir(fs, p + names[..i]) {
      DirsAbove(fs, full, |p| + i);
      assert p + names[..i] == full[..|p| + i];
    }
    WalkNames(fs, p, names, |p| + 1);
  }

  lemma {:induction false} TextInside(p: Names, truePrefix: Text, names: Names, cwd: Text)
    requires names != [] && IsTextOf(truePrefix, p)
    ensures var path := truePrefix + [SLASH] + Rel(names);
            Absolute(cwd, path) == path
            && path[1..] == (if truePrefix == Join(p) then Join(p + names)[1..] else RestPastSlash(p, names))
    ensures truePrefix <= Join(p + names)
  {
    hide Join;
    JoinStarts(p);
    JoinStarts(names);
    JoinAppend(p, names);
    assert Join(names) == [SLASH] + Rel(names);
    var path := truePrefix + [SLASH] + Rel(names);
    if truePrefix == Join(p) {
      assert path == Join(p + names);
    } else {
      assert path == Join(p) + ([SLASH] + Join(names));
      assert truePrefix <= Join(p + names);
    }
  }

  /** A path below the target whose parent exists is resolved to itself. */
  lemma {:induction false} ResolvesInside(fs: Nodes, cwd: Text, p: Names, truePrefix: Text, names: Names)
    requires Closed(fs) && AllNames(p) && AllNames(names) && names != [] && IsTextOf(truePrefix, p)
    requires IsDir(fs, p + Parent(names)) && |p| + |names| <= LIMIT
    ensures Resolved(fs, cwd, truePrefix + [SLASH] + Rel(names)) == Success(Join(p + names))
    ensures truePrefix <= Join(p + names)
  {
    hide Walk, Join, IsDir, Known, Assemble, Closed, Rel, RestPastSlash, Absolute;
    var full := p + names;
    TextInside(p, truePrefix, names, cwd);
    assert full != [] && Parent(full) == p + Parent(names) && names[|names| - 1] == full[|full| - 1];
    assert AllNames(full);
    NamesResolved(full, full !in fs);
    if truePrefix == Join(p) {
      WalksPlainly(fs, full);
    } else {
      assert IsDir(fs, p) by {
        DirsAbove(fs, full, |p|);
        assert full[..|p|] == p;
      }
      ThroughTarget(fs, p, names);
      InsideTarget(fs, p, names);
    }
  }

  lemma KnownNothing()
    ensures Known([]) == []
  {
  }
}
