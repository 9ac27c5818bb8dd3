/** What every step of the handles and the reaper keeps. */
module ReaperProofs {
  import opened Bytes
  import opened ReaperSpec

  /** During a move the record still names the old handle. */
  function Rep<H>(st: State<H>, h: H): (r: H) {
    if h in st.moving then st.moving[h] else h
  }

  /** The record of an unreaped child names the handle that stands for it. */
  predicate HeldBy<H>(st: State<H>, k: nat, x: H) {
    exists h <- st.owner :: st.owner[h] == k && Rep(st, h) == x
  }

  predicate Half<H>(st: State<H>, k: nat) {
    k < |st.children| && st.children[k].constructed != st.children[k].reaped
  }

  predicate ChildOk<H>(st: State<H>, k: nat) {
    k < |st.children| ==>
      var c := st.children[k];
      && c.pid > 0
      && (c.reaped ==> c.waited)
      && (c.waited && !c.reaped ==> st.reaping == Some(k))
      && (c.abandoned ==> c.constructed)
      && c.deliveries == (if Done(c) && !c.abandoned then 1 else 0)
  }

  predicate ReapingOk<H>(st: State<H>) {
    st.reaping.Some? ==>
      var k := st.reaping.value;
      k < |st.children| && st.children[k].waited && !st.children[k].reaped
  }

  /** Only the newest child of a pid may be unfinished. */
  predicate PidOk<H>(st: State<H>, i: nat, j: nat) {
    i < j < |st.children| && st.children[i].pid == st.children[j].pid ==> Done(st.children[i])
  }

  predicate HalfOk<H>(st: State<H>, k: nat) {
    Half(st, k) ==> st.children[k].pid in st.entry && st.entry[st.children[k].pid] == k
  }

  predicate EntryOk<H>(st: State<H>, p: Pid) {
    && (p in st.entry <==> p in st.table)
    && (p in st.entry ==>
        && Half(st, st.entry[p]) && st.children[st.entry[p]].pid == p
        && var c, r := st.children[st.entry[p]], st.table[p];
           if c.reaped then r == Record(None, c.status)
           else (r.handle.None? <==> c.abandoned) && (r.handle.Some? ==> HeldBy(st, st.entry[p], r.handle.value)))
  }

  predicate HandleOk<H>(st: State<H>, h: H) {
    && (h in st.lost ==> h in st.handles)
    && (h in st.handles && st.handles[h].child != 0 ==> h in st.owner)
    && (h in st.owner ==>
        && h in st.handles && st.owner[h] < |st.children|
        && st.handles[h].child == st.children[st.owner[h]].pid
        && st.children[st.owner[h]].constructed && !st.children[st.owner[h]].abandoned)
  }

  predicate SoleOwner<H>(st: State<H>, h1: H, h2: H) {
    h1 in st.owner && h2 in st.owner && st.owner[h1] == st.owner[h2] ==> h1 == h2
  }

  predicate MoveOk<H>(st: State<H>, t: H) {
    t in st.moving ==>
      && t in st.handles && t !in st.lost && st.moving[t] in st.handles
      && st.moving[t] !in st.moving && st.handles[st.moving[t]].child == 0
  }

  predicate SoleMove<H>(st: State<H>, t: H, u: H) {
    t in st.moving && u in st.moving && st.moving[t] == st.moving[u] ==> t == u
  }

  /** A handle is named by its record until the status arrives, and has it afterwards
      unless a late move lost it. */
  predicate StatusOk<H>(st: State<H>, h: H) {
    h in st.owner && st.owner[h] < |st.children| && Rep(st, h) in st.handles ==>
      var k, x := st.owner[h], Rep(st, h);
      var c := st.children[k];
      if !c.reaped then
        && x !in st.lost && !st.handles[x].hasExitStatus
        && c.pid in st.table && st.table[c.pid].handle == Some(x)
      else
        x !in st.lost ==> st.handles[x].hasExitStatus && st.handles[x].exitStatusValue == c.status
  }

  ghost predicate Children<H>(st: State<H>) {
    ReapingOk(st) && (forall k :: ChildOk(st, k)) && forall i, j :: PidOk(st, i, j)
  }
  ghost predicate Entries<H>(st: State<H>) { (forall p :: EntryOk(st, p)) && forall k :: HalfOk(st, k) }
  ghost predicate Owners<H>(st: State<H>) {
    (forall h <- st.handles :: HandleOk(st, h)) && (forall h <- st.owner :: HandleOk(st, h))
    && (forall h <- st.lost :: HandleOk(st, h)) && forall h1 <- st.owner, h2 <- st.owner :: SoleOwner(st, h1, h2)
  }
  ghost predicate Moves<H>(st: State<H>) {
    (forall t <- st.moving :: MoveOk(st, t)) && forall t <- st.moving, u <- st.moving :: SoleMove(st, t, u)
  }
  ghost predicate Statuses<H>(st: State<H>) { forall h <- st.owner :: StatusOk(st, h) }

  ghost predicate Inv<H>(st: State<H>) {
    Children(st) && Entries(st) && Owners(st) && Moves(st) && Statuses(st)
  }

  /* ---- consequences ---- */

  lemma Unfinished<H>(st: State<H>, i: nat, j: nat)
    requires Children(st) && i < |st.children| && j < |st.children| && st.children[i].pid == st.children[j].pid
    requires !Done(st.children[i]) && !Done(st.children[j])
    ensures i == j
  {
    assert PidOk(st, i, j) && PidOk(st, j, i);
  }

  /** The record of a pid is the record of its unfinished child. */
  lemma TableOf<H>(st: State<H>, k: nat)
    requires Children(st) && Entries(st) && k < |st.children| && !Done(st.children[k])
    ensures st.children[k].pid in st.table <==> Half(st, k)
    ensures Half(st, k) ==> st.children[k].pid in st.entry && st.entry[st.children[k].pid] == k
    ensures EntryOk(st, st.children[k].pid)
    ensures ChildOk(st, k)
  {
    var p := st.children[k].pid;
    assert EntryOk(st, p) && HalfOk(st, k) && ChildOk(st, k);
    if p in st.table {
      Unfinished(st, k, st.entry[p]);
    }
  }

  lemma SoleRep<H>(st: State<H>, x: H, y: H)
    requires Children(st) && Owners(st) && Moves(st) && x in st.owner && y in st.owner && Rep(st, x) == Rep(st, y)
    ensures x == y
  {
    assert HandleOk(st, x) && HandleOk(st, y) && MoveOk(st, x) && MoveOk(st, y) && SoleMove(st, x, y);
    assert ChildOk(st, st.owner[x]) && ChildOk(st, st.owner[y]);
  }

  lemma HeldStill<H>(st: State<H>, st': State<H>, k: nat, x: H)
    requires forall h :: h in st.owner && st.owner[h] == k && Rep(st, h) == x ==>
               h in st'.owner && st'.owner[h] == k && Rep(st', h) == x
    ensures HeldBy(st, k, x) ==> HeldBy(st', k, x)
  {
  }

  /** A record that names a settled handle is the record of that handle's child, which
      has not been reaped. */
  lemma NamesOwner<H>(st: State<H>, p: Pid, h: H)
    requires Inv(st) && p in st.table && st.table[p].handle == Some(h) && !Busy(st, h)
    ensures h in st.owner && p in st.entry && st.owner[h] == st.entry[p]
    ensures Half(st, st.owner[h]) && st.children[st.owner[h]].pid == p && !st.children[st.owner[h]].reaped
    ensures h in st.handles && !st.handles[h].hasExitStatus && st.handles[h].child == p
  {
    assert EntryOk(st, p);
    var z :| z in st.owner && st.owner[z] == st.entry[p] && Rep(st, z) == h;
    assert z == h;
    assert HandleOk(st, h) && StatusOk(st, h);
  }

  lemma SpawnChildren<H>(st: State<H>, pid: Pid)
    requires Inv(st) && Enabled(st, Spawn(pid))
    ensures Children(Apply(st, Spawn(pid)))
  {
    var st' := Apply(st, Spawn(pid));
    assert ReapingOk(st);
    forall i: nat ensures ChildOk(st', i) {
      assert ChildOk(st, i);
    }
    forall i: nat, j: nat ensures PidOk(st', i, j) {
      assert PidOk(st, i, j);
    }
  }

  lemma SpawnEntries<H>(st: State<H>, pid: Pid)
    requires Inv(st) && Enabled(st, Spawn(pid))
    ensures Entries(Apply(st, Spawn(pid)))
  {
    var st' := Apply(st, Spawn(pid));
    forall p: Pid ensures EntryOk(st', p) {
      assert EntryOk(st, p);
    }
    forall i: nat ensures HalfOk(st', i) {
      assert HalfOk(st, i);
    }
  }

  lemma SpawnOwners<H>(st: State<H>, pid: Pid)
    requires Inv(st) && Enabled(st, Spawn(pid))
    ensures Owners(Apply(st, Spawn(pid)))
  {
    var st' := Apply(st, Spawn(pid));
    forall x ensures HandleOk(st', x) {
      assert HandleOk(st, x);
    }
    forall x, y ensures SoleOwner(st', x, y) {
      assert SoleOwner(st, x, y);
    }
  }

  lemma SpawnMoves<H>(st: State<H>, pid: Pid)
    requires Inv(st) && Enabled(st, Spawn(pid))
    ensures Moves(Apply(st, Spawn(pid)))
  {
    var st' := Apply(st, Spawn(pid));
    forall t ensures MoveOk(st', t) {
      assert MoveOk(st, t);
    }
    forall t, u ensures SoleMove(st', t, u) {
      assert SoleMove(st, t, u);
    }
  }

  lemma SpawnStatuses<H>(st: State<H>, pid: Pid)
    requires Inv(st) && Enabled(st, Spawn(pid))
    ensures Statuses(Apply(st, Spawn(pid)))
  {
    var st' := Apply(st, Spawn(pid));
    forall x ensures StatusOk(st', x) {
      assert StatusOk(st, x) && HandleOk(st, x) && MoveOk(st, x);
      assert Rep(st', x) == Rep(st, x);
    }
  }

  lemma WaitChildren<H>(st: State<H>, k: nat, status: byte)
    requires Inv(st) && Enabled(st, Wait(k, status))
    ensures Children(Apply(st, Wait(k, status)))
  {
    var st' := Apply(st, Wait(k, status));
    assert ChildOk(st, k);
    assert ReapingOk(st);
    forall i: nat ensures ChildOk(st', i) {
      assert ChildOk(st, i);
    }
    forall i: nat, j: nat ensures PidOk(st', i, j) {
      assert PidOk(st, i, j);
    }
  }

  lemma WaitEntries<H>(st: State<H>, k: nat, status: byte)
    requires Inv(st) && Enabled(st, Wait(k, status))
    ensures Entries(Apply(st, Wait(k, status)))
  {
    var st' := Apply(st, Wait(k, status));
    assert ChildOk(st, k);
    forall p: Pid ensures EntryOk(st', p) {
      assert EntryOk(st, p);
      if p in st.entry && st.table[p].handle.Some? {
        HeldStill(st, st', st.entry[p], st.table[p].handle.value);
      }
    }
    forall i: nat ensures HalfOk(st', i) {
      assert HalfOk(st, i);
    }
  }

  lemma WaitOwners<H>(st: State<H>, k: nat, status: byte)
    requires Inv(st) && Enabled(st, Wait(k, status))
    ensures Owners(Apply(st, Wait(k, status)))
  {
    var st' := Apply(st, Wait(k, status));
    forall x ensures HandleOk(st', x) {
      assert HandleOk(st, x);
    }
    forall x, y ensures SoleOwner(st', x, y) {
      assert SoleOwner(st, x, y);
    }
  }

  lemma WaitMoves<H>(st: State<H>, k: nat, status: byte)
    requires Inv(st) && Enabled(st, Wait(k, status))
    ensures Moves(Apply(st, Wait(k, status)))
  {
    var st' := Apply(st, Wait(k, status));
    forall t ensures MoveOk(st', t) {
      assert MoveOk(st, t);
    }
    forall t, u ensures SoleMove(st', t, u) {
      assert SoleMove(st, t, u);
    }
  }

  lemma WaitStatuses<H>(st: State<H>, k: nat, status: byte)
    requires Inv(st) && Enabled(st, Wait(k, status))
    ensures Statuses(Apply(st, Wait(k, status)))
  {
    var st' := Apply(st, Wait(k, status));
    assert ChildOk(st, k);
    forall x ensures StatusOk(st', x) {
      assert StatusOk(st, x) && HandleOk(st, x) && MoveOk(st, x);
      assert Rep(st', x) == Rep(st, x);
    }
  }

  lemma ConstructChildren<H>(st: State<H>, h: H, k: nat, junk: byte)
    requires Inv(st) && h !in st.handles && k < |st.children| && !st.children[k].constructed
    ensures Children(Constructed(st, h, k, junk))
  {
    var st' := Constructed(st, h, k, junk);
    TableOf(st, k);
    assert ReapingOk(st);
    forall i: nat ensures ChildOk(st', i) {
      assert ChildOk(st, i);
    }
    forall i: nat, j: nat ensures PidOk(st', i, j) {
      assert PidOk(st, i, j);
    }
  }

  lemma ConstructEntries<H>(st: State<H>, h: H, k: nat, junk: byte)
    requires Inv(st) && h !in st.handles && k < |st.children| && !st.children[k].constructed
    ensures Entries(Constructed(st, h, k, junk))
  {
    hide Statuses;
    var st' := Constructed(st, h, k, junk);
    TableOf(st, k);
    assert HandleOk(st, h) && MoveOk(st, h);
    assert h !in st.owner && h !in st.moving;
    assert HeldBy(st', k, h) by {
      assert h in st'.owner && st'.owner[h] == k && Rep(st', h) == h;
    }
    forall p: Pid ensures EntryOk(st', p) {
      assert EntryOk(st, p);
      if p in st.entry && p in st'.entry && p != st.children[k].pid && st.table[p].handle.Some? {
        HeldStill(st, st', st.entry[p], st.table[p].handle.value);
      }
    }
    forall i: nat ensures HalfOk(st', i) {
      assert HalfOk(st, i);
      if i < |st.children| && st.children[i].pid == st.children[k].pid && !Done(st.children[i]) {
        Unfinished(st, i, k);
      }
    }
  }

  lemma ConstructOwners<H>(st: State<H>, h: H, k: nat, junk: byte)
    requires Inv(st) && h !in st.handles && k < |st.children| && !st.children[k].constructed
    ensures Owners(Constructed(st, h, k, junk))
  {
    hide Moves, Statuses;
    var st' := Constructed(st, h, k, junk);
    TableOf(st, k);
    forall x ensures HandleOk(st', x) {
      assert HandleOk(st, x);
    }
    forall x, y ensures SoleOwner(st', x, y) {
      assert SoleOwner(st, x, y) && HandleOk(st, x) && HandleOk(st, y);
    }
  }

  lemma ConstructMoves<H>(st: State<H>, h: H, k: nat, junk: byte)
    requires Inv(st) && h !in st.handles && k < |st.children| && !st.children[k].constructed
    ensures Moves(Constructed(st, h, k, junk))
  {
    var st' := Constructed(st, h, k, junk);
    forall t ensures MoveOk(st', t) {
      assert MoveOk(st, t);
    }
    forall t, u ensures SoleMove(st', t, u) {
      assert SoleMove(st, t, u);
    }
  }

  lemma ConstructStatuses<H>(st: State<H>, h: H, k: nat, junk: byte)
    requires Inv(st) && h !in st.handles && k < |st.children| && !st.children[k].constructed
    ensures Statuses(Constructed(st, h, k, junk))
  {
    hide Entries;
    var st' := Constructed(st, h, k, junk);
    TableOf(st, k);
    assert HandleOk(st, h) && MoveOk(st, h);
    assert h !in st.owner && h !in st.moving;
    forall x ensures StatusOk(st', x) {
      assert StatusOk(st, x) && HandleOk(st, x) && MoveOk(st, x);
      assert x in st.owner ==> PidOk(st, st.owner[x], k) && PidOk(st, k, st.owner[x]);
    }
  }

  lemma DeliverChildren<H>(st: State<H>)
    requires Inv(st) && st.reaping.Some? && st.reaping.value < |st.children|
    ensures Children(Delivered(st))
  {
    var st' := Delivered(st);
    assert ReapingOk(st);
    TableOf(st, st.reaping.value);
    forall i: nat ensures ChildOk(st', i) {
      assert ChildOk(st, i);
    }
    forall i: nat, j: nat ensures PidOk(st', i, j) {
      assert PidOk(st, i, j);
    }
  }

  lemma DeliverEntries<H>(st: State<H>)
    requires Inv(st) && st.reaping.Some? && st.reaping.value < |st.children|
    ensures Entries(Delivered(st))
  {
    hide Statuses, Moves, Owners;
    var st' := Delivered(st);
    assert ReapingOk(st);
    var k := st.reaping.value;
    TableOf(st, k);
    forall p: Pid ensures EntryOk(st', p) {
      assert EntryOk(st, p);
      if p in st.entry && st.table[p].handle.Some? {
        HeldStill(st, st', st.entry[p], st.table[p].handle.value);
      }
    }
    forall i: nat ensures HalfOk(st', i) {
      assert HalfOk(st, i);
      if i < |st.children| && st.children[i].pid == st.children[k].pid && !Done(st.children[i]) {
        Unfinished(st, i, k);
      }
    }
  }

  lemma DeliverOwners<H>(st: State<H>)
    requires Inv(st) && st.reaping.Some? && st.reaping.value < |st.children|
    ensures Owners(Delivered(st))
  {
    hide Children, Entries, Moves, Statuses;
    var st' := Delivered(st);
    forall x ensures HandleOk(st', x) {
      assert HandleOk(st, x);
    }
    forall x, y ensures SoleOwner(st', x, y) {
      assert SoleOwner(st, x, y);
    }
  }

  lemma DeliverMoves<H>(st: State<H>)
    requires Inv(st) && st.reaping.Some? && st.reaping.value < |st.children|
    ensures Moves(Delivered(st))
  {
    var st' := Delivered(st);
    forall t ensures MoveOk(st', t) {
      assert MoveOk(st, t);
    }
    forall t, u ensures SoleMove(st', t, u) {
      assert SoleMove(st, t, u);
    }
  }

  lemma DeliverStatuses<H>(st: State<H>)
    requires Inv(st) && st.reaping.Some? && st.reaping.value < |st.children|
    ensures Statuses(Delivered(st))
  {
    var st' := Delivered(st);
    assert ReapingOk(st);
    var k := st.reaping.value;
    TableOf(st, k);
    forall x ensures StatusOk(st', x) {
      assert StatusOk(st, x) && HandleOk(st, x) && MoveOk(st, x);
      if x in st.owner {
        var j, y := st.owner[x], Rep(st, x);
        if j != k && !Done(st.children[j]) && st.children[j].pid == st.children[k].pid {
          Unfinished(st, j, k);
        }
        if st.children[k].pid in st.table && HeldBy(st, k, y) && j != k {
          var z :| z in st.owner && st.owner[z] == k && Rep(st, z) == y;
          SoleRep(st, x, z);
        }
      }
    }
  }

  lemma MoveStartChildren<H>(st: State<H>, target: H, source: H, garbage: bool, junk: byte)
    requires Inv(st) && target !in st.handles && source in st.handles && !Busy(st, source)
    ensures Children(MoveStarted(st, target, source, garbage, junk))
  {
    var st' := MoveStarted(st, target, source, garbage, junk);
    assert ReapingOk(st);
    forall i: nat ensures ChildOk(st', i) {
      assert ChildOk(st, i);
    }
    forall i: nat, j: nat ensures PidOk(st', i, j) {
      assert PidOk(st, i, j);
    }
  }

  lemma MoveStartEntries<H>(st: State<H>, target: H, source: H, garbage: bool, junk: byte)
    requires Inv(st) && target !in st.handles && source in st.handles && !Busy(st, source)
    ensures Entries(MoveStarted(st, target, source, garbage, junk))
  {
    var st' := MoveStarted(st, target, source, garbage, junk);
    assert MoveOk(st, target) && MoveOk(st, source);
    forall p: Pid ensures EntryOk(st', p) {
      assert EntryOk(st, p);
      if p in st.entry && st.table[p].handle.Some? {
        var k, y := st.entry[p], st.table[p].handle.value;
        if HeldBy(st, k, y) {
          var z :| z in st.owner && st.owner[z] == k && Rep(st, z) == y;
          var z' := if z == source then target else z;
          assert HandleOk(st, z) && z' in st'.owner && st'.owner[z'] == k && Rep(st', z') == y;
        }
      }
    }
    forall i: nat ensures HalfOk(st', i) {
      assert HalfOk(st, i);
    }
  }

  lemma MoveStartOwners<H>(st: State<H>, target: H, source: H, garbage: bool, junk: byte)
    requires Inv(st) && target !in st.handles && source in st.handles && !Busy(st, source)
    ensures Owners(MoveStarted(st, target, source, garbage, junk))
  {
    hide Children, Entries, Moves, Statuses;
    var st' := MoveStarted(st, target, source, garbage, junk);
    assert HandleOk(st, source) && HandleOk(st, target);
    forall x ensures HandleOk(st', x) {
      assert HandleOk(st, x);
    }
    forall x, y ensures SoleOwner(st', x, y) {
      assert SoleOwner(st, x, y) && SoleOwner(st, source, y) && SoleOwner(st, x, source);
    }
  }

  lemma MoveStartMoves<H>(st: State<H>, target: H, source: H, garbage: bool, junk: byte)
    requires Inv(st) && target !in st.handles && source in st.handles && !Busy(st, source)
    ensures Moves(MoveStarted(st, target, source, garbage, junk))
  {
    var st' := MoveStarted(st, target, source, garbage, junk);
    assert HandleOk(st, source) && HandleOk(st, target) && MoveOk(st, source) && MoveOk(st, target);
    forall t ensures MoveOk(st', t) {
      assert MoveOk(st, t);
    }
    forall t, u ensures SoleMove(st', t, u) {
      assert SoleMove(st, t, u);
    }
  }

  lemma MoveStartStatuses<H>(st: State<H>, target: H, source: H, garbage: bool, junk: byte)
    requires Inv(st) && target !in st.handles && source in st.handles && !Busy(st, source)
    ensures Statuses(MoveStarted(st, target, source, garbage, junk))
  {
    hide Children, Entries;
    var st' := MoveStarted(st, target, source, garbage, junk);
    assert HandleOk(st, target) && HandleOk(st, source) && MoveOk(st, target) && MoveOk(st, source);
    forall x ensures StatusOk(st', x) {
      assert StatusOk(st, x) && HandleOk(st, x) && MoveOk(st, x);
      if x == target && x in st'.owner {
        assert StatusOk(st, source) && HandleOk(st, source);
      }
    }
  }

  lemma MoveFinishChildren<H>(st: State<H>, target: H)
    requires Inv(st) && target in st.moving && target in st.handles && st.moving[target] in st.handles
    ensures Children(MoveFinished(st, target))
  {
    var st' := MoveFinished(st, target);
    assert ReapingOk(st);
    forall i: nat ensures ChildOk(st', i) {
      assert ChildOk(st, i);
    }
    forall i: nat, j: nat ensures PidOk(st', i, j) {
      assert PidOk(st, i, j);
    }
  }

  lemma MoveFinishEntries<H>(st: State<H>, target: H)
    requires Inv(st) && target in st.moving && target in st.handles && st.moving[target] in st.handles
    ensures Entries(MoveFinished(st, target))
  {
    hide Statuses;
    var st' := MoveFinished(st, target);
    assert HandleOk(st, target) && MoveOk(st, target);
    if target in st.owner {
      assert ChildOk(st, st.owner[target]);
    }
    forall p: Pid ensures EntryOk(st', p) {
      assert EntryOk(st, p);
      if p in st.entry && st.table[p].handle.Some? {
        var k, y := st.entry[p], st.table[p].handle.value;
        if HeldBy(st, k, y) {
          var z :| z in st.owner && st.owner[z] == k && Rep(st, z) == y;
          assert HandleOk(st, z);
          if y == st.moving[target] && target in st.owner {
            SoleRep(st, z, target);
          }
          assert z in st'.owner && st'.owner[z] == k && Rep(st', z) == if z == target then target else y;
        }
      }
    }
    forall i: nat ensures HalfOk(st', i) {
      assert HalfOk(st, i);
    }
  }

  lemma MoveFinishOwners<H>(st: State<H>, target: H)
    requires Inv(st) && target in st.moving && target in st.handles && st.moving[target] in st.handles
    ensures Owners(MoveFinished(st, target))
  {
    var st' := MoveFinished(st, target);
    forall x ensures HandleOk(st', x) {
      assert HandleOk(st, x);
    }
    forall x, y ensures SoleOwner(st', x, y) {
      assert SoleOwner(st, x, y);
    }
  }

  lemma MoveFinishMoves<H>(st: State<H>, target: H)
    requires Inv(st) && target in st.moving && target in st.handles && st.moving[target] in st.handles
    ensures Moves(MoveFinished(st, target))
  {
    var st' := MoveFinished(st, target);
    forall t ensures MoveOk(st', t) {
      assert MoveOk(st, t);
    }
    forall t, u ensures SoleMove(st', t, u) {
      assert SoleMove(st, t, u);
    }
  }

  /** The handle that a finished move leaves. */
  lemma MoveFinishTarget<H>(st: State<H>, target: H)
    requires Inv(st) && target in st.moving && target in st.handles && st.moving[target] in st.handles
    ensures target in st.owner ==> StatusOk(MoveFinished(st, target), target)
  {
    hide Entries;
    assert HandleOk(st, target) && MoveOk(st, target) && StatusOk(st, target);
    if target in st.owner {
      assert ChildOk(st, st.owner[target]);
    }
  }

  lemma MoveFinishOther<H>(st: State<H>, target: H, x: H)
    requires Inv(st) && target in st.moving && target in st.handles && st.moving[target] in st.handles
    requires x in st.owner && x != target
    ensures StatusOk(MoveFinished(st, target), x)
  {
    hide Entries;
    var st', source := MoveFinished(st, target), st.moving[target];
    assert HandleOk(st, target) && MoveOk(st, target) && StatusOk(st, x) && HandleOk(st, x) && MoveOk(st, x);
    assert Rep(st, x) != target && Rep(st', x) == Rep(st, x);
    if target in st.owner {
      assert Rep(st, x) == source ==> x == target by {
        if Rep(st, x) == source {
          SoleRep(st, x, target);
        }
      }
    }
  }

  lemma MoveFinishStatuses<H>(st: State<H>, target: H)
    requires Inv(st) && target in st.moving && target in st.handles && st.moving[target] in st.handles
    ensures Statuses(MoveFinished(st, target))
  {
    var st' := MoveFinished(st, target);
    assert st'.owner == st.owner;
    hide Inv, StatusOk, MoveFinished;
    MoveFinishTarget(st, target);
    forall x | x in st'.owner ensures StatusOk(st', x) {
      if x != target {
        MoveFinishOther(st, target, x);
      }
    }
  }

  lemma DestroyChildren<H>(st: State<H>, h: H)
    requires Inv(st) && h in st.handles && !Busy(st, h)
    ensures Children(Destroyed(st, h))
  {
    hide Entries, Moves, Statuses;
    var st' := Destroyed(st, h);
    assert HandleOk(st, h);
    assert ReapingOk(st);
    forall i: nat ensures ChildOk(st', i) {
      assert ChildOk(st, i);
    }
    forall i: nat, j: nat ensures PidOk(st', i, j) {
      assert PidOk(st, i, j);
    }
  }

  lemma DestroyEntries<H>(st: State<H>, h: H)
    requires Inv(st) && h in st.handles && !Busy(st, h)
    ensures Entries(Destroyed(st, h))
  {
    var st' := Destroyed(st, h);
    var q := st.handles[h].child;
    if q in st.table && st.table[q].handle == Some(h) {
      NamesOwner(st, q, h);
    }
    assert HandleOk(st, h) && StatusOk(st, h) && MoveOk(st, h);
    if h in st.owner {
      assert ChildOk(st, st.owner[h]);
    }
    forall p: Pid ensures EntryOk(st', p) {
      assert EntryOk(st, p);
      if p in st.entry && st.table[p].handle.Some? {
        var k, y := st.entry[p], st.table[p].handle.value;
        if HeldBy(st, k, y) {
          var z :| z in st.owner && st.owner[z] == k && Rep(st, z) == y;
          assert HandleOk(st, z);
          if y == h {
            assert MoveOk(st, z);
          } else {
            assert z in st'.owner && st'.owner[z] == k && Rep(st', z) == y;
          }
        }
      }
    }
    forall i: nat ensures HalfOk(st', i) {
      assert HalfOk(st, i);
    }
  }

  lemma DestroyOwners<H>(st: State<H>, h: H)
    requires Inv(st) && h in st.handles && !Busy(st, h)
    ensures Owners(Destroyed(st, h))
  {
    hide Children, Entries, Moves, Statuses;
    var st' := Destroyed(st, h);
    forall x ensures HandleOk(st', x) {
      assert HandleOk(st, x) && SoleOwner(st, x, h);
    }
    forall x, y ensures SoleOwner(st', x, y) {
      assert SoleOwner(st, x, y);
    }
  }

  lemma DestroyMoves<H>(st: State<H>, h: H)
    requires Inv(st) && h in st.handles && !Busy(st, h)
    ensures Moves(Destroyed(st, h))
  {
    var st' := Destroyed(st, h);
    forall t ensures MoveOk(st', t) {
      assert MoveOk(st, t);
    }
    forall t, u ensures SoleMove(st', t, u) {
      assert SoleMove(st, t, u);
    }
  }

  lemma DestroyStatuses<H>(st: State<H>, h: H)
    requires Inv(st) && h in st.handles && !Busy(st, h)
    ensures Statuses(Destroyed(st, h))
  {
    hide Children, Entries;
    var st' := Destroyed(st, h);
    assert HandleOk(st, h) && h !in st.moving && forall t <- st.moving :: st.moving[t] != h;
    hide Busy;
    forall x | x in st'.owner ensures StatusOk(st', x) {
      assert StatusOk(st, x) && HandleOk(st, x) && MoveOk(st, x) && SoleOwner(st, x, h);
      var y := Rep(st, x);
      assert y != h && Rep(st', x) == y;
      DestroySpares(st, h, st.owner[x]);
    }
  }

  lemma DestroySpares<H>(st: State<H>, h: H, k: nat)
    requires h in st.handles && k < |st.children| && (h in st.owner ==> st.owner[h] != k)
    ensures Destroyed(st, h).children[k] == st.children[k]
    ensures var p := st.children[k].pid;
            p in st.table && st.table[p].handle != Some(h) ==>
              p in Destroyed(st, h).table && Destroyed(st, h).table[p] == st.table[p]
  {
  }

  lemma StepKeeps<H>(st: State<H>, step: Step<H>)
    requires Inv(st) && Enabled(st, step)
    ensures Inv(Apply(st, step))
  {
    hide Children, Entries, Owners, Moves, Statuses, Busy, Constructed, Delivered, MoveStarted, MoveFinished, Destroyed;
    match step
    case Spawn(pid) =>
      SpawnChildren(st, pid);
      SpawnEntries(st, pid);
      SpawnOwners(st, pid);
      SpawnMoves(st, pid);
      SpawnStatuses(st, pid);
    case Construct(h, k, junk) =>
      ConstructChildren(st, h, k, junk);
      ConstructEntries(st, h, k, junk);
      ConstructOwners(st, h, k, junk);
      ConstructMoves(st, h, k, junk);
      ConstructStatuses(st, h, k, junk);
    case Wait(k, status) =>
      WaitChildren(st, k, status);
      WaitEntries(st, k, status);
      WaitOwners(st, k, status);
      WaitMoves(st, k, status);
      WaitStatuses(st, k, status);
    case Deliver =>
      DeliverChildren(st);
      DeliverEntries(st);
      DeliverOwners(st);
      DeliverMoves(st);
      DeliverStatuses(st);
    case MoveStart(target, source, garbage, junk) =>
      MoveStartChildren(st, target, source, garbage, junk);
      MoveStartEntries(st, target, source, garbage, junk);
      MoveStartOwners(st, target, source, garbage, junk);
      MoveStartMoves(st, target, source, garbage, junk);
      MoveStartStatuses(st, target, source, garbage, junk);
    case MoveFinish(target) =>
      MoveFinishChildren(st, target);
      MoveFinishEntries(st, target);
      MoveFinishOwners(st, target);
      MoveFinishMoves(st, target);
      MoveFinishStatuses(st, target);
    case Destroy(h) =>
      DestroyChildren(st, h);
      DestroyEntries(st, h);
      DestroyOwners(st, h);
      DestroyMoves(st, h);
      DestroyStatuses(st, h);
  }
}
