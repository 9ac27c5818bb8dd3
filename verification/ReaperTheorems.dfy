/** What holds after every run of handles and the reaper, in any interleaving. */
module ReaperTheorems {
  import opened Bytes
  import opened ReaperSpec
  import opened ReaperProofs

  lemma {:induction false} EveryRun<H>(st: State<H>, steps: seq<Step<H>>)
    requires Inv(st) && CanRun(st, steps)
    ensures Inv(Run(st, steps))
    decreases |steps|
  {
    hide Inv, Enabled, Apply;
    if steps != [] {
      StepKeeps(st, steps[0]);
      EveryRun(Apply(st, steps[0]), steps[1..]);
    }
  }

  lemma StartsWell<H>()
    ensures Inv(Start<H>())
  {
  }

  /** What every run keeps. A pid is in the table exactly while one side, handle or
      reaper, is through with one of its children and the other is not; the record
      waits with the status, or names the one live handle of the child (during a
      move, the handle moved from), or names none because the handle was destroyed. */
  lemma {:induction false} TableMeansHalfDone<H>(steps: seq<Step<H>>, p: Pid)
    requires CanRun(Start<H>(), steps)
    ensures var st := Run(Start<H>(), steps);
            && (p in st.table ==> exists k: nat :: Half(st, k) && RecordTells(st, k, p))
            && forall k: nat :: Half(st, k) && st.children[k].pid == p ==> p in st.table && RecordTells(st, k, p)
  {
    var st := Run(Start<H>(), steps);
    StartsWell<H>();
    EveryRun(Start<H>(), steps);
    assert EntryOk(st, p);
    assert forall k: nat :: Half(st, k) ==> HalfOk(st, k);
    if p in st.table {
      assert Half(st, st.entry[p]) && RecordTells(st, st.entry[p], p);
    }
  }

  predicate RecordTells<H>(st: State<H>, k: nat, p: Pid)
    requires Half(st, k)
  {
    p == st.children[k].pid && p in st.table &&
    var c, r := st.children[k], st.table[p];
    if c.reaped then r == Record(None, c.status)
    else if c.abandoned then r.handle.None?
    else r.handle.Some? && HeldBy(st, k, r.handle.value)
  }

  /** Every pointer in the table is good: it names a live handle which owns the pid, or
      is just handing it to the handle that a move is constructing. */
  lemma {:induction false} NoDanglingPointer<H>(steps: seq<Step<H>>, p: Pid, x: H)
    requires CanRun(Start<H>(), steps)
    ensures var st := Run(Start<H>(), steps);
            p in st.table && st.table[p].handle == Some(x) ==>
              && x in st.handles && !st.handles[x].hasExitStatus
              && exists h <- st.owner :: Rep(st, h) == x && h in st.handles && st.handles[h].child == p
  {
    var st := Run(Start<H>(), steps);
    StartsWell<H>();
    EveryRun(Start<H>(), steps);
    assert EntryOk(st, p);
    if p in st.table && st.table[p].handle == Some(x) {
      var h :| h in st.owner && st.owner[h] == st.entry[p] && Rep(st, h) == x;
      assert HandleOk(st, h) && MoveOk(st, h) && StatusOk(st, h);
    }
  }

  /** The assertion in both constructors holds: no other handle is in the record. */
  lemma {:induction false} NoPidCollision<H>(steps: seq<Step<H>>, h: H, k: nat, junk: byte)
    requires CanRun(Start<H>(), steps) && Enabled(Run(Start<H>(), steps), Construct(h, k, junk))
    ensures var st := Run(Start<H>(), steps);
            st.children[k].pid in st.table ==> st.table[st.children[k].pid] == Record(None, st.children[k].status)
  {
    var st := Run(Start<H>(), steps);
    StartsWell<H>();
    EveryRun(Start<H>(), steps);
    TableOf(st, k);
  }

  /** Delivery: at most once for every child, and exactly once when both sides are
      through with it and its handle was not destroyed before. */
  lemma {:induction false} DeliveredOnce<H>(steps: seq<Step<H>>, k: nat)
    requires CanRun(Start<H>(), steps) && k < |Run(Start<H>(), steps).children|
    ensures var c := Run(Start<H>(), steps).children[k];
            c.deliveries == if c.constructed && c.reaped && !c.abandoned then 1 else 0
  {
    StartsWell<H>();
    EveryRun(Start<H>(), steps);
    assert ChildOk(Run(Start<H>(), steps), k);
  }

  /** A settled handle has no status before its child is reaped, and has its child's
      afterwards, unless it came out of a late move. */
  lemma {:induction false} HandleHasStatus<H>(steps: seq<Step<H>>, h: H)
    requires CanRun(Start<H>(), steps)
    ensures var st := Run(Start<H>(), steps);
            h in st.handles && st.handles[h].child != 0 && h !in st.moving && h !in st.lost ==>
              && h in st.owner && st.owner[h] < |st.children|
              && var c := st.children[st.owner[h]];
                 && st.handles[h].child == c.pid
                 && (st.handles[h].hasExitStatus <==> c.reaped)
                 && (c.reaped ==> st.handles[h].exitStatusValue == c.status && c.deliveries == 1)
  {
    var st := Run(Start<H>(), steps);
    StartsWell<H>();
    EveryRun(Start<H>(), steps);
    assert HandleOk(st, h) && StatusOk(st, h);
    if h in st.owner {
      assert ChildOk(st, st.owner[h]);
    }
  }

  /* ---- what a move does to the status ---- */

  /** The handle's fields say what its child did. */
  predicate Right<H>(st: State<H>, h: H) {
    && h in st.owner && h in st.handles && st.owner[h] < |st.children|
    && st.handles[h].child == st.children[st.owner[h]].pid
    && Tells(st.handles[h], st.children[st.owner[h]])
  }

  predicate Tells(handle: Handle, c: Child) {
    (handle.hasExitStatus <==> c.reaped) && (c.reaped ==> handle.exitStatusValue == c.status)
  }

  /** Another child with the same pid is between its handle's construction and its reaping. */
  ghost predicate PidInUseAgain<H>(st: State<H>, k: nat) {
    k < |st.children| && exists j: nat :: j != k && Half(st, j) && st.children[j].pid == st.children[k].pid
  }

  /** A move under way: the new handle as its constructor left it, and the old one with
      what is known of the child. */
  ghost predicate UnderWay<H>(st: State<H>, target: H, source: H, k: nat, left: Handle) {
    && target in st.moving && st.moving[target] == source && target in st.owner && st.owner[target] == k
    && k < |st.children| && st.children[k].pid == left.child
    && target in st.handles && st.handles[target] == left
    && source in st.handles && Tells(st.handles[source], st.children[k])
  }

  lemma MoveIsUnderWay<H>(st: State<H>, target: H, source: H, garbage: bool, junk: byte)
    requires Inv(st) && Enabled(st, MoveStart(target, source, garbage, junk)) && Right(st, source)
    ensures UnderWay(Apply(st, MoveStart(target, source, garbage, junk)), target, source, st.owner[source],
                     Handle(st.handles[source].child, garbage, junk))
  {
  }

  /** Until its callback the new handle is not touched, whatever else happens. */
  lemma StaysUnderWay<H>(st: State<H>, step: Step<H>, target: H, source: H, k: nat, left: Handle)
    requires Inv(st) && Enabled(st, step) && step != MoveFinish(target) && UnderWay(st, target, source, k, left)
    ensures UnderWay(Apply(st, step), target, source, k, left)
  {
    hide Inv, UnderWay, Constructed, Delivered, MoveStarted, MoveFinished, Destroyed;
    match step
    case Spawn(pid) => SpawnedMeanwhile(st, pid, target, source, k, left);
    case Construct(h, i, junk) => ConstructedMeanwhile(st, h, i, junk, target, source, k, left);
    case Wait(i, status) => WaitedMeanwhile(st, i, status, target, source, k, left);
    case Deliver => DeliveredToSource(st, target, source, k, left);
    case MoveStart(t, s, garbage, junk) => StartedMeanwhile(st, t, s, garbage, junk, target, source, k, left);
    case MoveFinish(t) => FinishedMeanwhile(st, t, target, source, k, left);
    case Destroy(h) => DestroyedMeanwhile(st, h, target, source, k, left);
  }

  lemma SpawnedMeanwhile<H>(st: State<H>, pid: Pid, target: H, source: H, k: nat, left: Handle)
    requires Inv(st) && Enabled(st, Spawn(pid)) && UnderWay(st, target, source, k, left)
    ensures UnderWay(Apply(st, Spawn(pid)), target, source, k, left)
  {
  }

  lemma ConstructedMeanwhile<H>(st: State<H>, h: H, i: nat, junk: byte, target: H, source: H, k: nat, left: Handle)
    requires Inv(st) && Enabled(st, Construct(h, i, junk)) && UnderWay(st, target, source, k, left)
    ensures UnderWay(Constructed(st, h, i, junk), target, source, k, left)
  {
    hide Inv;
  }

  lemma WaitedMeanwhile<H>(st: State<H>, i: nat, status: byte, target: H, source: H, k: nat, left: Handle)
    requires Inv(st) && Enabled(st, Wait(i, status)) && UnderWay(st, target, source, k, left)
    ensures UnderWay(Apply(st, Wait(i, status)), target, source, k, left)
  {
    hide Entries, Owners, Moves, Statuses;
    assert ChildOk(st, k);
  }

  lemma StartedMeanwhile<H>(st: State<H>, t: H, s: H, garbage: bool, junk: byte, target: H, source: H, k: nat,
                            left: Handle)
    requires Inv(st) && Enabled(st, MoveStart(t, s, garbage, junk)) && UnderWay(st, target, source, k, left)
    ensures UnderWay(MoveStarted(st, t, s, garbage, junk), target, source, k, left)
  {
    hide Inv;
  }

  lemma FinishedMeanwhile<H>(st: State<H>, t: H, target: H, source: H, k: nat, left: Handle)
    requires Inv(st) && Enabled(st, MoveFinish(t)) && t != target && UnderWay(st, target, source, k, left)
    ensures UnderWay(MoveFinished(st, t), target, source, k, left)
  {
    hide Children, Entries, Owners, Statuses;
    assert MoveOk(st, target) && MoveOk(st, t);
  }

  lemma DestroyedMeanwhile<H>(st: State<H>, h: H, target: H, source: H, k: nat, left: Handle)
    requires Inv(st) && Enabled(st, Destroy(h)) && UnderWay(st, target, source, k, left)
    ensures UnderWay(Destroyed(st, h), target, source, k, left)
  {
    hide Inv;
  }

  lemma DeliveredToSource<H>(st: State<H>, target: H, source: H, k: nat, left: Handle)
    requires Inv(st) && Enabled(st, Deliver) && UnderWay(st, target, source, k, left)
    ensures UnderWay(Delivered(st), target, source, k, left)
  {
    hide Statuses;
    var k' := st.reaping.value;
    assert HandleOk(st, target) && MoveOk(st, target) && ReapingOk(st) && ChildOk(st, k);
    TableOf(st, k');
    var p := st.children[k'].pid;
    if p in st.table && st.table[p].handle.Some? {
      var x := st.table[p].handle.value;
      var h :| h in st.owner && st.owner[h] == k' && Rep(st, h) == x;
      assert SoleOwner(st, h, target) && MoveOk(st, h);
      if x == source {
        SoleRep(st, h, target);
      }
    }
  }

  lemma {:induction false} StillUnderWay<H>(st: State<H>, steps: seq<Step<H>>, target: H, source: H, k: nat,
                                            left: Handle)
    requires Inv(st) && CanRun(st, steps) && MoveFinish(target) !in steps && UnderWay(st, target, source, k, left)
    ensures Inv(Run(st, steps)) && UnderWay(Run(st, steps), target, source, k, left)
    decreases |steps|
  {
    hide Inv, Enabled, Apply, UnderWay;
    if steps != [] {
      StepKeeps(st, steps[0]);
      StaysUnderWay(st, steps[0], target, source, k, left);
      StillUnderWay(Apply(st, steps[0]), steps[1..], target, source, k, left);
    }
  }

  /** A child that has its handle has a record exactly until it is reaped, and its pid
      after that only when it is in use again. */
  lemma RecordAfterReaping<H>(st: State<H>, k: nat)
    requires Inv(st) && k < |st.children| && st.children[k].constructed
    ensures st.children[k].pid in st.table <==> !st.children[k].reaped || PidInUseAgain(st, k)
  {
    hide Owners, Moves, Statuses;
    var p := st.children[k].pid;
    assert EntryOk(st, p) && HalfOk(st, k);
    forall j: nat | Half(st, j) && st.children[j].pid == p ensures p in st.table {
      assert HalfOk(st, j);
    }
  }

  lemma CallbackOf<H>(st: State<H>, target: H, source: H, k: nat, left: Handle)
    requires Inv(st) && UnderWay(st, target, source, k, left)
    ensures left.child in st.table <==> !st.children[k].reaped || PidInUseAgain(st, k)
    ensures Enabled(st, MoveFinish(target))
    ensures var st' := Apply(st, MoveFinish(target));
            && target in st'.handles && st'.children == st.children
            && (left.child in st.table ==> Right(st', target))
            && (left.child !in st.table ==> st'.handles[target] == left)
            && (Right(st', target) <==> left.child in st.table || Tells(left, st.children[k]))
  {
    hide Entries, Moves, Statuses, PidInUseAgain;
    assert HandleOk(st, target) && ChildOk(st, k);
    RecordAfterReaping(st, k);
  }

  /** The whole of a move, with any steps of other handles and of the reaper between its
      two halves. If the callback finds a record, because the child is not reaped or its
      pid is in use again, the new handle has the right status. Otherwise the child is
      reaped and the new handle keeps what its constructor left unset, which is right
      only if that happens to be the status. */
  lemma {:induction false} MoveOutcome<H>(st: State<H>, target: H, source: H, garbage: bool, junk: byte,
                                          between: seq<Step<H>>)
    requires Inv(st) && Enabled(st, MoveStart(target, source, garbage, junk)) && Right(st, source)
    requires CanRun(Apply(st, MoveStart(target, source, garbage, junk)), between) && MoveFinish(target) !in between
    ensures var k, p := st.owner[source], st.handles[source].child;
            var st' := Run(Apply(st, MoveStart(target, source, garbage, junk)), between);
            && Inv(st') && Enabled(st', MoveFinish(target)) && k < |st'.children|
            && (p in st'.table <==> !st'.children[k].reaped || PidInUseAgain(st', k))
            && var end := Apply(st', MoveFinish(target));
               && (p in st'.table ==> Right(end, target))
               && (p !in st'.table ==> target in end.handles && end.handles[target] == Handle(p, garbage, junk))
               && (Right(end, target) <==> p in st'.table || (garbage && junk == st'.children[k].status))
  {
    hide Inv, Enabled, Apply, UnderWay, PidInUseAgain;
    var left := Handle(st.handles[source].child, garbage, junk);
    var first := MoveStart(target, source, garbage, junk);
    MoveIsUnderWay(st, target, source, garbage, junk);
    StepKeeps(st, first);
    StillUnderWay(Apply(st, first), between, target, source, st.owner[source], left);
    CallbackOf(Run(Apply(st, first), between), target, source, st.owner[source], left);
    InRange(Run(Apply(st, first), between), target, source, st.owner[source], left);
  }

  lemma InRange<H>(st: State<H>, target: H, source: H, k: nat, left: Handle)
    requires UnderWay(st, target, source, k, left)
    ensures k < |st.children|
  {
  }

  /* ---- statuses after whole runs ---- */

  /** Every move's callback finds a record. */
  predicate MovesRecorded<H>(st: State<H>, steps: seq<Step<H>>)
    requires CanRun(st, steps)
    decreases |steps|
  {
    steps == [] || (Recorded(st, steps[0]) && MovesRecorded(Apply(st, steps[0]), steps[1..]))
  }

  predicate Recorded<H>(st: State<H>, step: Step<H>)
    requires Enabled(st, step)
  {
    step.MoveFinish? && step.target in st.owner ==> st.handles[step.target].child in st.table
  }

  lemma InTimeIsRecorded<H>(st: State<H>, step: Step<H>)
    requires Inv(st) && Enabled(st, step) && InTime(st, step)
    ensures Recorded(st, step)
  {
    if step.MoveFinish? && step.target in st.owner {
      assert HandleOk(st, step.target);
      TableOf(st, st.owner[step.target]);
    }
  }

  /** Only a move that finds no record leaves a handle out of account. */
  lemma RecordedLosesNone<H>(st: State<H>, step: Step<H>)
    requires Inv(st) && Enabled(st, step) && st.lost == {} && Recorded(st, step)
    ensures Apply(st, step).lost == {}
  {
    if step.MoveFinish? {
      assert HandleOk(st, step.target);
    }
  }

  lemma {:induction false} RecordedRun<H>(st: State<H>, steps: seq<Step<H>>)
    requires Inv(st) && CanRun(st, steps) && st.lost == {} && MovesRecorded(st, steps)
    ensures Inv(Run(st, steps)) && Run(st, steps).lost == {}
    decreases |steps|
  {
    hide Inv, Enabled, Apply, Recorded;
    if steps != [] {
      StepKeeps(st, steps[0]);
      RecordedLosesNone(st, steps[0]);
      RecordedRun(Apply(st, steps[0]), steps[1..]);
    }
  }

  lemma NothingLostMeansRight<H>(st: State<H>, h: H)
    requires Inv(st) && st.lost == {} && h in st.handles && st.handles[h].child != 0 && h !in st.moving
    ensures Right(st, h)
  {
    hide Children, Entries, Moves;
    assert HandleOk(st, h) && StatusOk(st, h);
  }

  /** After a run in which every move's callback finds a record, every handle of a child
      that is not being moved has the right status. */
  lemma {:induction false} RecordedMovesKeepStatus<H>(st: State<H>, steps: seq<Step<H>>, h: H)
    requires Inv(st) && CanRun(st, steps) && st.lost == {} && MovesRecorded(st, steps)
    ensures var end := Run(st, steps);
            end.lost == {} && (h in end.handles && end.handles[h].child != 0 && h !in end.moving ==> Right(end, h))
  {
    hide Inv, Right;
    RecordedRun(st, steps);
    var end := Run(st, steps);
    if h in end.handles && end.handles[h].child != 0 && h !in end.moving {
      NothingLostMeansRight(end, h);
    }
  }

  lemma {:induction false} InTimeRecorded<H>(st: State<H>, steps: seq<Step<H>>)
    requires Inv(st) && CanRun(st, steps) && MovesInTime(st, steps)
    ensures MovesRecorded(st, steps)
    decreases |steps|
  {
    hide Inv, Enabled, Apply, InTime, Recorded;
    if steps != [] {
      StepKeeps(st, steps[0]);
      InTimeIsRecorded(st, steps[0]);
      InTimeRecorded(Apply(st, steps[0]), steps[1..]);
    }
  }

  /** In particular when every move is over before the child is reaped. */
  lemma {:induction false} InTimeLosesNothing<H>(st: State<H>, steps: seq<Step<H>>, h: H)
    requires Inv(st) && CanRun(st, steps) && st.lost == {} && MovesInTime(st, steps)
    ensures var end := Run(st, steps);
            end.lost == {} && (h in end.handles && end.handles[h].child != 0 && h !in end.moving ==> Right(end, h))
  {
    InTimeRecorded(st, steps);
    RecordedMovesKeepStatus(st, steps, h);
  }

  /** In ~ProcessHandle the branch that erases the record is never taken, and the record
      names another handle only when the child is reaped and its pid in use again. */
  lemma {:induction false} DestructorBranches<H>(steps: seq<Step<H>>, h: H)
    requires CanRun(Start<H>(), steps) && Enabled(Run(Start<H>(), steps), Destroy(h))
    ensures var st := Run(Start<H>(), steps);
            var p := st.handles[h].child;
            p != 0 && p in st.table ==>
              && h in st.owner && st.owner[h] < |st.children|
              && (st.table[p].handle == Some(h) ==> !st.handles[h].hasExitStatus)
              && (st.table[p].handle != Some(h) <==> st.children[st.owner[h]].reaped)
  {
    var st := Run(Start<H>(), steps);
    StartsWell<H>();
    EveryRun(Start<H>(), steps);
    var p := st.handles[h].child;
    assert HandleOk(st, h) && StatusOk(st, h);
    if p in st.table && st.table[p].handle == Some(h) {
      NamesOwner(st, p, h);
    }
  }

  /* ---- runs that the claims do not cover ---- */

  lemma {:induction false} FirstStep<H>(st: State<H>, step: Step<H>, rest: seq<Step<H>>)
    requires Enabled(st, step) && CanRun(Apply(st, step), rest)
    ensures CanRun(st, [step] + rest) && Run(st, [step] + rest) == Run(Apply(st, step), rest)
  {
    hide Enabled, Apply;
    assert ([step] + rest)[1..] == rest;
  }

  /** One child, pid 7, whose handle 1 is constructed. */
  function OneChild(): (r: State<int>) {
    State(map[7 := Record(Some(1), 255)], map[1 := Handle(7, false, 0)], map[],
          [Child(7, true, false, false, 0, 0, false)], map[7 := 0], map[1 := 0], None, {})
  }

  lemma {:induction false} OneChildReached(rest: seq<Step<int>>)
    requires CanRun(OneChild(), rest)
    ensures CanRun(Start<int>(), [Spawn(7), Construct(1, 0, 0)] + rest)
    ensures Run(Start<int>(), [Spawn(7), Construct(1, 0, 0)] + rest) == Run(OneChild(), rest)
  {
    hide CanRun, Run;
    var s := Apply(Start<int>(), Spawn(7));
    assert Apply(s, Construct(1, 0, 0)) == OneChild();
    FirstStep(s, Construct(1, 0, 0), rest);
    FirstStep(Start<int>(), Spawn(7), [Construct(1, 0, 0)] + rest);
    assert [Spawn(7), Construct(1, 0, 0)] + rest == [Spawn(7)] + ([Construct(1, 0, 0)] + rest);
  }

  function Reaped(): (r: State<int>) {
    OneChild().(table := map[], handles := map[1 := Handle(7, true, 3)], entry := map[],
                children := [Child(7, true, true, true, 3, 1, false)])
  }

  /** Its status, 3, is in the handle. */
  lemma {:induction false} ReapedReached(rest: seq<Step<int>>)
    requires CanRun(Reaped(), rest)
    ensures CanRun(OneChild(), [Wait(0, 3), Deliver] + rest)
            && Run(OneChild(), [Wait(0, 3), Deliver] + rest) == Run(Reaped(), rest)
  {
    hide CanRun, Run;
    var s := Apply(OneChild(), Wait(0, 3));
    assert Apply(s, Deliver) == Reaped();
    FirstStep(s, Deliver, rest);
    FirstStep(OneChild(), Wait(0, 3), [Deliver] + rest);
    assert [Wait(0, 3), Deliver] + rest == [Wait(0, 3)] + ([Deliver] + rest);
  }

  /** A handle that already has its status forgets, when it is moved, that its child
      has exited: no record is left for the callback. */
  lemma LateMoveForgets()
    ensures var steps := [Spawn(7), Construct(1, 0, 0)]
            + ([Wait(0, 3), Deliver] + [MoveStart(2, 1, false, 0), MoveFinish(2)]);
            CanRun(Start<int>(), steps) &&
            var st := Run(Start<int>(), steps);
            |st.children| == 1 && st.children[0].reaped && 2 in st.handles && st.handles[2] == Handle(7, false, 0)
  {
    var steps := [MoveStart(2, 1, false, 0), MoveFinish(2)];
    FirstStep(Reaped(), MoveStart(2, 1, false, 0), [MoveFinish(2)]);
    assert steps == [MoveStart(2, 1, false, 0)] + [MoveFinish(2)];
    ReapedReached(steps);
    OneChildReached([Wait(0, 3), Deliver] + steps);
  }

  /** The child of OneChild is reaped while its handle is being moved. */
  lemma ReapedMidMove()
    ensures Enabled(OneChild(), MoveStart(2, 1, false, 0))
    ensures var a := Apply(OneChild(), MoveStart(2, 1, false, 0));
            Enabled(a, Wait(0, 3)) && Enabled(Apply(a, Wait(0, 3)), Deliver)
    ensures var c := Apply(Apply(Apply(OneChild(), MoveStart(2, 1, false, 0)), Wait(0, 3)), Deliver);
            && c.handles == map[1 := Handle(0, true, 3), 2 := Handle(7, false, 0)] && c.moving == map[2 := 1]
            && c.table == map[] && |c.children| == 1 && c.children[0].reaped
  {
    var a := Apply(OneChild(), MoveStart(2, 1, false, 0));
    assert a.handles == map[1 := Handle(0, false, 0), 2 := Handle(7, false, 0)]
           && a.table == map[7 := Record(Some(1), 255)];
  }

  lemma FinishWithoutRecord(c: State<int>)
    requires c.handles == map[1 := Handle(0, true, 3), 2 := Handle(7, false, 0)] && c.moving == map[2 := 1]
             && c.table == map[]
    ensures Enabled(c, MoveFinish(2))
    ensures var st := Apply(c, MoveFinish(2));
            st.children == c.children && 2 in st.handles && st.handles[2] == Handle(7, false, 0)
  {
  }

  /** The reaper may also come between the two halves of a move. */
  lemma RacingMoveForgets()
    ensures var steps := [Spawn(7), Construct(1, 0, 0)]
            + [MoveStart(2, 1, false, 0), Wait(0, 3), Deliver, MoveFinish(2)];
            CanRun(Start<int>(), steps) &&
            var st := Run(Start<int>(), steps);
            |st.children| == 1 && st.children[0].reaped && 2 in st.handles && st.handles[2] == Handle(7, false, 0)
  {
    ReapedMidMove();
    hide Apply, Enabled, OneChild;
    var a := Apply(OneChild(), MoveStart(2, 1, false, 0));
    var b := Apply(a, Wait(0, 3));
    var c := Apply(b, Deliver);
    FinishWithoutRecord(c);
    FirstStep(c, MoveFinish(2), []);
    FirstStep(b, Deliver, [MoveFinish(2)]);
    FirstStep(a, Wait(0, 3), [Deliver] + [MoveFinish(2)]);
    FirstStep(OneChild(), MoveStart(2, 1, false, 0), [Wait(0, 3)] + ([Deliver] + [MoveFinish(2)]));
    var steps := [MoveStart(2, 1, false, 0), Wait(0, 3), Deliver, MoveFinish(2)];
    assert steps == [MoveStart(2, 1, false, 0)] + ([Wait(0, 3)] + ([Deliver] + [MoveFinish(2)]));
    assert [MoveFinish(2)] + [] == [MoveFinish(2)];
    OneChildReached(steps);
  }

  /** A late move keeps the status after all when the pid is in use again: its callback
      finds the record of the other child. */
  lemma LateMoveSaved()
    ensures var steps := [Spawn(7), Construct(1, 0, 0)]
            + ([Wait(0, 3), Deliver] + [Spawn(7), Construct(2, 1, 0), MoveStart(3, 1, false, 0), MoveFinish(3)]);
            CanRun(Start<int>(), steps) &&
            var st := Run(Start<int>(), steps);
            |st.children| == 2 && st.children[0].reaped && 3 in st.handles && st.handles[3] == Handle(7, true, 3)
  {
    var steps := [Spawn(7), Construct(2, 1, 0), MoveStart(3, 1, false, 0), MoveFinish(3)];
    UsedAgain();
    hide Apply, Enabled, Reaped;
    var a := Apply(Reaped(), Spawn(7));
    var b := Apply(a, Construct(2, 1, 0));
    var c := Apply(b, MoveStart(3, 1, false, 0));
    FirstStep(c, MoveFinish(3), []);
    FirstStep(b, MoveStart(3, 1, false, 0), [MoveFinish(3)]);
    FirstStep(a, Construct(2, 1, 0), [MoveStart(3, 1, false, 0)] + [MoveFinish(3)]);
    FirstStep(Reaped(), Spawn(7), [Construct(2, 1, 0)] + ([MoveStart(3, 1, false, 0)] + [MoveFinish(3)]));
    assert steps == [Spawn(7)] + ([Construct(2, 1, 0)] + ([MoveStart(3, 1, false, 0)] + [MoveFinish(3)]));
    assert [MoveFinish(3)] + [] == [MoveFinish(3)];
    ReapedReached(steps);
    OneChildReached([Wait(0, 3), Deliver] + steps);
  }

  lemma UsedAgain()
    ensures Enabled(Reaped(), Spawn(7))
    ensures var a := Apply(Reaped(), Spawn(7));
            && Enabled(a, Construct(2, 1, 0))
            && var b := Apply(a, Construct(2, 1, 0));
               && Enabled(b, MoveStart(3, 1, false, 0))
               && var c := Apply(b, MoveStart(3, 1, false, 0));
                  && Enabled(c, MoveFinish(3))
                  && var st := Apply(c, MoveFinish(3));
                     |st.children| == 2 && st.children[0].reaped && 3 in st.handles
                     && st.handles[3] == Handle(7, true, 3)
  {
    var b := Apply(Apply(Reaped(), Spawn(7)), Construct(2, 1, 0));
    assert b.handles == map[1 := Handle(7, true, 3), 2 := Handle(7, false, 0)] && 7 in b.table;
  }

  /** The destructor does meet a record of another handle: its pid is in use again. */
  lemma DestructorMeetsStranger()
    ensures var steps := [Spawn(7), Construct(1, 0, 0)] + ([Wait(0, 3), Deliver] + [Spawn(7), Construct(2, 1, 0)]);
            CanRun(Start<int>(), steps) &&
            var st := Run(Start<int>(), steps);
            Enabled(st, Destroy(1)) && 7 in st.table && st.table[7].handle == Some(2)
  {
    var steps := [Spawn(7), Construct(2, 1, 0)];
    FirstStep(Reaped(), Spawn(7), [Construct(2, 1, 0)]);
    assert steps == [Spawn(7)] + [Construct(2, 1, 0)];
    ReapedReached(steps);
    OneChildReached([Wait(0, 3), Deliver] + steps);
  }
}
