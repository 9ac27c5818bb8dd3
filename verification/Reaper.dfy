/** The handles and the table they share with the reaper thread. Each method is one
    atomic callback, and does the step of ReaperSpec. */
module Reaper {
  import opened Bytes
  import opened ReaperSpec
  import opened ReaperProofs

  class ProcessHandle {
    var child: Pid
    var exitStatusValue: byte
    var hasExitStatus: bool

    function Value(): (r: Handle)
      reads this
    {
      Handle(child, hasExitStatus, exitStatusValue)
    }

    /** Fields that are not initialised can hold anything. */
    constructor (child: Pid, hasExitStatus: bool, exitStatusValue: byte)
      ensures Value() == Handle(child, hasExitStatus, exitStatusValue)
    {
      this.child, this.hasExitStatus, this.exitStatusValue := child, hasExitStatus, exitStatusValue;
    }

    method SetExitStatus(status: byte)
      modifies this
      ensures Value() == Handle(old(child), true, status)
    {
      exitStatusValue := status;
      hasExitStatus := true;
    }
  }

  class ProcessTable {
    var records: map<Pid, Record<ProcessHandle>>
    /** The whole state, with what only proofs speak about. */
    ghost var st: State<ProcessHandle>

    ghost predicate Agrees()
      reads this, st.handles.Keys
    {
      records == st.table && forall h <- st.handles :: h.Value() == st.handles[h]
    }

    ghost predicate Valid()
      reads this, st.handles.Keys
    {
      Agrees() && Inv(st)
    }

    constructor ()
      ensures Valid() && st == Start()
    {
      records, st := map[], Start();
    }

    /** The operating system starts a child. */
    ghost method Fork(pid: Pid)
      requires Valid() && Enabled(st, Spawn(pid))
      modifies this
      ensures Valid() && st == Apply(old(st), Spawn(pid))
    {
      StepKeeps(st, Spawn(pid));
      st := Apply(st, Spawn(pid));
    }

    /** The operating system hands the status of a child to waitpid. */
    ghost method WaitPid(k: nat, status: byte)
      requires Valid() && Enabled(st, Wait(k, status))
      modifies this
      ensures Valid() && st == Apply(old(st), Wait(k, status))
    {
      StepKeeps(st, Wait(k, status));
      st := Apply(st, Wait(k, status));
    }

    /** ProcessHandle(c), of a child that has no handle yet. */
    method Construct(c: Pid, junk: byte, ghost k: nat) returns (h: ProcessHandle)
      requires Valid() && k < |st.children| && !st.children[k].constructed && st.children[k].pid == c
      modifies this
      ensures fresh(h) && Valid() && st == Constructed(old(st), h, k, junk)
    {
      hide Inv;
      h := new ProcessHandle(c, false, junk);
      ConstructStep(st, h, k, junk);
      if c in records {
        h.SetExitStatus(records[c].exitStatus);
        records := records - {c};
      } else {
        records := records[c := Record(Some(h), 255)];
      }
      st := Constructed(st, h, k, junk);
    }

    /** reapProcesses, after waitpid: pid and status of the child waited for. */
    method Deliver(p: Pid, status: byte)
      requires Valid() && st.reaping.Some? && st.reaping.value < |st.children|
      requires st.children[st.reaping.value].pid == p && st.children[st.reaping.value].status == status
      modifies this, st.handles.Keys
      ensures Valid() && st == Delivered(old(st))
    {
      hide Inv;
      DeliverStep(st);
      if p in records {
        var record := records[p];
        NamesLive(st, p);
        if record.handle.Some? {
          record.handle.value.SetExitStatus(status);
        }
        records := records - {p};
      } else {
        records := records[p := Record(None, status)];
      }
      st := Delivered(st);
    }

    /** ProcessHandle(ProcessHandle&&) up to the lookup; hasExitStatus is not initialised. */
    method MoveStart(source: ProcessHandle, garbage: bool, junk: byte) returns (target: ProcessHandle)
      requires Valid() && source in st.handles && !Busy(st, source)
      modifies this, source
      ensures fresh(target) && Valid() && st == MoveStarted(old(st), target, source, garbage, junk)
    {
      hide Inv, Busy;
      target := new ProcessHandle(source.child, garbage, junk);
      MoveStartStep(st, target, source, garbage, junk);
      source.child := 0;
      st := MoveStarted(st, target, source, garbage, junk);
    }

    /** The callback at the end of the move. */
    method MoveFinish(target: ProcessHandle, source: ProcessHandle)
      requires Valid() && target in st.moving && st.moving[target] == source
      requires target in st.handles && source in st.handles
      modifies this, target
      ensures Valid() && st == MoveFinished(old(st), target)
    {
      hide Inv;
      MoveFinishStep(st, target);
      NotItself(st, target);
      if target.child != 0 && target.child in records {
        if records[target.child].handle == Some(source) {
          records := records[target.child := records[target.child].(handle := Some(target))];
        }
        target.hasExitStatus := source.hasExitStatus;
        if target.hasExitStatus {
          target.exitStatusValue := source.exitStatusValue;
        }
      }
      st := MoveFinished(st, target);
    }

    /** ~ProcessHandle, after the signal. */
    method Destroy(h: ProcessHandle)
      requires Valid() && h in st.handles && !Busy(st, h)
      modifies this
      ensures Valid() && st == Destroyed(old(st), h)
    {
      hide Inv, Busy;
      DestroyStep(st, h);
      if h.child != 0 && h.child in records && records[h.child].handle == Some(h) {
        if h.hasExitStatus {
          records := records - {h.child};
        } else {
          records := records[h.child := records[h.child].(handle := None)];
        }
      }
      st := Destroyed(st, h);
    }
  }

  lemma ConstructStep(st: State<ProcessHandle>, h: ProcessHandle, k: nat, junk: byte)
    requires Inv(st) && h !in st.handles && k < |st.children| && !st.children[k].constructed
    ensures Inv(Constructed(st, h, k, junk))
  {
    hide Inv;
    StepKeeps(st, Step.Construct(h, k, junk));
  }

  lemma DeliverStep(st: State<ProcessHandle>)
    requires Inv(st) && st.reaping.Some? && st.reaping.value < |st.children|
    ensures Inv(Delivered(st))
  {
    hide Inv;
    StepKeeps(st, Step.Deliver);
  }

  lemma MoveStartStep(st: State<ProcessHandle>, target: ProcessHandle, source: ProcessHandle, garbage: bool, junk: byte)
    requires Inv(st) && target !in st.handles && source in st.handles && !Busy(st, source)
    ensures Inv(MoveStarted(st, target, source, garbage, junk))
  {
    hide Inv;
    StepKeeps(st, Step.MoveStart(target, source, garbage, junk));
  }

  lemma MoveFinishStep(st: State<ProcessHandle>, target: ProcessHandle)
    requires Inv(st) && target in st.moving && target in st.handles && st.moving[target] in st.handles
    ensures Inv(MoveFinished(st, target))
  {
    hide Inv;
    StepKeeps(st, Step.MoveFinish(target));
  }

  lemma DestroyStep(st: State<ProcessHandle>, h: ProcessHandle)
    requires Inv(st) && h in st.handles && !Busy(st, h)
    ensures Inv(Destroyed(st, h))
  {
    hide Inv;
    StepKeeps(st, Step.Destroy(h));
  }

  lemma NamesLive(st: State<ProcessHandle>, p: Pid)
    requires Inv(st) && p in st.table
    ensures st.table[p].handle.Some? ==> st.table[p].handle.value in st.handles
  {
    assert EntryOk(st, p);
    if st.table[p].handle.None? {
      return;
    }
    var h :| h in st.owner && st.owner[h] == st.entry[p] && Rep(st, h) == st.table[p].handle.value;
    assert HandleOk(st, h) && MoveOk(st, h);
  }

  lemma NotItself(st: State<ProcessHandle>, t: ProcessHandle)
    requires Inv(st) && t in st.moving
    ensures st.moving[t] != t
  {
    assert MoveOk(st, t);
  }
}
