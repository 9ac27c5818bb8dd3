/** Handles, children and the reaper thread around one table of processes: what
    each atomic step does, as a function on values. */
module ReaperSpec {
  import opened Bytes

  type Pid = nat

  /** A null handle pointer is None. */
  datatype Record<H> = Record(handle: Option<H>, exitStatus: byte)

  /** A handle without a child has pid 0. */
  datatype Handle = Handle(child: Pid, hasExitStatus: bool, exitStatusValue: byte)

  /** A child process: its pid, how far its handle and the reaper got, how often its
      status was put into a handle, and whether its handle was destroyed first. */
  datatype Child = Child(pid: Pid, constructed: bool, waited: bool, reaped: bool, status: byte,
                         deliveries: nat, abandoned: bool)

  /** The table and the live handles; then what a proof needs to speak about them:
      moves under way (from the new handle to the old), every child so far, the
      child a record and a handle stand for, the child waited for but not yet
      looked up, and the handles that missed their status because of a late move. */
  datatype State<!H(==)> = State(
    table: map<Pid, Record<H>>,
    handles: map<H, Handle>,
    moving: map<H, H>,
    children: seq<Child>,
    entry: map<Pid, nat>,
    owner: map<H, nat>,
    reaping: Option<nat>,
    lost: set<H>)

  /** Fields that a constructor leaves unset arrive as `junk` and `garbage`. */
  datatype Step<H> =
    | Spawn(pid: Pid)
    | Construct(h: H, k: nat, junk: byte)
    | Wait(k: nat, status: byte)
    | Deliver
    | MoveStart(target: H, source: H, garbage: bool, junk: byte)
    | MoveFinish(target: H)
    | Destroy(h: H)

  function Start<H>(): (r: State<H>) {
    State(map[], map[], map[], [], map[], map[], None, {})
  }

  predicate Done(c: Child) {
    c.constructed && c.reaped
  }

  predicate Busy<H>(st: State<H>, h: H) {
    h in st.moving || exists t <- st.moving :: st.moving[t] == h
  }

  /** A pid comes back only after both the handle and the reaper are through with it. */
  predicate Enabled<H>(st: State<H>, step: Step<H>) {
    match step
    case Spawn(pid) => pid > 0 && forall c <- st.children :: c.pid == pid ==> Done(c)
    case Construct(h, k, _) => h !in st.handles && k < |st.children| && !st.children[k].constructed
    case Wait(k, _) => st.reaping.None? && k < |st.children| && !st.children[k].waited
    case Deliver => st.reaping.Some? && st.reaping.value < |st.children|
    case MoveStart(target, source, _, _) =>
      target !in st.handles && source in st.handles && !Busy(st, source) && target != source
    case MoveFinish(target) => target in st.moving && target in st.handles && st.moving[target] in st.handles
    case Destroy(h) => h in st.handles && !Busy(st, h)
  }

  function Apply<H>(st: State<H>, step: Step<H>): (r: State<H>)
    requires Enabled(st, step)
  {
    match step
    case Spawn(pid) => st.(children := st.children + [Child(pid, false, false, false, 0, 0, false)])
    case Construct(h, k, junk) => Constructed(st, h, k, junk)
    case Wait(k, status) =>
      st.(children := st.children[k := st.children[k].(waited := true, status := status)], reaping := Some(k))
    case Deliver => Delivered(st)
    case MoveStart(target, source, garbage, junk) => MoveStarted(st, target, source, garbage, junk)
    case MoveFinish(target) => MoveFinished(st, target)
    case Destroy(h) => Destroyed(st, h)
  }

  /** The constructor takes the status if the reaper was first. */
  function Constructed<H>(st: State<H>, h: H, k: nat, junk: byte): (r: State<H>)
    requires k < |st.children|
  {
    var c := st.children[k];
    var st' := st.(owner := st.owner[h := k]);
    if c.pid in st.table then
      st'.(table := st.table - {c.pid}, entry := st.entry - {c.pid},
           handles := st.handles[h := Handle(c.pid, true, st.table[c.pid].exitStatus)],
           children := st.children[k := c.(constructed := true, deliveries := c.deliveries + 1)])
    else
      st'.(table := st.table[c.pid := Record(Some(h), 255)], entry := st.entry[c.pid := k],
           handles := st.handles[h := Handle(c.pid, false, junk)],
           children := st.children[k := c.(constructed := true)])
  }

  /** The reaper leaves the status in the table if the constructor is still to come. */
  function Delivered<H>(st: State<H>): (r: State<H>)
    requires st.reaping.Some? && st.reaping.value < |st.children|
  {
    var k := st.reaping.value;
    var c := st.children[k];
    var st' := st.(reaping := None);
    if c.pid in st.table then
      var st'' := st'.(table := st.table - {c.pid}, entry := st.entry - {c.pid});
      match st.table[c.pid].handle
      case Some(x) =>
        st''.(handles := if x !in st.handles then st.handles
                         else st.handles[x := Handle(st.handles[x].child, true, c.status)],
              children := st.children[k := c.(reaped := true, deliveries := c.deliveries + 1)])
      case None => st''.(children := st.children[k := c.(reaped := true)])
    else
      st'.(table := st.table[c.pid := Record(None, c.status)], entry := st.entry[c.pid := k],
           children := st.children[k := c.(reaped := true)])
  }

  function MoveStarted<H>(st: State<H>, target: H, source: H, garbage: bool, junk: byte): (r: State<H>)
    requires source in st.handles
  {
    var st' := st.(
      handles := st.handles[target := Handle(st.handles[source].child, garbage, junk)]
                           [source := st.handles[source].(child := 0)],
      moving := st.moving[target := source]);
    if source in st.owner then st'.(owner := (st.owner - {source})[target := st.owner[source]]) else st'
  }

  /** Only a record still in the table lets the new handle take over. */
  function MoveFinished<H>(st: State<H>, target: H): (r: State<H>)
    requires target in st.moving && target in st.handles && st.moving[target] in st.handles
  {
    var source, p := st.moving[target], st.handles[target].child;
    var former := st.handles[source];
    var st' := st.(moving := st.moving - {target});
    if p == 0 then st'
    else if p in st.table then
      st'.(table := if st.table[p].handle != Some(source) then st.table
                    else st.table[p := st.table[p].(handle := Some(target))],
           handles := st.handles[target := Handle(p, former.hasExitStatus,
                                                  if former.hasExitStatus then former.exitStatusValue
                                                  else st.handles[target].exitStatusValue)],
           lost := if source in st.lost then st.lost + {target} else st.lost)
    else st'.(lost := st.lost + {target})
  }

  function Destroyed<H>(st: State<H>, h: H): (r: State<H>)
    requires h in st.handles
  {
    var p := st.handles[h].child;
    var st' := st.(handles := st.handles - {h}, owner := st.owner - {h}, lost := st.lost - {h},
                   children := Abandoned(st, h));
    if p != 0 && p in st.table && st.table[p].handle == Some(h) then
      if st.handles[h].hasExitStatus then st'.(table := st.table - {p}, entry := st.entry - {p})
      else st'.(table := st.table[p := st.table[p].(handle := None)])
    else st'
  }

  function Abandoned<H>(st: State<H>, h: H): (cs: seq<Child>)
    ensures |cs| == |st.children|
  {
    if h in st.owner && st.owner[h] < |st.children| && !st.children[st.owner[h]].reaped
    then st.children[st.owner[h] := st.children[st.owner[h]].(abandoned := true)]
    else st.children
  }

  /* ---- runs ---- */

  predicate CanRun<H>(st: State<H>, steps: seq<Step<H>>)
    decreases |steps|
  {
    steps == [] || (Enabled(st, steps[0]) && CanRun(Apply(st, steps[0]), steps[1..]))
  }

  function Run<H>(st: State<H>, steps: seq<Step<H>>): (r: State<H>)
    requires CanRun(st, steps)
    decreases |steps|
  {
    if steps == [] then st else Run(Apply(st, steps[0]), steps[1..])
  }

  /** No move of this run is finished after its child was reaped. */
  predicate MovesInTime<H>(st: State<H>, steps: seq<Step<H>>)
    requires CanRun(st, steps)
    decreases |steps|
  {
    steps == [] || (InTime(st, steps[0]) && MovesInTime(Apply(st, steps[0]), steps[1..]))
  }

  predicate InTime<H>(st: State<H>, step: Step<H>) {
    step.MoveFinish? && step.target in st.owner && st.owner[step.target] < |st.children| ==>
      !st.children[st.owner[step.target]].reaped
  }
}
