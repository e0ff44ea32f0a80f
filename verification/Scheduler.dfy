/**
 The stage scheduler as a state machine.

 `State` holds the global tables of src/kernel/instance.c (one recycle queue, one pending-event
 queue, one limit and one instance counter per stage, and the shared ready queue), the workers of
 src/kernel/scheduler.c and the instances parked on I/O or timers.  Each C function becomes a
 function on states; `Apply` is one atomic step of the machine and a run is a sequence of steps.
 The handler of a stage is an oracle: a step of a worker carries whatever status it returned.

 `past` is history only. It records what was accepted and what ran, and no step reads it.
 */
module Scheduler {

  type StageId = nat
  type InstId = nat
  type Event = nat

  datatype Option<+T> = None | Some(value: T)

  /** What the Lua stack of an instance is loaded with: nothing, the arguments of an event that has
      not started yet, or the resume value of a suspended handler. */
  datatype Load = Blank | Fresh(event: Event) | Resume

  /** `job` is the event whose handler execution is open on the instance, if any. */
  datatype Instance = Instance(stage: StageId, load: Load, job: Option<Event>)

  /** An entry of the ready queue: NULL is a request to kill one worker. */
  datatype Entry = Kill | Job(inst: InstId)

  /** `depth` counts the nested activations of thread_resume_instance on the worker's C stack. */
  datatype Worker = Parked | Running(inst: InstId, depth: nat) | Exited

  datatype Stage = Stage(
    serial: bool,
    limit: int,           // recycle_queue_limits, -1 for unbounded
    idleCap: int,         // capacity of the recycle queue
    count: int,           // number_of_instances
    active: int,          // sstats.active
    idle: seq<InstId>,    // recycle queue
    pending: seq<Event>,  // event queue
    pendingCap: int)      // capacity of the event queue

  datatype Obs = Begin(inst: InstId, event: Event) | End(inst: InstId)

  datatype Past = Past(accepted: seq<Event>, log: seq<Obs>, unknown: nat, destroyed: nat)

  datatype State = State(
    stages: seq<Stage>,
    past: seq<Past>,
    insts: map<InstId, Instance>,
    next: InstId,
    ready: seq<Entry>,
    waiting: set<InstId>,
    workers: seq<Worker>,
    poolSize: int,
    created: nat,
    consumed: nat)

  /** The status codes a handler can hand back to its worker, with the arguments that matter. */
  datatype Outcome =
    | Ended
    | PcallError
    | DestroySelf
    | Cohort(dst: StageId, event: Event)
    | Await(valid: bool)  // WAIT_IO, FILE_IO and SLEEP; invalid arguments resume at once
    | Nice
    | Unknown             // any other value, or no number at all

  datatype Step =
    | Emit(stage: StageId, event: Event)
    | Pop(worker: nat)
    | Return(worker: nat, outcome: Outcome)
    | IoReady(inst: InstId)
    | SetMaxpar(cap: int)
    | SetMaxparOf(target: int, cap: int)
    | SetPendingCapacity(stage: StageId, cap: int)
    | NewWorker
    | KillWorker

  /** The full test shared by all bounded queues: it compares with ==, never with >=. */
  predicate Full(size: nat, capacity: int) {
    capacity >= 0 && size == capacity
  }

  // ----- pieces of a step, one per C function -----

  function SetStage(st: State, s: StageId, x: Stage): State
    requires s < |st.stages|
  {
    st.(stages := st.stages[s := x])
  }

  function SetPast(st: State, s: StageId, x: Past): State
    requires s < |st.past|
  {
    st.(past := st.past[s := x])
  }

  function Accept(st: State, s: StageId, e: Event): State
    requires s < |st.past|
  {
    SetPast(st, s, st.past[s].(accepted := st.past[s].accepted + [e]))
  }

  function Observe(st: State, s: StageId, o: Obs): State
    requires s < |st.past|
  {
    SetPast(st, s, st.past[s].(log := st.past[s].log + [o]))
  }

  predicate CanAcquire(st: State, s: StageId)
    requires s < |st.stages|
  {
    st.stages[s].idle != [] || st.stages[s].count != st.stages[s].limit
  }

  /** The instance instance_aquire returns when it does not return NULL. */
  function Acquired(st: State, s: StageId): InstId
    requires s < |st.stages|
  {
    if st.stages[s].idle != [] then st.stages[s].idle[0] else st.next
  }

  /** instance_aquire: recycle an idle instance, or create one unless the counter equals the limit. */
  function Acquire(st: State, s: StageId): State
    requires s < |st.stages| && CanAcquire(st, s)
  {
    var x := st.stages[s];
    if x.idle != [] then
      SetStage(st, s, x.(idle := x.idle[1..], active := x.active + 1))
    else
      SetStage(st, s, x.(count := x.count + 1, active := x.active + 1))
      .(insts := st.insts[st.next := Instance(s, Blank, None)], next := st.next + 1)
  }

  /** Load the stack of an instance and push it on the ready queue. */
  function Enqueue(st: State, i: InstId, load: Load): State
    requires i in st.insts
  {
    st.(insts := st.insts[i := st.insts[i].(load := load)], ready := st.ready + [Job(i)])
  }

  /** A worker resumes an instance: an event that was only loaded starts here. */
  function Resumed(st: State, i: InstId): State
    requires i in st.insts && st.insts[i].stage < |st.past|
  {
    var x := st.insts[i];
    match x.load
    case Fresh(e) =>
      Observe(st, x.stage, Begin(i, e)).(insts := st.insts[i := x.(load := Blank, job := Some(e))])
    case _ =>
      st.(insts := st.insts[i := x.(load := Blank)])
  }

  /** The handler execution open on an instance is over. */
  function Finish(st: State, i: InstId): State
    requires i in st.insts && st.insts[i].stage < |st.past|
  {
    var x := st.insts[i];
    Observe(st, x.stage, End(i)).(insts := st.insts[i := x.(job := None)])
  }

  function Inactive(st: State, s: StageId): State
    requires s < |st.stages|
  {
    SetStage(st, s, st.stages[s].(active := st.stages[s].active - 1))
  }

  /** instance_destroy */
  function Destroy(st: State, i: InstId): State
    requires i in st.insts && st.insts[i].stage < |st.past| == |st.stages|
  {
    var s := st.insts[i].stage;
    SetPast(SetStage(st, s, st.stages[s].(count := st.stages[s].count - 1)), s,
            st.past[s].(destroyed := st.past[s].destroyed + 1))
    .(insts := st.insts - {i})
  }

  /** The default branch of thread_resume_instance: destroy without STATS_INACTIVE. */
  function DestroyUnknown(st: State, i: InstId): State
    requires i in st.insts && st.insts[i].stage < |st.past| == |st.stages|
  {
    var s := st.insts[i].stage;
    var gone := Destroy(st, i);
    SetPast(gone, s, gone.past[s].(unknown := gone.past[s].unknown + 1))
  }

  /** instance_release: serve the oldest pending event, or go idle, or be destroyed if that queue is full. */
  function Release(st: State, i: InstId): (r: State)
    requires i in st.insts && st.insts[i].stage < |st.past| == |st.stages|
    ensures |r.stages| == |st.stages| == |r.past|
  {
    var s := st.insts[i].stage;
    var x := st.stages[s];
    if x.pending != [] then
      Enqueue(SetStage(st, s, x.(pending := x.pending[1..])), i, Fresh(x.pending[0]))
    else if Full(|x.idle|, x.idleCap) then
      Destroy(Inactive(st, s), i)
    else
      SetStage(st, s, x.(active := x.active - 1, idle := x.idle + [i]))
  }

  function Hold(st: State, w: nat, x: Worker): State
    requires w < |st.workers|
  {
    st.(workers := st.workers[w := x])
  }

  // ----- steps -----

  /** Every pointer in the tables is a live instance of some stage of the graph. */
  ghost predicate Wf(st: State) {
    && |st.past| == |st.stages|
    && (forall i | i in st.insts :: st.insts[i].stage < |st.stages|)
    && (forall s, i | 0 <= s < |st.stages| && i in st.stages[s].idle :: i in st.insts)
    && (forall x | x in st.ready && x.Job? :: x.inst in st.insts)
    && (forall w | 0 <= w < |st.workers| && st.workers[w].Running? :: st.workers[w].inst in st.insts)
    && st.waiting <= st.insts.Keys
  }

  /** The verdict of emmit and emmit_packed_event. */
  predicate EmitAccepts(st: State, s: StageId)
    requires s < |st.stages|
  {
    CanAcquire(st, s) || !Full(|st.stages[s].pending|, st.stages[s].pendingCap)
  }

  /** emmit and emmit_packed_event on a local stage: fast path, pending queue, or rejection. */
  function EmitStep(st: State, s: StageId, e: Event): State
    requires Wf(st) && s < |st.stages|
  {
    var x := st.stages[s];
    if CanAcquire(st, s) then
      Enqueue(Accept(Acquire(st, s), s, e), Acquired(st, s), Fresh(e))
    else if Full(|x.pending|, x.pendingCap) then
      st
    else
      Accept(SetStage(st, s, x.(pending := x.pending + [e])), s, e)
  }

  /** One turn of the loop of thread_main: take the head of the ready queue. */
  function PopStep(st: State, w: nat): State
    requires Wf(st) && w < |st.workers| && st.ready != []
  {
    var rest := st.(ready := st.ready[1..]);
    match st.ready[0]
    case Kill =>
      Hold(rest, w, Exited).(poolSize := st.poolSize - 1, consumed := st.consumed + 1)
    case Job(i) =>
      assert st.ready[0] in st.ready;
      Hold(Resumed(rest, i), w, Running(i, 1))
  }

  /** First half of a successful emmit_cohort: acquire the callee and queue the caller. */
  function Lend(st: State, i: InstId, dst: StageId, e: Event): State
    requires Wf(st) && i in st.insts && dst < |st.stages| && CanAcquire(st, dst)
  {
    Enqueue(Accept(Acquire(st, dst), dst, e), i, Resume)
  }

  function Reload(st: State, i: InstId, load: Load): State
    requires i in st.insts
  {
    st.(insts := st.insts[i := st.insts[i].(load := load)])
  }

  /** Second half: the callee starts on the caller's worker, one C frame deeper. */
  function TakeOver(st: State, w: nat, j: InstId, depth: nat, e: Event): State
    requires j in st.insts && st.insts[j].stage < |st.past| && w < |st.workers|
  {
    Hold(Resumed(Reload(st, j, Fresh(e)), j), w, Running(j, depth))
  }

  function HandOver(st: State, w: nat, i: InstId, depth: nat, dst: StageId, e: Event): (r: State)
    requires Wf(st) && w < |st.workers| && i in st.insts
    requires dst < |st.stages| && CanAcquire(st, dst)
    ensures |r.stages| == |st.stages| == |r.past|
  {
    TakeOver(Lend(st, i, dst, e), w, Acquired(st, dst), depth + 1, e)
  }

  /** The switch of thread_resume_instance, once the handler of the worker's instance came back. */
  function ReturnStep(st: State, w: nat, o: Outcome): (r: State)
    requires Wf(st) && w < |st.workers| && st.workers[w].Running?
    requires o.Cohort? ==> o.dst < |st.stages|
    ensures |r.stages| == |st.stages| == |r.past|
  {
    var i := st.workers[w].inst;
    var s := st.insts[i].stage;
    var off := Hold(st, w, Parked);
    match o
    case Ended => Release(Finish(off, i), i)
    case PcallError => Destroy(Inactive(Finish(off, i), s), i)
    case DestroySelf => Destroy(Inactive(Finish(off, i), s), i)
    case Unknown => DestroyUnknown(Finish(off, i), i)
    case Cohort(dst, e) =>
      if CanAcquire(off, dst) then HandOver(off, w, i, st.workers[w].depth, dst, e)
      else Enqueue(off, i, Resume)
    case Await(valid) =>
      if valid then off.(waiting := off.waiting + {i}) else Enqueue(off, i, Resume)
    case Nice => Enqueue(off, i, Resume)
  }

  /** io_ready, the completion of file I/O, and timers. */
  function IoStep(st: State, i: InstId): State
    requires Wf(st) && i in st.waiting
  {
    Enqueue(st.(waiting := st.waiting - {i}), i, Resume)
  }

  function WithLimit(x: Stage, cap: int): Stage {
    x.(idleCap := cap, limit := cap)
  }

  /** instance_set_maxpar with one argument: all stages but the serial ones. */
  function MaxparStep(st: State, cap: int): State {
    if cap < -1 then st
    else
      st.(stages := seq(|st.stages|, s requires 0 <= s < |st.stages| =>
        if st.stages[s].serial then st.stages[s] else WithLimit(st.stages[s], cap)))
  }

  /** instance_set_maxpar with two arguments. */
  function MaxparOfStep(st: State, target: int, cap: int): State {
    if cap < -1 || target < 0 || target >= |st.stages| || st.stages[target].serial then st
    else SetStage(st, target, WithLimit(st.stages[target], cap))
  }

  ghost predicate Enabled(st: State, t: Step) {
    match t
    case Emit(s, _) => s < |st.stages|
    case Pop(w) => w < |st.workers| && st.workers[w].Parked? && st.ready != []
    case Return(w, o) =>
      && w < |st.workers| && st.workers[w].Running?
      && (o.Cohort? ==> o.dst < |st.stages|)
    case IoReady(i) => i in st.waiting
    case SetPendingCapacity(s, _) => s < |st.stages|
    case _ => true
  }

  function Apply(st: State, t: Step): State
    requires Wf(st) && Enabled(st, t)
  {
    match t
    case Emit(s, e) => EmitStep(st, s, e)
    case Pop(w) => PopStep(st, w)
    case Return(w, o) => ReturnStep(st, w, o)
    case IoReady(i) => IoStep(st, i)
    case SetMaxpar(cap) => MaxparStep(st, cap)
    case SetMaxparOf(target, cap) => MaxparOfStep(st, target, cap)
    case SetPendingCapacity(s, cap) => SetStage(st, s, st.stages[s].(pendingCap := cap))
    case NewWorker =>
      st.(workers := st.workers + [Parked], poolSize := st.poolSize + 1, created := st.created + 1)
    case KillWorker => st.(ready := st.ready + [Kill])
  }

  // ----- initial state -----

  /** instance_init: a serial stage is limited to one instance whatever the default is. */
  function FreshStage(serial: bool, recycleLimit: int, pendingLimit: int): Stage {
    var l := if serial then 1 else recycleLimit;
    Stage(serial, l, l, 0, 0, [], [], pendingLimit)
  }

  function Initial(serial: seq<bool>, recycleLimit: int, pendingLimit: int): State {
    State(
      seq(|serial|, s requires 0 <= s < |serial| => FreshStage(serial[s], recycleLimit, pendingLimit)),
      seq(|serial|, s => Past([], [], 0, 0)),
      map[], 0, [], {}, [], 0, 0, 0)
  }
}
