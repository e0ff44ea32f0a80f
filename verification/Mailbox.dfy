/**
 Events through one stage.

 The whole scheduler, seen from one stage, is a machine with four sequences: the events accepted,
 those started, those loaded on ready instances (in ready-queue order) and those pending.  `MoveOf`
 names the abstract move of a concrete step and `StepRefines` shows that every step of the
 scheduler is exactly that move.  Conservation and FIFO order are then facts about six moves.
 */
module Mailbox {
  import opened Scheduler
  import opened Invariants

  datatype Flow = Flow(accepted: seq<Event>, begun: seq<Event>, ready: seq<Event>, pending: seq<Event>)

  datatype Move =
    | Same
    | ToReady(event: Event)    // accepted on the fast path
    | ToPending(event: Event)  // accepted on the slow path
    | Serve                    // a released instance takes the oldest pending event
    | Start                    // a worker starts the first loaded event
    | Direct(event: Event)     // a cohort send: accepted and started at once

  // ----- the abstract machine -----

  ghost predicate Possible(f: Flow, m: Move) {
    (m.Serve? ==> f.pending != []) && (m.Start? ==> f.ready != [])
  }

  ghost function After(f: Flow, m: Move): Flow
    requires Possible(f, m)
  {
    match m
    case Same => f
    case ToReady(e) => f.(accepted := f.accepted + [e], ready := f.ready + [e])
    case ToPending(e) => f.(accepted := f.accepted + [e], pending := f.pending + [e])
    case Serve => f.(ready := f.ready + [f.pending[0]], pending := f.pending[1..])
    case Start => f.(begun := f.begun + [f.ready[0]], ready := f.ready[1..])
    case Direct(e) => f.(accepted := f.accepted + [e], begun := f.begun + [e])
  }

  /** Nothing lost, nothing duplicated. */
  ghost predicate Conserved(f: Flow) {
    multiset(f.accepted) == multiset(f.begun) + multiset(f.ready) + multiset(f.pending)
  }

  /** The stage is one FIFO mailbox. */
  ghost predicate Ordered(f: Flow) {
    f.accepted == f.begun + f.ready + f.pending
  }

  lemma MoveConserves(f: Flow, m: Move)
    requires Possible(f, m) && Conserved(f)
    ensures Conserved(After(f, m))
  {
    match m
    case Same =>
    case ToReady(_) =>
    case ToPending(_) =>
    case Serve => Head(f.pending);
    case Start => Head(f.ready);
    case Direct(_) =>
  }

  lemma Head(q: seq<Event>)
    requires q != []
    ensures multiset(q) == multiset{q[0]} + multiset(q[1..])
  {
    assert q == [q[0]] + q[1..];
  }

  /** The guard under which a move overtakes nothing. */
  predicate Polite(f: Flow, m: Move) {
    match m
    case ToReady(_) => f.pending == []
    case Direct(_) => f.ready == [] && f.pending == []
    case _ => true
  }

  lemma PoliteOrders(f: Flow, m: Move)
    requires Possible(f, m) && Ordered(f) && Polite(f, m)
    ensures Ordered(After(f, m))
  {
    if m.Serve? {
      assert f.pending == [f.pending[0]] + f.pending[1..];
    } else if m.Start? {
      assert f.ready == [f.ready[0]] + f.ready[1..];
    }
  }

  /** The event a move brings in, if any, was not there before. */
  predicate IsNew(f: Flow, m: Move) {
    m.ToReady? || m.ToPending? || m.Direct? ==> m.event !in f.accepted
  }

  /** Started, loaded and pending events in the order in which they are served. */
  function Line(f: Flow): seq<Event> {
    f.begun + f.ready + f.pending
  }

  lemma ConservedSize(f: Flow)
    requires Conserved(f)
    ensures |f.accepted| == |Line(f)|
  {
    assert |multiset(f.accepted)| == |f.accepted|;
    assert |multiset(Line(f))| == |Line(f)|;
  }

  /** A new event that does not go to the end of the line breaks the order for good: whatever the line was before, the
      result is not the order of acceptance. */
  lemma PushedIn(accepted: seq<Event>, before: seq<Event>, after: seq<Event>, e: Event)
    requires e !in accepted && |accepted| == |before + after|
    ensures accepted + [e] == before + [e] + after <==> after == [] && accepted == before
  {
    if accepted + [e] == before + [e] + after {
      var k := |before|;
      assert (accepted + [e])[k] == (before + [e] + after)[k] == e;
      assert k == |accepted|;
      assert (accepted + [e])[..|accepted|] == accepted && (before + [e])[..k] == before;
    }
  }

  /** What a move does to the line: a new event is pushed in where the older ones before it end, and nothing else
      moves. */
  lemma LineAfter(f: Flow, m: Move)
    requires Possible(f, m)
    ensures Line(After(f, m)) ==
            match m
            case ToReady(e) => f.begun + f.ready + [e] + f.pending
            case ToPending(e) => Line(f) + [e] + []
            case Direct(e) => f.begun + [e] + (f.ready + f.pending)
            case _ => Line(f)
  {
    match m
    case Serve => assert f.pending == [f.pending[0]] + f.pending[1..];
    case Start => assert f.ready == [f.ready[0]] + f.ready[1..];
    case _ =>
  }

  /** A move leaves a stage in acceptance order exactly when the stage was in order and the move is polite: order once
      lost does not come back. */
  lemma MoveOrder(f: Flow, m: Move)
    requires Possible(f, m) && Conserved(f) && IsNew(f, m)
    ensures Ordered(After(f, m)) <==> Ordered(f) && Polite(f, m)
  {
    ConservedSize(f);
    hide Conserved;
    LineAfter(f, m);
    match m
    case ToReady(e) => PushedIn(f.accepted, f.begun + f.ready, f.pending, e);
    case ToPending(e) => PushedIn(f.accepted, Line(f), [], e);
    case Direct(e) =>
      assert f.begun + (f.ready + f.pending) == Line(f);
      PushedIn(f.accepted, f.begun, f.ready + f.pending, e);
    case _ =>
  }

  // ----- the abstraction -----

  function Begun(log: seq<Obs>): seq<Event> {
    if log == [] then []
    else
      Begun(log[..|log| - 1]) +
      match log[|log| - 1]
      case Begin(_, e) => [e]
      case End(_) => []
  }

  function LoadOf(x: Entry, insts: map<InstId, Instance>, s: StageId): seq<Event> {
    if x.Job? && x.inst in insts && insts[x.inst].stage == s && insts[x.inst].load.Fresh?
    then [insts[x.inst].load.event] else []
  }

  /** The events of a stage that are loaded on ready instances, in the order the queue will serve them. */
  function ReadyOf(ready: seq<Entry>, insts: map<InstId, Instance>, s: StageId): seq<Event> {
    if ready == [] then []
    else ReadyOf(ready[..|ready| - 1], insts, s) + LoadOf(ready[|ready| - 1], insts, s)
  }

  function FlowOf(st: State, s: StageId): Flow
    requires s < |st.stages| == |st.past|
  {
    Flow(st.past[s].accepted, Begun(st.past[s].log), ReadyOf(st.ready, st.insts, s), st.stages[s].pending)
  }

  /** Which abstract move a concrete step is for stage `s`. */
  function MoveOf(st: State, t: Step, s: StageId): Move
    requires Wf(st) && Enabled(st, t) && s < |st.stages|
  {
    match t
    case Emit(d, e) =>
      if d != s then Same
      else if CanAcquire(st, s) then ToReady(e)
      else if EmitAccepts(st, s) then ToPending(e)
      else Same
    case Pop(_) =>
      if LoadOf(st.ready[0], st.insts, s) != [] then Start else Same
    case Return(w, o) =>
      if o.Ended? && st.insts[st.workers[w].inst].stage == s && st.stages[s].pending != [] then Serve
      else if o.Cohort? && o.dst == s && CanAcquire(st, s) then Direct(o.event)
      else Same
    case _ => Same
  }

  lemma ReadyAppend(ready: seq<Entry>, x: Entry, insts: map<InstId, Instance>, s: StageId)
    ensures ReadyOf(ready + [x], insts, s) == ReadyOf(ready, insts, s) + LoadOf(x, insts, s)
  {
    assert (ready + [x])[..|ready|] == ready;
  }

  lemma {:induction false} ReadyHead(ready: seq<Entry>, insts: map<InstId, Instance>, s: StageId)
    requires ready != []
    ensures ReadyOf(ready, insts, s) == LoadOf(ready[0], insts, s) + ReadyOf(ready[1..], insts, s)
  {
    var n := |ready| - 1;
    if n > 0 {
      ReadyHead(ready[..n], insts, s);
      assert ready[..n][1..] == ready[1..][..n - 1];
      assert ready[1..][n - 1] == ready[n];
    }
  }

  /** The ready events do not depend on instances outside the ready queue. */
  lemma {:induction false} ReadyFrame(ready: seq<Entry>, a: map<InstId, Instance>, b: map<InstId, Instance>, s: StageId)
    requires forall x | x in ready && x.Job? && x.inst in a :: x.inst in b && a[x.inst] == b[x.inst]
    requires forall x | x in ready && x.Job? && x.inst in b :: x.inst in a
    ensures ReadyOf(ready, a, s) == ReadyOf(ready, b, s)
  {
    if ready != [] {
      assert ready[|ready| - 1] in ready;
      ReadyFrame(ready[..|ready| - 1], a, b, s);
    }
  }

  lemma BegunAppend(log: seq<Obs>, o: Obs)
    ensures Begun(log + [o]) == Begun(log) + if o.Begin? then [o.event] else []
  {
    assert (log + [o])[..|log|] == log;
  }

  // ----- the pieces of a step, as flows -----

  lemma AcquireFlow(st: State, s: StageId, t: StageId)
    requires Local(st) && s < |st.stages| && t < |st.stages| && CanAcquire(st, s)
    ensures FlowOf(Acquire(st, s), t) == FlowOf(st, t)
  {
    ReadyFrame(st.ready, st.insts, Acquire(st, s).insts, t);
  }

  lemma EnqueueFlow(st: State, i: InstId, load: Load, t: StageId)
    requires Local(st) && Loose(st, i) && t < |st.stages|
    ensures FlowOf(Enqueue(st, i, load), t) ==
            if load.Fresh? && st.insts[i].stage == t
            then FlowOf(st, t).(ready := FlowOf(st, t).ready + [load.event])
            else FlowOf(st, t)
  {
    var r := Enqueue(st, i, load);
    ReadyAppend(st.ready, Job(i), r.insts, t);
    ReadyFrame(st.ready, st.insts, r.insts, t);
  }

  lemma FinishFlow(st: State, i: InstId, t: StageId)
    requires Local(st) && Loose(st, i) && t < |st.stages|
    ensures FlowOf(Finish(st, i), t) == FlowOf(st, t)
  {
    ReadyFrame(st.ready, st.insts, Finish(st, i).insts, t);
    BegunAppend(st.past[t].log, End(i));
  }

  lemma DestroyFlow(st: State, i: InstId, t: StageId)
    requires Local(st) && Loose(st, i) && t < |st.stages|
    ensures FlowOf(Destroy(Inactive(st, st.insts[i].stage), i), t) == FlowOf(st, t)
    ensures FlowOf(DestroyUnknown(st, i), t) == FlowOf(st, t)
  {
    ReadyFrame(st.ready, st.insts, st.insts - {i}, t);
  }

  lemma ReleaseFlow(st: State, i: InstId, t: StageId)
    requires Local(st) && Loose(st, i) && t < |st.stages|
    requires st.insts[i].load.Blank? && st.insts[i].job.None?
    ensures var f := FlowOf(st, t);
            FlowOf(Release(st, i), t) ==
            if st.insts[i].stage == t && f.pending != [] then After(f, Serve) else f
  {
    var s := st.insts[i].stage;
    var x := st.stages[s];
    if x.pending != [] {
      PendingLocal(st, s, x.pending[1..], x.pendingCap);
      EnqueueFlow(SetStage(st, s, x.(pending := x.pending[1..])), i, Fresh(x.pending[0]), t);
    } else if Full(|x.idle|, x.idleCap) {
      DestroyFlow(st, i, t);
    }
  }

  /** The start of an event on an instance that no queue holds. */
  lemma ResumedFlow(st: State, i: InstId, t: StageId)
    requires Local(st) && Loose(st, i) && t < |st.stages|
    ensures FlowOf(Resumed(st, i), t) ==
            if st.insts[i].load.Fresh? && st.insts[i].stage == t
            then FlowOf(st, t).(begun := FlowOf(st, t).begun + [st.insts[i].load.event])
            else FlowOf(st, t)
  {
    ReadyFrame(st.ready, st.insts, Resumed(st, i).insts, t);
    if st.insts[i].load.Fresh? {
      BegunAppend(st.past[t].log, Begin(i, st.insts[i].load.event));
    }
  }

  lemma ReloadFlow(st: State, i: InstId, load: Load, t: StageId)
    requires Local(st) && Loose(st, i) && t < |st.stages|
    ensures FlowOf(Reload(st, i, load), t) == FlowOf(st, t)
  {
    ReadyFrame(st.ready, st.insts, Reload(st, i, load).insts, t);
  }

  // ----- steps refine moves -----

  lemma EmitRefines(st: State, d: StageId, e: Event, s: StageId)
    requires Sound(st) && d < |st.stages| && s < |st.stages|
    ensures FlowOf(EmitStep(st, d, e), s) == After(FlowOf(st, s), MoveOf(st, Emit(d, e), s))
  {
    hide StageOk, Placed, Begun, ReadyOf, Loose;
    if CanAcquire(st, d) {
      var i := Acquired(st, d);
      AcquireKeeps(st, {}, d);
      AcquireFlow(st, d, s);
      AcceptKeeps(Acquire(st, d), {} + {i}, d, e);
      var got := Accept(Acquire(st, d), d, e);
      HandIsLoose(got, {} + {i}, i);
      EnqueueFlow(got, i, Fresh(e), s);
    }
  }

  lemma PopRefines(st: State, w: nat, s: StageId)
    requires Sound(st) && Enabled(st, Pop(w)) && s < |st.stages|
    ensures Possible(FlowOf(st, s), MoveOf(st, Pop(w), s))
    ensures FlowOf(PopStep(st, w), s) == After(FlowOf(st, s), MoveOf(st, Pop(w), s))
  {
    hide StageOk, Placed, Begun, ReadyOf, Loose;
    HeadKeeps(st, {});
    ReadyHead(st.ready, st.insts, s);
    var rest := st.(ready := st.ready[1..]);
    if st.ready[0].Job? {
      var i := st.ready[0].inst;
      HandIsLoose(rest, {} + OfEntry(st.ready[0]), i);
      ResumedFlow(rest, i, s);
    }
  }

  lemma LendFlow(st: State, i: InstId, d: StageId, e: Event, s: StageId)
    requires Structure(st, {i}) && Suspended(st.insts, i)
    requires d < |st.stages| && s < |st.stages| && CanAcquire(st, d)
    ensures var f := FlowOf(st, s);
            FlowOf(Lend(st, i, d, e), s) == if s == d then f.(accepted := f.accepted + [e]) else f
    ensures Acquired(st, d) in Lend(st, i, d, e).insts
    ensures Lend(st, i, d, e).insts[Acquired(st, d)].stage == d
  {
    var j := Acquired(st, d);
    AcquireKeeps(st, {i}, d);
    AcquireFlow(st, d, s);
    AcceptKeeps(Acquire(st, d), {i} + {j}, d, e);
    var got := Accept(Acquire(st, d), d, e);
    HandIsLoose(got, {i} + {j}, i);
    EnqueueFlow(got, i, Resume, s);
  }

  lemma HandOverRefines(st: State, w: nat, i: InstId, depth: nat, d: StageId, e: Event, s: StageId)
    requires Structure(st, {i}) && Suspended(st.insts, i) && w < |st.workers|
    requires d < |st.stages| && s < |st.stages| && CanAcquire(st, d)
    ensures FlowOf(HandOver(st, w, i, depth, d, e), s) ==
            if s == d then After(FlowOf(st, s), Direct(e)) else FlowOf(st, s)
  {
    hide StageOk, Placed, Begun, ReadyOf, Loose, TakeOver;
    LendFlow(st, i, d, e, s);
    LendKeeps(st, i, d, e);
    TakeOverFlow(Lend(st, i, d, e), w, Acquired(st, d), depth + 1, e, s);
  }

  lemma TakeOverFlow(st: State, w: nat, j: InstId, depth: nat, e: Event, s: StageId)
    requires Structure(st, {j}) && s < |st.stages| && j in st.insts && st.insts[j].job.None? && w < |st.workers|
    ensures FlowOf(TakeOver(st, w, j, depth, e), s) ==
            if st.insts[j].stage == s then FlowOf(st, s).(begun := FlowOf(st, s).begun + [e]) else FlowOf(st, s)
  {
    HandIsLoose(st, {j}, j);
    ReloadFlow(st, j, Fresh(e), s);
    ReloadKeeps(st, {j}, j, Fresh(e));
    HandIsLoose(Reload(st, j, Fresh(e)), {j}, j);
    ResumedFlow(Reload(st, j, Fresh(e)), j, s);
  }

  lemma FinishedRefines(st: State, i: InstId, s: StageId)
    requires Structure(st, {i}) && Suspended(st.insts, i) && s < |st.stages|
    ensures var f := FlowOf(st, s);
            FlowOf(Release(Finish(st, i), i), s) ==
            if st.insts[i].stage == s && f.pending != [] then After(f, Serve) else f
    ensures FlowOf(Destroy(Inactive(Finish(st, i), st.insts[i].stage), i), s) == FlowOf(st, s)
    ensures FlowOf(DestroyUnknown(Finish(st, i), i), s) == FlowOf(st, s)
  {
    HandIsLoose(st, {i}, i);
    FinishFlow(st, i, s);
    FinishKeeps(st, {i}, i);
    var done := Finish(st, i);
    HandIsLoose(done, {i}, i);
    ReleaseFlow(done, i, s);
    DestroyFlow(done, i, s);
  }

  lemma ReturnRefines(st: State, w: nat, o: Outcome, s: StageId)
    requires Sound(st) && Enabled(st, Return(w, o)) && s < |st.stages|
    ensures FlowOf(ReturnStep(st, w, o), s) == After(FlowOf(st, s), MoveOf(st, Return(w, o), s))
  {
    hide StageOk, Placed, HandOver, Release, Destroy, DestroyUnknown, Finish, Inactive, Loose, Begun, ReadyOf;
    var i := st.workers[w].inst;
    var off := Hold(st, w, Parked);
    TakeOffKeeps(st, {}, w);
    assert {} + {i} == {i};
    assert FlowOf(off, s) == FlowOf(st, s);
    HandIsLoose(off, {i}, i);
    if o.Ended? || o.PcallError? || o.DestroySelf? || o.Unknown? {
      FinishedRefines(off, i, s);
    } else if o.Cohort? && CanAcquire(off, o.dst) {
      HandOverRefines(off, w, i, st.workers[w].depth, o.dst, o.event, s);
    } else {
      EnqueueFlow(off, i, Resume, s);
    }
  }

  lemma IoRefines(st: State, i: InstId, s: StageId)
    requires Sound(st) && i in st.waiting && s < |st.stages|
    ensures FlowOf(IoStep(st, i), s) == FlowOf(st, s)
  {
    var off := st.(waiting := st.waiting - {i});
    assert PlacedAt(st, {}, i);
    forall j ensures PlacedAt(off, {i}, j) {
      assert PlacedAt(st, {}, j);
    }
    HandIsLoose(off, {i}, i);
    assert Local(off);
    EnqueueFlow(off, i, Resume, s);
  }

  lemma Shape(st: State, t: Step)
    requires Sound(st) && Enabled(st, t)
    ensures |Apply(st, t).stages| == |st.stages| == |Apply(st, t).past|
  {
    StepKeeps(st, t);
  }

  lemma SoundShape(st: State)
    requires Sound(st)
    ensures Wf(st) && |st.past| == |st.stages|
  {
  }

  /** Every step of the scheduler is, for every stage, the abstract move that MoveOf names. */
  lemma StepRefines(st: State, t: Step, s: StageId)
    requires Sound(st) && Enabled(st, t) && s < |st.stages|
    ensures |Apply(st, t).stages| == |st.stages| == |Apply(st, t).past|
    ensures Possible(FlowOf(st, s), MoveOf(st, t, s))
    ensures FlowOf(Apply(st, t), s) == After(FlowOf(st, s), MoveOf(st, t, s))
  {
    hide EmitStep, PopStep, ReturnStep, IoStep, Sound, Wf, Begun, ReadyOf;
    assert Wf(st) && |st.past| == |st.stages| by { SoundShape(st); }
    Shape(st, t);
    match t
    case Emit(d, e) => EmitRefines(st, d, e, s);
    case Pop(w) => PopRefines(st, w, s);
    case Return(w, o) => ReturnRefines(st, w, o, s);
    case IoReady(i) => IoRefines(st, i, s);
    case KillWorker => ReadyAppend(st.ready, Kill, st.insts, s);
    case _ =>
  }
}
