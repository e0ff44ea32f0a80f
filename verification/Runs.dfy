/** Runs of the scheduler, and what holds at the end of every run. */
module Runs {
  import opened Scheduler
  import opened Invariants
  import opened Mailbox

  ghost predicate IsRun(st: State, steps: seq<Step>)
    decreases |steps|
  {
    steps == [] ||
    (Wf(st) && Enabled(st, steps[0]) && IsRun(Apply(st, steps[0]), steps[1..]))
  }

  ghost function Exec(st: State, steps: seq<Step>): State
    requires IsRun(st, steps)
    decreases |steps|
  {
    if steps == [] then st else Exec(Apply(st, steps[0]), steps[1..])
  }

  /** Every step of the run satisfies `p` in the state it is taken from. */
  ghost predicate Along(st: State, steps: seq<Step>, p: (State, Step) -> bool)
    requires IsRun(st, steps)
    decreases |steps|
  {
    steps == [] || (p(st, steps[0]) && Along(Apply(st, steps[0]), steps[1..], p))
  }

  lemma {:induction false} RunIsSound(st: State, steps: seq<Step>)
    requires Sound(st) && IsRun(st, steps)
    ensures Sound(Exec(st, steps)) && |Exec(st, steps).stages| == |st.stages|
    decreases |steps|
  {
    if steps != [] {
      Shape(st, steps[0]);
      StepKeeps(st, steps[0]);
      RunIsSound(Apply(st, steps[0]), steps[1..]);
    }
  }

  lemma {:induction false} JoinRuns(st: State, a: seq<Step>, b: seq<Step>)
    requires IsRun(st, a) && IsRun(Exec(st, a), b)
    ensures IsRun(st, a + b) && Exec(st, a + b) == Exec(Exec(st, a), b)
    decreases |a|
  {
    hide Apply, Enabled, Wf;
    if a == [] {
      assert a + b == b;
    } else {
      JoinRuns(Apply(st, a[0]), a[1..], b);
      assert (a + b)[1..] == a[1..] + b;
    }
  }

  /** In every state a run reaches, each instance is in exactly one place when it is live and in none
      otherwise, and the counters count live instances and busy instances. */
  lemma ReachableIsSound(serial: seq<bool>, recycleLimit: int, pendingLimit: int, steps: seq<Step>)
    requires IsRun(Initial(serial, recycleLimit, pendingLimit), steps)
    ensures var st := Exec(Initial(serial, recycleLimit, pendingLimit), steps);
            && Sound(st)
            && |st.stages| == |serial|
            && (forall i :: PlacedAt(st, {}, i))
            && (forall s | 0 <= s < |serial| :: st.stages[s].count == |LiveOf(st.insts, s)|)
  {
    var st0 := Initial(serial, recycleLimit, pendingLimit);
    InitialIsSound(serial, recycleLimit, pendingLimit);
    RunIsSound(st0, steps);
    var st := Exec(st0, steps);
    forall s | 0 <= s < |serial| ensures st.stages[s].count == |LiveOf(st.insts, s)| {
      assert StageOk(st.stages[s], st.past[s], st.insts, s);
    }
  }

  // ----- conservation -----

  lemma {:induction false} RunConserves(st: State, steps: seq<Step>, s: StageId)
    requires Sound(st) && IsRun(st, steps) && s < |st.stages| && Conserved(FlowOf(st, s))
    ensures Sound(Exec(st, steps)) && s < |Exec(st, steps).stages|
    ensures Conserved(FlowOf(Exec(st, steps), s))
    decreases |steps|
  {
    if steps != [] {
      StepKeeps(st, steps[0]);
      StepRefines(st, steps[0], s);
      MoveConserves(FlowOf(st, s), MoveOf(st, steps[0], s));
      RunConserves(Apply(st, steps[0]), steps[1..], s);
    }
  }

  /** In every run, whatever the handlers do: the accepted events of a stage are exactly those
      pending, those loaded on a ready instance and those started. */
  lemma EventsAreConserved(serial: seq<bool>, recycleLimit: int, pendingLimit: int, steps: seq<Step>, s: StageId)
    requires IsRun(Initial(serial, recycleLimit, pendingLimit), steps) && s < |serial|
    ensures var st := Exec(Initial(serial, recycleLimit, pendingLimit), steps);
            && s < |st.stages| == |st.past|
            && multiset(st.past[s].accepted) ==
               multiset(Begun(st.past[s].log)) + multiset(ReadyOf(st.ready, st.insts, s))
               + multiset(st.stages[s].pending)
  {
    InitialIsSound(serial, recycleLimit, pendingLimit);
    RunConserves(Initial(serial, recycleLimit, pendingLimit), steps, s);
  }

  /** An emit is rejected exactly when it changes nothing. */
  lemma RejectedEmit(st: State, s: StageId, e: Event)
    requires Sound(st) && s < |st.stages|
    ensures EmitStep(st, s, e) == st <==> !EmitAccepts(st, s)
  {
    if EmitAccepts(st, s) {
      StepRefines(st, Emit(s, e), s);
      assert FlowOf(EmitStep(st, s, e), s).accepted == st.past[s].accepted + [e];
    }
  }

  // ----- the active counter -----

  function Ids(idle: seq<InstId>): set<InstId> {
    set i | i in idle
  }

  lemma {:induction false} IdleDistinct(idle: seq<InstId>)
    requires forall i :: Times(idle, i) <= 1
    ensures |Ids(idle)| == |idle|
  {
    if idle != [] {
      var rest := idle[..|idle| - 1];
      var last := idle[|idle| - 1];
      assert idle == rest + [last];
      forall i ensures Times(rest, i) <= 1 {
        assert Times(idle, i) == Times(rest, i) + Times([last], i);
      }
      IdleDistinct(rest);
      assert Times(idle, last) == Times(rest, last) + 1;
      assert last !in rest;
      assert Ids(idle) == Ids(rest) + {last};
    }
  }

  function BusyOf(st: State, s: StageId): set<InstId>
    requires s < |st.stages|
  {
    LiveOf(st.insts, s) - Ids(st.stages[s].idle)
  }

  lemma BusyCount(st: State, s: StageId)
    requires Sound(st) && s < |st.stages|
    ensures st.stages[s].count - |st.stages[s].idle| == |BusyOf(st, s)|
    ensures st.stages[s].active == |BusyOf(st, s)| + st.past[s].unknown
  {
    var x := st.stages[s];
    assert StageOk(x, st.past[s], st.insts, s);
    forall i ensures Times(x.idle, i) <= 1 {
      assert PlacedAt(st, {}, i);
      IdleTallyUpdate(st.stages, s, x, i);
    }
    IdleDistinct(x.idle);
    var live := LiveOf(st.insts, s);
    assert Ids(x.idle) <= live;
    assert live == BusyOf(st, s) + Ids(x.idle);
  }

  /** The active counter is the number of busy instances plus the number of unknown status codes ever
      returned; so it is right exactly when none was. */
  lemma ActiveCounter(serial: seq<bool>, recycleLimit: int, pendingLimit: int, steps: seq<Step>, s: StageId)
    requires IsRun(Initial(serial, recycleLimit, pendingLimit), steps) && s < |serial|
    ensures var st := Exec(Initial(serial, recycleLimit, pendingLimit), steps);
            && s < |st.stages| == |st.past|
            && st.stages[s].active == |BusyOf(st, s)| + st.past[s].unknown
            && (st.stages[s].active == |BusyOf(st, s)| <==> st.past[s].unknown == 0)
  {
    ReachableIsSound(serial, recycleLimit, pendingLimit, steps);
    BusyCount(Exec(Initial(serial, recycleLimit, pendingLimit), steps), s);
  }

  // ----- one stage across one step -----

  function Taken(x: Stage): Stage {
    if x.idle != [] then x.(idle := x.idle[1..], active := x.active + 1)
    else x.(count := x.count + 1, active := x.active + 1)
  }

  function Released(x: Stage, i: InstId): Stage {
    if x.pending != [] then x.(pending := x.pending[1..])
    else if Full(|x.idle|, x.idleCap) then x.(active := x.active - 1, count := x.count - 1)
    else x.(active := x.active - 1, idle := x.idle + [i])
  }

  /** The tables of stage `s` after a step, in terms of its tables before. */
  function StageAfter(st: State, t: Step, s: StageId): Stage
    requires Wf(st) && Enabled(st, t) && s < |st.stages|
  {
    var x := st.stages[s];
    match t
    case Emit(d, e) =>
      if d != s then x
      else if CanAcquire(st, s) then Taken(x)
      else if Full(|x.pending|, x.pendingCap) then x
      else x.(pending := x.pending + [e])
    case Return(w, o) =>
      var i := st.workers[w].inst;
      if o.Cohort? then (if o.dst == s && CanAcquire(st, s) then Taken(x) else x)
      else if st.insts[i].stage != s then x
      else if o.Ended? then Released(x, i)
      else if o.PcallError? || o.DestroySelf? then x.(active := x.active - 1, count := x.count - 1)
      else if o.Unknown? then x.(count := x.count - 1)
      else x
    case SetMaxpar(cap) => if cap < -1 || x.serial then x else WithLimit(x, cap)
    case SetMaxparOf(target, cap) =>
      if target != s || cap < -1 || x.serial then x else WithLimit(x, cap)
    case SetPendingCapacity(d, cap) => if d == s then x.(pendingCap := cap) else x
    case _ => x
  }

  lemma CohortStage(st: State, w: nat, i: InstId, depth: nat, d: StageId, e: Event, s: StageId)
    requires Wf(st) && w < |st.workers| && i in st.insts
    requires d < |st.stages| && s < |st.stages| && CanAcquire(st, d)
    ensures HandOver(st, w, i, depth, d, e).stages == st.stages[d := Taken(st.stages[d])]
  {
    assert Lend(st, i, d, e).stages == Acquire(st, d).stages;
  }

  lemma FinishedStage(st: State, i: InstId, s: StageId)
    requires Wf(st) && i in st.insts && s < |st.stages|
    ensures var x := st.stages[s];
            var own := st.insts[i].stage == s;
            var done := Finish(st, i);
            && |Release(done, i).stages| == |st.stages|
            && Release(done, i).stages[s] == (if own then Released(x, i) else x)
            && |Destroy(Inactive(done, st.insts[i].stage), i).stages| == |st.stages|
            && Destroy(Inactive(done, st.insts[i].stage), i).stages[s] ==
               (if own then x.(active := x.active - 1, count := x.count - 1) else x)
            && |DestroyUnknown(done, i).stages| == |st.stages|
            && DestroyUnknown(done, i).stages[s] == (if own then x.(count := x.count - 1) else x)
  {
  }

  lemma ReturnStage(st: State, w: nat, o: Outcome, s: StageId)
    requires Wf(st) && Enabled(st, Return(w, o)) && s < |st.stages|
    ensures |ReturnStep(st, w, o).stages| == |st.stages|
    ensures ReturnStep(st, w, o).stages[s] == StageAfter(st, Return(w, o), s)
  {
    hide HandOver, Release, Destroy, DestroyUnknown, Finish, Inactive;
    var i := st.workers[w].inst;
    var off := Hold(st, w, Parked);
    assert Wf(off);
    if o.Cohort? && CanAcquire(off, o.dst) {
      CohortStage(off, w, i, st.workers[w].depth, o.dst, o.event, s);
    } else if o.Ended? || o.PcallError? || o.DestroySelf? || o.Unknown? {
      FinishedStage(off, i, s);
    }
  }

  lemma StepStage(st: State, t: Step, s: StageId)
    requires Wf(st) && Enabled(st, t) && s < |st.stages|
    ensures |Apply(st, t).stages| == |st.stages|
    ensures Apply(st, t).stages[s] == StageAfter(st, t, s)
  {
    hide ReturnStep;
    if t.Return? {
      ReturnStage(st, t.worker, t.outcome, s);
    }
  }

  // ----- no stranded events -----

  /** A stage with pending events has no idle instance and no room for another one. */
  ghost predicate Flowing(st: State, s: StageId)
    requires s < |st.stages|
  {
    st.stages[s].pending != [] ==> !CanAcquire(st, s)
  }

  predicate Destroying(o: Outcome) {
    o.PcallError? || o.DestroySelf? || o.Unknown?
  }

  /** The step does not take an instance, or the limit it had reached, away from waiting events. */
  ghost predicate Gentle(st: State, t: Step, s: StageId) {
    Wf(st) && Enabled(st, t) && s < |st.stages| &&
    (st.stages[s].pending != [] ==>
       match t
       case Return(w, o) => Destroying(o) ==> st.insts[st.workers[w].inst].stage != s
       case SetMaxpar(cap) => cap < -1 || st.stages[s].serial || cap == st.stages[s].count
       case SetMaxparOf(target, cap) =>
         target != s || cap < -1 || st.stages[s].serial || cap == st.stages[s].count
       case _ => true)
  }

  /** Pending events stay covered exactly across the gentle steps. */
  lemma StrandedExactly(st: State, t: Step, s: StageId)
    requires Wf(st) && Enabled(st, t) && s < |st.stages| && Flowing(st, s)
    ensures s < |Apply(st, t).stages|
    ensures Flowing(Apply(st, t), s) <==> Gentle(st, t, s)
  {
    StepStage(st, t, s);
  }

  /** The step leads to a state in which the pending events of `s` are covered. */
  ghost predicate Covers(st: State, t: Step, s: StageId) {
    Wf(st) && Enabled(st, t) && s < |Apply(st, t).stages| && Flowing(Apply(st, t), s)
  }

  /** Pending events are covered in every state of a run exactly when every step of it is gentle. */
  lemma {:induction false} RunFlows(st: State, steps: seq<Step>, s: StageId)
    requires Sound(st) && IsRun(st, steps) && s < |st.stages| && Flowing(st, s)
    ensures Along(st, steps, (x, t) => Covers(x, t, s)) <==> Along(st, steps, (x, t) => Gentle(x, t, s))
    ensures Along(st, steps, (x, t) => Gentle(x, t, s)) ==>
              s < |Exec(st, steps).stages| && Flowing(Exec(st, steps), s)
    decreases |steps|
  {
    if steps != [] {
      StrandedExactly(st, steps[0], s);
      if Gentle(st, steps[0], s) {
        StepKeeps(st, steps[0]);
        RunFlows(Apply(st, steps[0]), steps[1..], s);
      }
    }
  }

  /** No stranded events: whatever is sent to a stage, cohort sends included, its pending events wait only while no
      instance is idle and the limit is reached, in every state of a run, exactly when no step destroys an instance or
      moves the limit under pending events. */
  lemma NoStrandedEvents(serial: seq<bool>, recycleLimit: int, pendingLimit: int, steps: seq<Step>, s: StageId)
    requires IsRun(Initial(serial, recycleLimit, pendingLimit), steps) && s < |serial|
    ensures var st0 := Initial(serial, recycleLimit, pendingLimit);
            var gentle := Along(st0, steps, (x, t) => Gentle(x, t, s));
            && (gentle <==> Along(st0, steps, (x, t) => Covers(x, t, s)))
            && (gentle ==>
                  var st := Exec(st0, steps);
                  && s < |st.stages|
                  && (st.stages[s].pending != [] ==>
                        st.stages[s].idle == [] && st.stages[s].count == st.stages[s].limit))
  {
    InitialIsSound(serial, recycleLimit, pendingLimit);
    RunFlows(Initial(serial, recycleLimit, pendingLimit), steps, s);
  }

  // ----- FIFO order -----

  /** A gentle step that, if it is a cohort send into `s`, finds no loaded event of `s` to overtake. */
  ghost predicate InOrder(st: State, t: Step, s: StageId) {
    && Gentle(st, t, s)
    && (t.Return? && t.outcome.Cohort? && t.outcome.dst == s && CanAcquire(st, s) ==>
          ReadyOf(st.ready, st.insts, s) == [])
  }

  lemma InOrderIsPolite(st: State, t: Step, s: StageId)
    requires Sound(st) && Enabled(st, t) && s < |st.stages| && Flowing(st, s) && InOrder(st, t, s)
    ensures Polite(FlowOf(st, s), MoveOf(st, t, s))
  {
  }

  lemma StepOrdered(st: State, t: Step, s: StageId)
    requires Sound(st) && s < |st.stages| && Enabled(st, t) && InOrder(st, t, s)
    requires Flowing(st, s) && Ordered(FlowOf(st, s))
    ensures Sound(Apply(st, t)) && s < |Apply(st, t).stages|
    ensures Flowing(Apply(st, t), s) && Ordered(FlowOf(Apply(st, t), s))
  {
    StepKeeps(st, t);
    StrandedExactly(st, t, s);
    StepRefines(st, t, s);
    InOrderIsPolite(st, t, s);
    PoliteOrders(FlowOf(st, s), MoveOf(st, t, s));
  }

  lemma {:induction false} RunOrdered(st: State, steps: seq<Step>, s: StageId)
    requires Sound(st) && IsRun(st, steps) && s < |st.stages|
    requires Flowing(st, s) && Ordered(FlowOf(st, s))
    requires Along(st, steps, (x, t) => InOrder(x, t, s))
    ensures var r := Exec(st, steps);
            Sound(r) && s < |r.stages| && Flowing(r, s) && Ordered(FlowOf(r, s))
    decreases |steps|
  {
    if steps != [] {
      StepOrdered(st, steps[0], s);
      RunOrdered(Apply(st, steps[0]), steps[1..], s);
    }
  }

  /** The step brings no event into `s` that the stage has accepted before. */
  ghost predicate NewEvent(st: State, t: Step, s: StageId) {
    && Wf(st) && Enabled(st, t) && s < |st.stages|
    && IsNew(FlowOf(st, s), MoveOf(st, t, s))
  }

  /** The step overtakes nothing: it does not acquire an instance of `s` for a new event while an older one is pending,
      or, for a cohort send, loaded. */
  ghost predicate InTurn(st: State, t: Step, s: StageId) {
    && Wf(st) && Enabled(st, t) && s < |st.stages|
    && Polite(FlowOf(st, s), MoveOf(st, t, s))
  }

  /** A step leaves a stage in acceptance order exactly when the stage was in order and the step overtakes nothing. */
  lemma StepOrderExactly(st: State, t: Step, s: StageId)
    requires Sound(st) && Enabled(st, t) && s < |st.stages| && Conserved(FlowOf(st, s)) && NewEvent(st, t, s)
    ensures s < |Apply(st, t).stages| == |Apply(st, t).past|
    ensures Conserved(FlowOf(Apply(st, t), s))
    ensures Ordered(FlowOf(Apply(st, t), s)) <==> Ordered(FlowOf(st, s)) && InTurn(st, t, s)
  {
    StepRefines(st, t, s);
    MoveConserves(FlowOf(st, s), MoveOf(st, t, s));
    MoveOrder(FlowOf(st, s), MoveOf(st, t, s));
  }

  lemma {:induction false} RunOrderExactly(st: State, steps: seq<Step>, s: StageId)
    requires Sound(st) && IsRun(st, steps) && s < |st.stages| && Conserved(FlowOf(st, s))
    requires Along(st, steps, (x, t) => NewEvent(x, t, s))
    ensures var r := Exec(st, steps);
            && s < |r.stages| == |r.past|
            && (Ordered(FlowOf(r, s)) <==> Ordered(FlowOf(st, s)) && Along(st, steps, (x, t) => InTurn(x, t, s)))
    decreases |steps|
  {
    if steps != [] {
      StepKeeps(st, steps[0]);
      StepOrderExactly(st, steps[0], s);
      RunOrderExactly(Apply(st, steps[0]), steps[1..], s);
    }
  }

  // ----- workers -----

  /** What a worker does next when its handler came back. */
  function ReturnedTo(st: State, w: nat, o: Outcome): Worker
    requires w < |st.workers| && st.workers[w].Running? && (o.Cohort? ==> o.dst < |st.stages|)
  {
    if o.Cohort? && CanAcquire(st, o.dst) then Running(Acquired(st, o.dst), st.workers[w].depth + 1) else Parked
  }

  /** Only the worker itself changes, and no counter of the pool does. */
  lemma ReturnWorkers(st: State, w: nat, o: Outcome)
    requires Wf(st) && w < |st.workers| && st.workers[w].Running? && (o.Cohort? ==> o.dst < |st.stages|)
    ensures var r := ReturnStep(st, w, o);
            && r.workers == st.workers[w := ReturnedTo(st, w, o)]
            && r.poolSize == st.poolSize && r.created == st.created && r.consumed == st.consumed
  {
    var i := st.workers[w].inst;
    var off := Hold(st, w, Parked);
    if o.Cohort? && CanAcquire(off, o.dst) {
      assert Lend(off, i, o.dst, o.event).workers == off.workers;
    } else {
      assert ReturnStep(st, w, o).workers == off.workers;
    }
  }
}
