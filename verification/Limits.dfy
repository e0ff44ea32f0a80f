/** The limits of a stage and its two queues, which are those of src/kernel/queue.c. */
module Limits {
  import opened Scheduler
  import opened Invariants
  import opened Runs
  import Q = Queues

  // ----- the queues -----

  function Pending(x: Stage): Q.Bounded<Event> {
    Q.Bounded(x.pending, x.pendingCap)
  }

  function Recycle(x: Stage): Q.Bounded<InstId> {
    Q.Bounded(x.idle, x.idleCap)
  }

  /** The stage is asked for an instance. */
  predicate Asks(t: Step, s: StageId) {
    (t.Emit? && t.stage == s) || (t.Return? && t.outcome.Cohort? && t.outcome.dst == s)
  }

  /** An instance of the stage has run to its end. */
  predicate Frees(st: State, t: Step, s: StageId)
    requires Wf(st) && Enabled(st, t)
  {
    t.Return? && t.outcome.Ended? && st.insts[st.workers[t.worker].inst].stage == s
  }

  function PendingOps(st: State, t: Step, s: StageId): seq<Q.Op<Event>>
    requires Wf(st) && Enabled(st, t) && s < |st.stages|
  {
    if t.Emit? && t.stage == s && !CanAcquire(st, s) then [Q.TryPush(t.event)]
    else if Frees(st, t, s) then [Q.TryPop]
    else if t.SetPendingCapacity? && t.stage == s then [Q.SetCapacity(t.cap)]
    else []
  }

  function RecycleOps(st: State, t: Step, s: StageId): seq<Q.Op<InstId>>
    requires Wf(st) && Enabled(st, t) && s < |st.stages|
  {
    if Asks(t, s) then [Q.TryPop]
    else if Frees(st, t, s) && st.stages[s].pending == [] then [Q.TryPush(st.workers[t.worker].inst)]
    else if Sets(t, s, st.stages[s].serial) then [Q.SetCapacity(t.cap)]
    else []
  }

  /** The step is a legal setting of the limit of stage `s`. */
  predicate Sets(t: Step, s: StageId, serial: bool) {
    !serial && ((t.SetMaxpar? && t.cap >= -1) || (t.SetMaxparOf? && t.target == s && t.cap >= -1))
  }

  /** Every step works on the two queues of a stage through the operations of a bounded FIFO. */
  lemma StageQueues(st: State, t: Step, s: StageId)
    requires Wf(st) && Enabled(st, t) && s < |st.stages|
    ensures var x := st.stages[s];
            && s < |Apply(st, t).stages|
            && Pending(Apply(st, t).stages[s]) == Q.AfterAll(Pending(x), PendingOps(st, t, s))
            && Recycle(Apply(st, t).stages[s]) == Q.AfterAll(Recycle(x), RecycleOps(st, t, s))
  {
    hide Wf, Apply;
    StepStage(st, t, s);
    assert forall ops: seq<Q.Op<Event>> | |ops| == 1 :: ops[1..] == [];
    assert forall ops: seq<Q.Op<InstId>> | |ops| == 1 :: ops[1..] == [];
  }

  // ----- the limits -----

  /** The limit of a stage as the settings of a run leave it: the last legal one, or the one it had. */
  function LastLimit(steps: seq<Step>, s: StageId, serial: bool, now: int): int
    decreases |steps|
  {
    if steps == [] then now
    else LastLimit(steps[1..], s, serial, if Sets(steps[0], s, serial) then steps[0].cap else now)
  }

  function LastCapacity(steps: seq<Step>, s: StageId, now: int): int
    decreases |steps|
  {
    if steps == [] then now
    else
      var t := steps[0];
      LastCapacity(steps[1..], s, if t.SetPendingCapacity? && t.stage == s then t.cap else now)
  }

  lemma {:induction false} RunLimits(st: State, steps: seq<Step>, s: StageId)
    requires IsRun(st, steps) && s < |st.stages| && st.stages[s].idleCap == st.stages[s].limit
    ensures var x, y := st.stages[s], Exec(st, steps).stages;
            && s < |y| && y[s].serial == x.serial
            && y[s].limit == y[s].idleCap == LastLimit(steps, s, x.serial, x.limit)
            && y[s].pendingCap == LastCapacity(steps, s, x.pendingCap)
    decreases |steps|
  {
    hide Wf, Apply;
    if steps != [] {
      StepStage(st, steps[0], s);
      RunLimits(Apply(st, steps[0]), steps[1..], s);
    }
  }

  /** In every run the limit of a stage, for its instances and for its recycle queue, is the last legal setting or the
      default, and 1 for ever if it is serial; the capacity of its event queue is the last setting of that, or the
      default for event queues. */
  lemma LimitsAreAsSet(serial: seq<bool>, recycleLimit: int, pendingLimit: int, steps: seq<Step>, s: StageId)
    requires IsRun(Initial(serial, recycleLimit, pendingLimit), steps) && s < |serial|
    ensures var x := Exec(Initial(serial, recycleLimit, pendingLimit), steps).stages;
            && s < |x|
            && x[s].limit == x[s].idleCap == (if serial[s] then 1 else LastLimit(steps, s, false, recycleLimit))
            && x[s].pendingCap == LastCapacity(steps, s, pendingLimit)
  {
    RunLimits(Initial(serial, recycleLimit, pendingLimit), steps, s);
    if serial[s] {
      SerialKeepsLimit(steps, s, 1);
    }
  }

  lemma {:induction false} SerialKeepsLimit(steps: seq<Step>, s: StageId, now: int)
    ensures LastLimit(steps, s, true, now) == now
    decreases |steps|
  {
    if steps != [] {
      SerialKeepsLimit(steps[1..], s, now);
    }
  }
}
