/** Workers and kill requests, which share the ready queue with the instances. */
module WorkerPool {
  import opened Scheduler
  import opened Invariants
  import opened Runs

  function Alive(workers: seq<Worker>): nat {
    if workers == [] then 0
    else Alive(workers[..|workers| - 1]) + One(!workers[|workers| - 1].Exited?)
  }

  lemma {:induction false} AliveUpdate(workers: seq<Worker>, w: nat, x: Worker)
    requires w < |workers|
    ensures Alive(workers[w := x]) + One(!workers[w].Exited?) == Alive(workers) + One(!x.Exited?)
  {
    var n := |workers| - 1;
    if w < n {
      AliveUpdate(workers[..n], w, x);
      assert workers[w := x][..n] == workers[..n][w := x];
    } else {
      assert workers[w := x][..n] == workers[..n];
    }
  }

  ghost predicate PoolOk(st: State) {
    st.poolSize == Alive(st.workers) && Alive(st.workers) + st.consumed == st.created
  }

  /** What becomes of the worker that a step is about. */
  function Turned(st: State, t: Step): Worker
    requires Wf(st) && Enabled(st, t) && (t.Pop? || t.Return?)
  {
    if t.Return? then ReturnedTo(st, t.worker, t.outcome)
    else
      match st.ready[0]
      case Kill => Exited
      case Job(i) => Running(i, 1)
  }

  /** A step changes at most the worker it is about: a popped instance runs alone on its stack, a taken cohort send puts
      the callee one frame above its caller, and everything else leaves the worker free. */
  lemma WorkersAfter(st: State, t: Step)
    requires Wf(st) && Enabled(st, t)
    ensures Apply(st, t).workers ==
            if t.Pop? || t.Return? then st.workers[t.worker := Turned(st, t)]
            else if t.NewWorker? then st.workers + [Parked]
            else st.workers
  {
    hide Wf, ReturnStep;
    match t
    case Pop(w) => assert st.ready[0] in st.ready;
    case Return(w, o) => ReturnWorkers(st, w, o);
    case _ =>
  }

  lemma StepPool(st: State, t: Step)
    requires Wf(st) && Enabled(st, t) && PoolOk(st)
    ensures PoolOk(Apply(st, t))
  {
    hide Wf, ReturnStep;
    var r := Apply(st, t);
    WorkersAfter(st, t);
    match t
    case Pop(w) => AliveUpdate(st.workers, w, r.workers[w]);
    case Return(w, o) =>
      ReturnWorkers(st, w, o);
      AliveUpdate(st.workers, w, r.workers[w]);
    case NewWorker => assert r.workers[..|st.workers|] == st.workers;
    case _ =>
  }

  lemma {:induction false} RunPool(st: State, steps: seq<Step>)
    requires IsRun(st, steps) && PoolOk(st)
    ensures PoolOk(Exec(st, steps))
    decreases |steps|
  {
    if steps != [] {
      StepPool(st, steps[0]);
      RunPool(Apply(st, steps[0]), steps[1..]);
    }
  }

  /** In every run the pool size is the number of living workers, living workers and consumed kill
      requests add up to the workers created, and so all are gone exactly when as many requests were
      consumed as workers were created. */
  lemma PoolIsExact(serial: seq<bool>, recycleLimit: int, pendingLimit: int, steps: seq<Step>)
    requires IsRun(Initial(serial, recycleLimit, pendingLimit), steps)
    ensures var st := Exec(Initial(serial, recycleLimit, pendingLimit), steps);
            && st.poolSize == Alive(st.workers)
            && Alive(st.workers) + st.consumed == st.created
            && (st.consumed == st.created <==> st.poolSize == 0)
  {
    RunPool(Initial(serial, recycleLimit, pendingLimit), steps);
  }

  // ----- the ready queue is served in order -----

  function PoppedBy(st: State, t: Step): seq<Entry> {
    if t.Pop? && st.ready != [] then [st.ready[0]] else []
  }

  ghost function Popped(st: State, steps: seq<Step>): seq<Entry>
    requires IsRun(st, steps)
    decreases |steps|
  {
    if steps == [] then [] else PoppedBy(st, steps[0]) + Popped(Apply(st, steps[0]), steps[1..])
  }

  lemma CohortReady(st: State, w: nat, i: InstId, depth: nat, d: StageId, e: Event)
    requires Wf(st) && w < |st.workers| && i in st.insts && d < |st.stages| && CanAcquire(st, d)
    ensures HandOver(st, w, i, depth, d, e).ready == st.ready + [Job(i)]
  {
    assert Lend(st, i, d, e).ready == st.ready + [Job(i)];
  }

  /** A step takes at most the head of the ready queue and otherwise only appends to it. */
  lemma StepReady(st: State, t: Step)
    requires Wf(st) && Enabled(st, t)
    ensures st.ready <= PoppedBy(st, t) + Apply(st, t).ready
  {
    if t.Pop? {
      assert st.ready[0] in st.ready;
      assert st.ready == [st.ready[0]] + st.ready[1..];
    } else if t.Return? && t.outcome.Cohort? {
      var off := Hold(st, t.worker, Parked);
      if CanAcquire(off, t.outcome.dst) {
        CohortReady(off, t.worker, st.workers[t.worker].inst, st.workers[t.worker].depth,
                    t.outcome.dst, t.outcome.event);
      }
    }
  }

  /** The ready queue at any moment is served before anything pushed later: what a run pops, followed
      by what it leaves, begins with it. */
  lemma {:induction false} ReadyIsServedInOrder(st: State, steps: seq<Step>)
    requires IsRun(st, steps)
    ensures st.ready <= Popped(st, steps) + Exec(st, steps).ready
    decreases |steps|
  {
    hide Wf, Apply, Enabled, PoppedBy;
    if steps != [] {
      var next := Apply(st, steps[0]);
      StepReady(st, steps[0]);
      ReadyIsServedInOrder(next, steps[1..]);
      assert PoppedBy(st, steps[0]) + (Popped(next, steps[1..]) + Exec(st, steps).ready) ==
             Popped(st, steps) + Exec(st, steps).ready;
    }
  }

  /** Everything that was ahead of a kill request has been dispatched, in order, by the time a run
      consumed as many entries as reach the request. */
  lemma KillWaitsItsTurn(st: State, steps: seq<Step>, ahead: seq<Entry>, behind: seq<Entry>)
    requires IsRun(st, steps) && st.ready == ahead + [Kill] + behind
    requires |Popped(st, steps)| > |ahead|
    ensures Popped(st, steps)[..|ahead|] == ahead && Popped(st, steps)[|ahead|] == Kill
  {
    ReadyIsServedInOrder(st, steps);
    var all := Popped(st, steps) + Exec(st, steps).ready;
    assert all[..|st.ready|] == st.ready;
    assert st.ready[..|ahead|] == ahead && st.ready[|ahead|] == Kill;
    assert forall k | 0 <= k <= |ahead| :: Popped(st, steps)[k] == all[k] == st.ready[k];
  }
}
