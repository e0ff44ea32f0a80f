/** Where an instance is, and where each step of the scheduler takes it. */
module LifeCycle {
  import opened Scheduler
  import opened Invariants
  import opened Runs
  import opened WorkerPool

  datatype Place = Nowhere | Idle | Queued | Waiting | On(worker: nat)

  ghost predicate At(st: State, i: InstId, p: Place) {
    match p
    case Nowhere => i !in st.insts
    case Idle => i in st.insts && st.insts[i].stage < |st.stages| && i in st.stages[st.insts[i].stage].idle
    case Queued => Job(i) in st.ready
    case Waiting => i in st.waiting
    case On(w) => w < |st.workers| && st.workers[w].Running? && st.workers[w].inst == i
  }

  // ----- one place at a time -----

  lemma {:induction false} OnlyWorker(workers: seq<Worker>, v: nat, w: nat, i: InstId)
    requires v < w < |workers| && OnWorker(workers[v], i) == 1 && OnWorker(workers[w], i) == 1
    ensures WorkerTally(workers, i) >= 2
  {
    WorkerTallyUpdate(workers, w, Parked, i);
    WorkerTallyUpdate(workers[w := Parked], v, workers[v], i);
  }

  lemma AtCounts(st: State, i: InstId, p: Place)
    requires Wf(st) && At(st, i, p) && p != Nowhere
    ensures i in st.insts && Tally(st, i) >= 1
    ensures p == Idle ==> IdleTally(st.stages, i) >= 1
    ensures p == Queued ==> ReadyTally(st.ready, i) >= 1
    ensures p.On? ==> WorkerTally(st.workers, i) >= 1
  {
    match p
    case Idle => IdleTallyUpdate(st.stages, st.insts[i].stage, st.stages[st.insts[i].stage], i);
    case Queued => ReadyTallyHas(st.ready, i);
    case Waiting =>
    case On(w) => WorkerTallyUpdate(st.workers, w, st.workers[w], i);
  }

  /** An instance is in one place only. */
  lemma OnePlace(st: State, i: InstId, p: Place, q: Place)
    requires Sound(st) && At(st, i, p) && At(st, i, q)
    ensures p == q
  {
    hide Local;
    SoundMeans(st);
    assert PlacedAt(st, {}, i);
    if p != Nowhere && q != Nowhere {
      AtCounts(st, i, p);
      AtCounts(st, i, q);
      if p.On? && q.On? && p != q {
        if p.worker < q.worker {
          OnlyWorker(st.workers, p.worker, q.worker, i);
        } else {
          OnlyWorker(st.workers, q.worker, p.worker, i);
        }
      }
    }
  }

  // ----- what a step does -----

  /** Where the status of its handler sends an instance of stage `x`. */
  function Sent(x: Stage, o: Outcome): Place {
    match o
    case Ended => if x.pending != [] then Queued else if Full(|x.idle|, x.idleCap) then Nowhere else Idle
    case PcallError => Nowhere
    case DestroySelf => Nowhere
    case Unknown => Nowhere
    case Cohort(_, _) => Queued
    case Await(valid) => if valid then Waiting else Queued
    case Nice => Queued
  }

  /** Where a step takes an instance from a place. */
  function Next(st: State, t: Step, i: InstId, p: Place): Place
    requires Wf(st) && Enabled(st, t)
  {
    match t
    case Emit(s, _) => if CanAcquire(st, s) && Acquired(st, s) == i then Queued else p
    case Pop(w) => if st.ready[0] == Job(i) then On(w) else p
    case Return(w, o) =>
      if st.workers[w].inst == i then Sent(st.stages[st.insts[i].stage], o)
      else if o.Cohort? && CanAcquire(st, o.dst) && Acquired(st, o.dst) == i then On(w)
      else p
    case IoReady(j) => if i == j then Queued else p
    case _ => p
  }

  /** What a step puts at the end of the ready queue. */
  function Pushed(st: State, t: Step): seq<Entry>
    requires Wf(st) && Enabled(st, t)
  {
    match t
    case Emit(s, _) => if CanAcquire(st, s) then [Job(Acquired(st, s))] else []
    case Return(w, o) =>
      var i := st.workers[w].inst;
      if Sent(st.stages[st.insts[i].stage], o) == Queued then [Job(i)] else []
    case IoReady(i) => [Job(i)]
    case KillWorker => [Kill]
    case _ => []
  }

  /** The ready queue changes at its two ends only. */
  lemma ReadyAfter(st: State, t: Step)
    requires Wf(st) && Enabled(st, t)
    ensures PoppedBy(st, t) + Apply(st, t).ready == st.ready + Pushed(st, t)
  {
    if t.Pop? {
      assert st.ready[0] in st.ready;
    } else if t.Return? && t.outcome.Cohort? {
      var off := Hold(st, t.worker, Parked);
      if CanAcquire(off, t.outcome.dst) {
        CohortReady(off, t.worker, st.workers[t.worker].inst, st.workers[t.worker].depth,
                    t.outcome.dst, t.outcome.event);
      }
    }
  }

  /** An instance waits for I/O or a timer from its own request to its completion. */
  lemma WaitingAfter(st: State, t: Step)
    requires Wf(st) && Enabled(st, t)
    ensures Apply(st, t).waiting ==
            match t
            case Return(w, Await(true)) => st.waiting + {st.workers[w].inst}
            case IoReady(i) => st.waiting - {i}
            case _ => st.waiting
  {
    if t.Return? && t.outcome.Cohort? {
      var off := Hold(st, t.worker, Parked);
      if CanAcquire(off, t.outcome.dst) {
        assert Lend(off, st.workers[t.worker].inst, t.outcome.dst, t.outcome.event).waiting == st.waiting;
      }
    }
  }

  /** Who is alive after the handler on a worker came back, and that nobody changes stage. */
  lemma ReturnInsts(st: State, w: nat, o: Outcome)
    requires Wf(st) && Enabled(st, Return(w, o))
    ensures var i := st.workers[w].inst;
            var r := ReturnStep(st, w, o);
            && (i in r.insts <==> Sent(st.stages[st.insts[i].stage], o) != Nowhere)
            && (forall j | j in st.insts && j != i :: j in r.insts)
            && (forall j | j in r.insts && j !in st.insts :: o.Cohort? && CanAcquire(st, o.dst) && j == st.next)
            && (o.Cohort? && CanAcquire(st, o.dst) ==> Acquired(st, o.dst) in r.insts)
            && (forall j | j in st.insts && j in r.insts && j != st.next :: r.insts[j].stage == st.insts[j].stage)
  {
  }

  lemma EmitInsts(st: State, s: StageId, e: Event)
    requires Wf(st) && s < |st.stages|
    ensures var r := EmitStep(st, s, e);
            && (forall j | j in st.insts && j != st.next :: j in r.insts && r.insts[j].stage == st.insts[j].stage)
            && (forall j | j in r.insts && j !in st.insts :: CanAcquire(st, s) && j == Acquired(st, s))
  {
  }

  lemma ToQueued(st: State, t: Step, i: InstId, p: Place)
    requires Wf(st) && Enabled(st, t) && At(st, i, p) && Next(st, t, i, p) == Queued
    ensures At(Apply(st, t), i, Queued)
  {
    hide Wf, Apply, Full;
    ReadyAfter(st, t);
    var all := PoppedBy(st, t) + Apply(st, t).ready;
    if Job(i) in Pushed(st, t) {
      assert Job(i) == Pushed(st, t)[0] == all[|st.ready|];
    } else {
      assert p == Queued;
      var k :| 0 <= k < |st.ready| && st.ready[k] == Job(i);
      assert all[k] == Job(i);
    }
  }

  lemma ToWaiting(st: State, t: Step, i: InstId, p: Place)
    requires Wf(st) && Enabled(st, t) && At(st, i, p) && Next(st, t, i, p) == Waiting
    ensures At(Apply(st, t), i, Waiting)
  {
    hide Wf, Apply, Full;
    WaitingAfter(st, t);
  }

  lemma ToWorker(st: State, t: Step, i: InstId, p: Place)
    requires Wf(st) && Enabled(st, t) && At(st, i, p) && Next(st, t, i, p).On?
    ensures At(Apply(st, t), i, Next(st, t, i, p))
  {
    hide Wf, Apply, Full;
    WorkersAfter(st, t);
  }

  lemma Known(st: State, i: InstId, p: Place, t: Step)
    requires Sound(st) && Wf(st) && Enabled(st, t) && At(st, i, p) && Next(st, t, i, p) == Idle
    ensures i in st.insts && st.insts[i].stage < |st.stages| && i < st.next
  {
  }

  lemma ToIdle(st: State, t: Step, i: InstId, p: Place)
    requires Sound(st) && Wf(st) && Enabled(st, t) && At(st, i, p) && Next(st, t, i, p) == Idle
    ensures At(Apply(st, t), i, Idle)
  {
    hide Wf, ReturnStep, EmitStep, Sound;
    assert i in st.insts && st.insts[i].stage < |st.stages| && i < st.next by { Known(st, i, p, t); }
    StepStage(st, t, st.insts[i].stage);
    if t.Return? {
      ReturnInsts(st, t.worker, t.outcome);
    } else if t.Emit? {
      EmitInsts(st, t.stage, t.event);
    }
  }

  lemma ToNowhere(st: State, t: Step, i: InstId, p: Place)
    requires Wf(st) && Enabled(st, t) && At(st, i, p) && Next(st, t, i, p) == Nowhere
    ensures At(Apply(st, t), i, Nowhere)
  {
    if t.Return? {
      hide ReturnStep;
      ReturnInsts(st, t.worker, t.outcome);
    }
  }

  /** The life cycle of an instance: every step takes it from its place to the next one. */
  lemma Journey(st: State, t: Step, i: InstId, p: Place)
    requires Sound(st) && Enabled(st, t) && At(st, i, p)
    ensures At(Apply(st, t), i, Next(st, t, i, p))
  {
    hide Apply, Next, At, Local;
    SoundMeans(st);
    match Next(st, t, i, p)
    case Nowhere => ToNowhere(st, t, i, p);
    case Idle => ToIdle(st, t, i, p);
    case Queued => ToQueued(st, t, i, p);
    case Waiting => ToWaiting(st, t, i, p);
    case On(_) => ToWorker(st, t, i, p);
  }

  /** And to no other. */
  lemma JourneyExactly(st: State, t: Step, i: InstId, p: Place, q: Place)
    requires Sound(st) && Enabled(st, t) && At(st, i, p)
    ensures At(Apply(st, t), i, q) <==> q == Next(st, t, i, p)
  {
    hide Apply, Next, At, Local;
    SoundMeans(st);
    StepKeeps(st, t);
    Journey(st, t, i, p);
    if At(Apply(st, t), i, q) {
      OnePlace(Apply(st, t), i, q, Next(st, t, i, p));
    }
  }

  // ----- over runs -----

  ghost predicate StaysWaiting(st: State, t: Step, i: InstId) {
    Wf(st) && Enabled(st, t) && At(Apply(st, t), i, Waiting)
  }

  /** A handler that waits for I/O or sleeps is left alone until its completion: over any run, its instance waits in
      every state exactly when no step is that completion. */
  lemma {:induction false} WaitsForCompletion(st: State, steps: seq<Step>, i: InstId)
    requires Sound(st) && IsRun(st, steps) && At(st, i, Waiting)
    ensures Along(st, steps, (x, t) => StaysWaiting(x, t, i)) <==> IoReady(i) !in steps
    ensures IoReady(i) !in steps ==> At(Exec(st, steps), i, Waiting)
    decreases |steps|
  {
    hide Apply, Local;
    if steps != [] {
      assert steps == [steps[0]] + steps[1..];
      StepKeeps(st, steps[0]);
      JourneyExactly(st, steps[0], i, Waiting, Waiting);
      NextOfWaiting(st, steps[0], i);
      if steps[0] != IoReady(i) {
        WaitsForCompletion(Apply(st, steps[0]), steps[1..], i);
      }
    }
  }

  lemma NextOfWaiting(st: State, t: Step, i: InstId)
    requires Sound(st) && Enabled(st, t) && At(st, i, Waiting)
    ensures Wf(st) && (Next(st, t, i, Waiting) == Waiting <==> t != IoReady(i))
  {
    hide Full, Sound;
    assert Wf(st) by { SoundMeans(st); }
    match t
    case Emit(s, _) => NotAcquired(st, i, s);
    case Pop(w) =>
      if st.ready[0] == Job(i) {
        OnePlace(st, i, Queued, Waiting);
      }
    case Return(w, o) =>
      if st.workers[w].inst == i {
        OnePlace(st, i, On(w), Waiting);
      } else if o.Cohort? {
        NotAcquired(st, i, o.dst);
      }
    case _ =>
  }

  /** What instance_aquire returns was idle, or did not exist. */
  lemma AcquiredFrom(st: State, s: StageId)
    requires Sound(st) && s < |st.stages|
    ensures At(st, Acquired(st, s), if st.stages[s].idle != [] then Idle else Nowhere)
  {
    assert StageOk(st.stages[s], st.past[s], st.insts, s);
    if st.stages[s].idle != [] {
      assert st.stages[s].idle[0] in st.stages[s].idle;
    }
  }

  lemma NotAcquired(st: State, i: InstId, s: StageId)
    requires Sound(st) && s < |st.stages| && At(st, i, Waiting)
    ensures Acquired(st, s) != i
  {
    hide Sound, At;
    AcquiredFrom(st, s);
    if Acquired(st, s) == i {
      OnePlace(st, i, if st.stages[s].idle != [] then Idle else Nowhere, Waiting);
    }
  }

  /** Fairness of the ready queue: what a step pushes, be it a loaded event, a handler that was nice, a caller that lent
      its worker or a completed wait, is served right after everything that was ready at that moment. */
  lemma PushedIsServedLast(st: State, t: Step, steps: seq<Step>)
    requires Wf(st) && Enabled(st, t) && !t.Pop? && IsRun(Apply(st, t), steps)
    requires Pushed(st, t) != [] && |Popped(Apply(st, t), steps)| > |st.ready|
    ensures Popped(Apply(st, t), steps)[..|st.ready| + 1] == st.ready + Pushed(st, t)
  {
    hide Apply, Wf, Enabled, IsRun;
    ReadyAfter(st, t);
    var r := Apply(st, t);
    assert r.ready == st.ready + Pushed(st, t) by { assert PoppedBy(st, t) == []; }
    ReadyIsServedInOrder(r, steps);
    var all := Popped(r, steps) + Exec(r, steps).ready;
    assert all[..|r.ready|] == r.ready;
    assert forall k | 0 <= k <= |st.ready| :: Popped(r, steps)[k] == all[k] == r.ready[k];
  }

  /** The idle instance that a step takes for an event of stage `s`, if it takes one. */
  function RecycledBy(st: State, t: Step, s: StageId): seq<InstId>
    requires Wf(st) && Enabled(st, t) && s < |st.stages|
  {
    if st.stages[s].idle == [] then []
    else
      match t
      case Emit(d, _) => if d == s then [Acquired(st, s)] else []
      case Return(_, Cohort(d, _)) => if d == s then [Acquired(st, s)] else []
      case _ => []
  }

  ghost function Recycled(st: State, steps: seq<Step>, s: StageId): seq<InstId>
    requires IsRun(st, steps) && s < |st.stages|
    decreases |steps|
  {
    if steps == [] then []
    else
      StepStage(st, steps[0], s);
      RecycledBy(st, steps[0], s) + Recycled(Apply(st, steps[0]), steps[1..], s)
  }

  /** Idle instances are recycled in the order in which they became idle. */
  lemma {:induction false} RecycledInOrder(st: State, steps: seq<Step>, s: StageId)
    requires IsRun(st, steps) && s < |st.stages|
    ensures s < |Exec(st, steps).stages|
    ensures st.stages[s].idle <= Recycled(st, steps, s) + Exec(st, steps).stages[s].idle
    decreases |steps|
  {
    hide Wf, Apply, Enabled, RecycledBy;
    if steps != [] {
      var next := Apply(st, steps[0]);
      StepStage(st, steps[0], s);
      StepRecycles(st, steps[0], s);
      RecycledInOrder(next, steps[1..], s);
      assert RecycledBy(st, steps[0], s) + (Recycled(next, steps[1..], s) + Exec(st, steps).stages[s].idle) ==
             Recycled(st, steps, s) + Exec(st, steps).stages[s].idle;
    }
  }

  lemma StepRecycles(st: State, t: Step, s: StageId)
    requires Wf(st) && Enabled(st, t) && s < |st.stages|
    ensures s < |Apply(st, t).stages|
    ensures st.stages[s].idle <= RecycledBy(st, t, s) + Apply(st, t).stages[s].idle
  {
    hide Wf, Apply;
    StepStage(st, t, s);
  }
}
