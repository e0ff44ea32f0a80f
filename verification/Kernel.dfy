/**
 The scheduler as the C code has it: global tables updated in place.

 Each method is one C function; its postcondition ties the new tables to the old ones through the
 functions of module Scheduler, on which all run-level facts are proved.
 */
module Kernel {
  import opened Scheduler
  import opened Invariants
  import opened Runs
  import opened Guarantees
  import opened CohortDepth

  /** What a handler does in one activation: some emits, then a status code. */
  datatype Turn = Turn(emits: seq<(StageId, Event)>, outcome: Outcome)

  predicate TurnOk(turn: Turn, n: nat) {
    && (forall k | 0 <= k < |turn.emits| :: turn.emits[k].0 < n)
    && (turn.outcome.Cohort? ==> turn.outcome.dst < n)
  }

  /** What a handler that does this on worker `w` asks of the scheduler, in order. */
  function EmitsOf(emits: seq<(StageId, Event)>): seq<Step> {
    seq(|emits|, k requires 0 <= k < |emits| => Emit(emits[k].0, emits[k].1))
  }

  function TurnSteps(w: nat, turn: Turn): seq<Step> {
    EmitsOf(turn.emits) + [Return(w, turn.outcome)]
  }

  /** The same for `n` nested activations, the outermost first. */
  function NestedSteps(w: nat, turns: nat -> Turn, k: nat, n: nat): seq<Step>
    decreases n
  {
    if n == 0 then [] else TurnSteps(w, turns(k)) + NestedSteps(w, turns, k + 1, n - 1)
  }

  class Tables {
    var stages: seq<Stage>
    var insts: map<InstId, Instance>
    var next: InstId
    var ready: seq<Entry>
    var waiting: set<InstId>
    var workers: seq<Worker>
    var poolSize: int
    ghost var past: seq<Past>
    ghost var created: nat
    ghost var consumed: nat

    ghost function Snapshot(): State
      reads this
    {
      State(stages, past, insts, next, ready, waiting, workers, poolSize, created, consumed)
    }

    /** instance_init */
    constructor (serial: seq<bool>, recycleLimit: int, pendingLimit: int)
      ensures Snapshot() == Initial(serial, recycleLimit, pendingLimit)
    {
      insts, next, ready, waiting, workers, poolSize := map[], 0, [], {}, [], 0;
      past, created, consumed := seq(|serial|, s => Past([], [], 0, 0)), 0, 0;
      stages := [];
      new;
      for s := 0 to |serial|
        invariant Snapshot() == Initial(serial, recycleLimit, pendingLimit).(stages := stages)
        invariant |stages| == s
        invariant forall t | 0 <= t < s :: stages[t] == FreshStage(serial[t], recycleLimit, pendingLimit)
      {
        var limit := if serial[s] then 1 else recycleLimit;
        stages := stages + [Stage(serial[s], limit, limit, 0, 0, [], [], pendingLimit)];
      }
    }

    /** instance_aquire */
    method InstanceAcquire(s: StageId) returns (r: Option<InstId>)
      requires s < |stages|
      modifies this`stages, this`insts, this`next
      ensures r.Some? <==> old(CanAcquire(Snapshot(), s))
      ensures r.Some? ==> r.value == old(Acquired(Snapshot(), s)) && Snapshot() == Acquire(old(Snapshot()), s)
      ensures r.None? ==> Snapshot() == old(Snapshot())
    {
      var x := stages[s];
      if x.idle != [] {
        stages := stages[s := x.(idle := x.idle[1..], active := x.active + 1)];
        return Some(x.idle[0]);
      }
      if x.count == x.limit {
        return None;
      }
      stages := stages[s := x.(count := x.count + 1, active := x.active + 1)];
      r := Some(next);
      insts := insts[next := Instance(s, Blank, None)];
      next := next + 1;
    }

    /** instance_try_push_pending_event */
    method TryPushPending(s: StageId, e: Event) returns (ok: bool)
      requires s < |stages|
      modifies this`stages
      ensures ok <==> !old(Full(|stages[s].pending|, stages[s].pendingCap))
      ensures ok ==> stages == old(stages[s := stages[s].(pending := stages[s].pending + [e])])
      ensures !ok ==> stages == old(stages)
    {
      var x := stages[s];
      ok := !Full(|x.pending|, x.pendingCap);
      if ok {
        stages := stages[s := x.(pending := x.pending + [e])];
      }
    }

    /** push_ready_queue of an instance whose stack has just been loaded */
    method PushReady(i: InstId, load: Load)
      requires i in insts
      modifies this`insts, this`ready
      ensures Snapshot() == Enqueue(old(Snapshot()), i, load)
    {
      insts := insts[i := insts[i].(load := load)];
      ready := ready + [Job(i)];
    }

    /** emmit on a local stage, and emmit_packed_event */
    method Emit(s: StageId, e: Event) returns (ok: bool)
      requires Wf(Snapshot()) && s < |stages|
      modifies this`stages, this`insts, this`next, this`ready, this`past
      ensures ok <==> old(EmitAccepts(Snapshot(), s))
      ensures Snapshot() == EmitStep(old(Snapshot()), s, e)
      ensures old(Sound(Snapshot())) ==> Sound(Snapshot())
    {
      SoundAfter(Snapshot(), Step.Emit(s, e));
      var dst := InstanceAcquire(s);
      match dst {
        case None =>
          ok := TryPushPending(s, e);
        case Some(i) =>
          PushReady(i, Fresh(e));
          ok := true;
      }
      if ok {
        past := past[s := past[s].(accepted := past[s].accepted + [e])];
      }
    }

    /** instance_destroy */
    method InstanceDestroy(i: InstId)
      requires i in insts && insts[i].stage < |past| == |stages|
      modifies this`stages, this`insts, this`past
      ensures Snapshot() == Destroy(old(Snapshot()), i)
    {
      var s := insts[i].stage;
      stages := stages[s := stages[s].(count := stages[s].count - 1)];
      past := past[s := past[s].(destroyed := past[s].destroyed + 1)];
      insts := insts - {i};
    }

    /** instance_release */
    method InstanceRelease(i: InstId)
      requires i in insts && insts[i].stage < |past| == |stages|
      modifies this`stages, this`insts, this`ready, this`past
      ensures Snapshot() == Release(old(Snapshot()), i)
    {
      var s := insts[i].stage;
      var x := stages[s];
      if x.pending != [] {
        stages := stages[s := x.(pending := x.pending[1..])];
        PushReady(i, Fresh(x.pending[0]));
        return;
      }
      stages := stages[s := x.(active := x.active - 1)];
      if Full(|x.idle|, x.idleCap) {
        InstanceDestroy(i);
      } else {
        stages := stages[s := stages[s].(idle := x.idle + [i])];
      }
    }

    /** The wait for I/O, the sleep and the failed argument checks that precede them. */
    method EventWait(w: nat, i: InstId, valid: bool)
      requires i in insts && w < |workers|
      modifies this`workers, this`waiting, this`insts, this`ready
      ensures var off := Hold(old(Snapshot()), w, Parked);
              Snapshot() == if valid then off.(waiting := off.waiting + {i}) else Enqueue(off, i, Resume)
    {
      workers := workers[w := Parked];
      if valid {
        waiting := waiting + {i};
      } else {
        PushReady(i, Resume);
      }
    }

    ghost method NoteEnd(i: InstId)
      requires i in insts && insts[i].stage < |past|
      modifies this`past
      ensures past == old(Observe(Snapshot(), insts[i].stage, End(i))).past
    {
      past := past[insts[i].stage := past[insts[i].stage].(log := past[insts[i].stage].log + [End(i)])];
    }

    /** The branches of thread_resume_instance that end the handler execution. */
    method Conclude(w: nat, o: Outcome)
      requires Wf(Snapshot()) && w < |workers| && workers[w].Running?
      requires o.Ended? || Destroying(o)
      modifies this
      ensures Snapshot() == ReturnStep(old(Snapshot()), w, o)
    {
      hide Release;
      var i := workers[w].inst;
      var s := insts[i].stage;
      workers := workers[w := Parked];
      NoteEnd(i);
      insts := insts[i := insts[i].(job := None)];
      if o.Ended? {
        InstanceRelease(i);
      } else if o.Unknown? {
        InstanceDestroy(i);
        past := past[s := past[s].(unknown := past[s].unknown + 1)];
      } else {
        stages := stages[s := stages[s].(active := stages[s].active - 1)];
        InstanceDestroy(i);
      }
    }

    /** The branches of thread_resume_instance other than the cohort send: the worker is free afterwards. */
    method HandBack(w: nat, o: Outcome)
      requires Wf(Snapshot()) && w < |workers| && workers[w].Running? && !o.Cohort?
      modifies this
      ensures Snapshot() == ReturnStep(old(Snapshot()), w, o)
      ensures w < |workers| && workers[w].Parked?
    {
      if o.Ended? || Destroying(o) {
        Conclude(w, o);
      } else {
        EventWait(w, workers[w].inst, o.Await? && o.valid);
      }
    }

    /** emmit_cohort up to the nested activation; `ok` says whether the callee has the worker now. */
    method EmitCohort(w: nat, dst: StageId, e: Event) returns (ok: bool)
      requires Wf(Snapshot()) && w < |workers| && workers[w].Running? && dst < |stages|
      modifies this
      ensures ok <==> old(CanAcquire(Snapshot(), dst))
      ensures Snapshot() == ReturnStep(old(Snapshot()), w, Cohort(dst, e))
      ensures w < |workers| && if ok then workers[w].Running? else workers[w].Parked?
    {
      hide TakeOver;
      var i, depth := workers[w].inst, workers[w].depth;
      workers := workers[w := Parked];
      var callee := InstanceAcquire(dst);
      if callee.None? {
        PushReady(i, Resume);
        return false;
      }
      var j := callee.value;
      past := past[dst := past[dst].(accepted := past[dst].accepted + [e])];
      PushReady(i, Resume);
      StartCallee(w, j, depth + 1, e);
      ok := true;
    }

    /** The second half: the callee's arguments are copied to it and it starts on the caller's worker. */
    method StartCallee(w: nat, j: InstId, depth: nat, e: Event)
      requires j in insts && insts[j].stage < |past| && w < |workers|
      modifies this`past, this`insts, this`workers
      ensures Snapshot() == TakeOver(old(Snapshot()), w, j, depth, e)
      ensures w < |workers| && workers[w] == Running(j, depth)
    {
      var s := insts[j].stage;
      past := past[s := past[s].(log := past[s].log + [Begin(j, e)])];
      insts := insts[j := insts[j].(load := Fresh(e))];
      insts := insts[j := insts[j].(load := Blank, job := Some(e))];
      workers := workers[w := Running(j, depth)];
    }

    /** The emits a handler makes before it hands a status back. */
    method EmitAll(emits: seq<(StageId, Event)>) returns (ghost steps: seq<Step>)
      requires Sound(Snapshot()) && forall k | 0 <= k < |emits| :: emits[k].0 < |stages|
      modifies this`stages, this`insts, this`next, this`ready, this`past
      ensures Sound(Snapshot()) && |stages| == old(|stages|)
      ensures steps == EmitsOf(emits)
      ensures IsRun(old(Snapshot()), steps) && Snapshot() == Exec(old(Snapshot()), steps)
      ensures old(AllFinite(Snapshot())) ==> AllFinite(Snapshot()) && Slack(stages) <= old(Slack(stages))
    {
      hide Sound, IsRun, Exec, Slack, AllFinite, EmitsOf, EmitStep;
      steps := [];
      NoSteps(Snapshot());
      for n := 0 to |emits|
        invariant steps == EmitsOf(emits[..n])
        invariant Sound(Snapshot()) && |stages| == old(|stages|)
        invariant IsRun(old(Snapshot()), steps) && Snapshot() == Exec(old(Snapshot()), steps)
        invariant old(AllFinite(Snapshot())) ==> AllFinite(Snapshot()) && Slack(stages) <= old(Slack(stages))
      {
        EmitsNext(emits, n);
        assert Wf(Snapshot()) by { SoundMeans(Snapshot()); }
        ghost var t := Step.Emit(emits[n].0, emits[n].1);
        Advance(old(Snapshot()), steps, t);
        var _ := Emit(emits[n].0, emits[n].1);
        steps := steps + [t];
      }
      assert emits[..|emits|] == emits;
    }

    /** One activation of thread_resume_instance up to its nested call: the handler runs and its status is dealt with.
        `nested` says that a callee has the worker now, for which the stages have given a unit of slack. */
    method Activate(w: nat, turn: Turn) returns (nested: bool, ghost steps: seq<Step>)
      requires Sound(Snapshot()) && IsRunning(Snapshot(), w) && TurnOk(turn, |stages|)
      modifies this
      ensures Sound(Snapshot()) && |stages| == old(|stages|)
      ensures IsRun(old(Snapshot()), steps) && Snapshot() == Exec(old(Snapshot()), steps)
      ensures steps == TurnSteps(w, turn)
      ensures IsRun(old(Snapshot()), EmitsOf(turn.emits))
      ensures nested <==>
                && turn.outcome.Cohort? && turn.outcome.dst < |Exec(old(Snapshot()), EmitsOf(turn.emits)).stages|
                && CanAcquire(Exec(old(Snapshot()), EmitsOf(turn.emits)), turn.outcome.dst)
      ensures w < |workers| && if nested then workers[w].Running? else workers[w].Parked?
      ensures old(AllFinite(Snapshot())) ==>
                AllFinite(Snapshot()) && (nested ==> Slack(stages) + 1 <= old(Slack(stages)))
    {
      hide ReturnStep, IsRun, Exec, Slack, AllFinite;
      steps := EmitAll(turn.emits);
      assert Wf(Snapshot()) by { SoundMeans(Snapshot()); }
      ghost var t := Return(w, turn.outcome);
      Advance(old(Snapshot()), steps, t);
      steps := steps + [t];
      if turn.outcome.Cohort? {
        nested := EmitCohort(w, turn.outcome.dst, turn.outcome.event);
      } else {
        HandBack(w, turn.outcome);
        nested := false;
      }
    }

    /**
     thread_resume_instance on worker `w`, whose instance has been loaded and started.  The handler is
     an arbitrary oracle: `turns(k)` is what it does in its k-th activation.  The recursion ends within `fuel` nested
     activations because the stages have no more slack than that, or because the handler of that activation sends no
     further cohort event; where neither holds for any number, it does not end.
     */
    method ThreadResumeInstance(w: nat, turns: nat -> Turn, k: nat, ghost fuel: nat)
        returns (depth: nat, ghost steps: seq<Step>)
      requires Sound(Snapshot()) && IsRunning(Snapshot(), w)
      requires forall n: nat :: TurnOk(turns(n), |stages|)
      requires (AllFinite(Snapshot()) && Slack(stages) <= fuel) || !turns(k + fuel).outcome.Cohort?
      modifies this
      ensures Sound(Snapshot()) && |stages| == old(|stages|)
      ensures steps == NestedSteps(w, turns, k, depth)
      ensures IsRun(old(Snapshot()), steps) && Snapshot() == Exec(old(Snapshot()), steps)
      ensures w < |workers| && workers[w].Parked?
      ensures 1 <= depth <= 1 + fuel
      ensures old(AllFinite(Snapshot())) ==> AllFinite(Snapshot()) && depth <= 1 + old(Slack(stages))
      decreases fuel
    {
      hide Sound, IsRun, Exec, Slack, AllFinite, TurnSteps;
      ghost var start := Snapshot();
      FiniteSlack(start);
      assert TurnOk(turns(k), |stages|);
      var nested;
      nested, steps := Activate(w, turns(k));
      depth := 1;
      assert steps == NestedSteps(w, turns, k, 1);
      if nested {
        FiniteSlack(Snapshot());
        var inner, more := ThreadResumeInstance(w, turns, k + 1, fuel - 1);
        depth := 1 + inner;
        JoinRuns(start, steps, more);
        steps := steps + more;
      }
    }

    /** One turn of the loop of thread_main on a non-empty ready queue, up to the call of the handler. */
    method ThreadTakes(w: nat)
      requires Wf(Snapshot()) && w < |workers| && workers[w].Parked? && ready != []
      modifies this
      ensures Snapshot() == PopStep(old(Snapshot()), w)
      ensures old(Sound(Snapshot())) ==> Sound(Snapshot())
    {
      SoundAfter(Snapshot(), Pop(w));
      var x := ready[0];
      assert x in ready;
      ready := ready[1..];
      match x
      case Kill =>
        workers, poolSize, consumed := workers[w := Exited], poolSize - 1, consumed + 1;
      case Job(i) =>
        var y := insts[i];
        if y.load.Fresh? {
          past := past[y.stage := past[y.stage].(log := past[y.stage].log + [Begin(i, y.load.event)])];
          insts := insts[i := y.(load := Blank, job := Some(y.load.event))];
        } else {
          insts := insts[i := y.(load := Blank)];
        }
        workers := workers[w := Running(i, 1)];
    }

    /** thread_new */
    method ThreadNew()
      modifies this`workers, this`poolSize, this`created
      ensures Wf(old(Snapshot())) ==> Snapshot() == Apply(old(Snapshot()), NewWorker)
      ensures ready == old(ready) && workers == old(workers) + [Parked] && created == old(created) + 1
    {
      workers, poolSize, created := workers + [Parked], poolSize + 1, created + 1;
    }

    /** thread_kill */
    method ThreadKill()
      modifies this`ready
      ensures Wf(old(Snapshot())) ==> Snapshot() == Apply(old(Snapshot()), KillWorker)
      ensures ready == old(ready) + [Kill]
    {
      ready := ready + [Kill];
    }

    /** The init function of the thread pool controller: set maxpar, then create `n` workers. */
    method StartPool(n: nat) returns (ghost steps: seq<Step>)
      requires Sound(Snapshot())
      modifies this`stages, this`workers, this`poolSize, this`created
      ensures IsRun(old(Snapshot()), steps) && Snapshot() == Exec(old(Snapshot()), steps) && Sound(Snapshot())
      ensures created == old(created) + n && |workers| == old(|workers|) + n
      ensures steps == [SetMaxpar(n)] + seq(n, _ => NewWorker)
    {
      hide Sound, Wf;
      SoundMeans(Snapshot());
      StepKeeps(Snapshot(), SetMaxpar(n));
      assert [SetMaxpar(n)][1..] == [];
      var _ := SetMaxparAll(n);
      steps := [SetMaxpar(n)];
      for k := 0 to n
        invariant IsRun(old(Snapshot()), steps) && Snapshot() == Exec(old(Snapshot()), steps) && Sound(Snapshot())
        invariant created == old(created) + k && |workers| == old(|workers|) + k
        invariant steps == [SetMaxpar(n)] + seq(k, _ => NewWorker)
      {
        SoundMeans(Snapshot());
        ExtendRun(old(Snapshot()), steps, NewWorker);
        StepKeeps(Snapshot(), NewWorker);
        ThreadNew();
        steps := steps + [NewWorker];
      }
    }

    /** The finish function: one kill request per worker of the pool, behind everything already ready. */
    method FinishPool(n: nat) returns (ghost steps: seq<Step>)
      requires Sound(Snapshot())
      modifies this`ready
      ensures IsRun(old(Snapshot()), steps) && Snapshot() == Exec(old(Snapshot()), steps) && Sound(Snapshot())
      ensures steps == seq(n, _ => KillWorker) && ready == old(ready) + seq(n, _ => Kill)
    {
      hide Sound, Wf;
      steps := [];
      for k := 0 to n
        invariant IsRun(old(Snapshot()), steps) && Snapshot() == Exec(old(Snapshot()), steps) && Sound(Snapshot())
        invariant steps == seq(k, _ => KillWorker) && ready == old(ready) + seq(k, _ => Kill)
      {
        SoundMeans(Snapshot());
        ExtendRun(old(Snapshot()), steps, KillWorker);
        StepKeeps(Snapshot(), KillWorker);
        ThreadKill();
        steps := steps + [KillWorker];
      }
    }

    /** io_ready */
    method WakeUp(i: InstId)
      requires Wf(Snapshot()) && i in waiting
      modifies this`waiting, this`insts, this`ready
      ensures Snapshot() == IoStep(old(Snapshot()), i)
      ensures old(Sound(Snapshot())) ==> Sound(Snapshot())
    {
      SoundAfter(Snapshot(), IoReady(i));
      waiting := waiting - {i};
      PushReady(i, Resume);
    }

    /** instance_set_maxpar for all stages at once */
    method SetMaxparAll(cap: int) returns (ok: bool)
      modifies this`stages
      ensures ok <==> cap >= -1
      ensures Snapshot() == MaxparStep(old(Snapshot()), cap)
      ensures old(Sound(Snapshot())) ==> Sound(Snapshot())
    {
      SoundAfter(Snapshot(), SetMaxpar(cap));
      if cap < -1 {
        return false;
      }
      var s := 0;
      while s < |stages|
        invariant 0 <= s <= |stages| == old(|stages|)
        invariant forall t | 0 <= t < s ::
                    stages[t] == if old(stages[t]).serial then old(stages[t]) else WithLimit(old(stages[t]), cap)
        invariant forall t | s <= t < |stages| :: stages[t] == old(stages[t])
      {
        if !stages[s].serial {
          stages := stages[s := stages[s].(idleCap := cap, limit := cap)];
        }
        s := s + 1;
      }
      ok := true;
    }

    /** leda_set_capacity on an event queue; a negative stage means the ready queue, whose capacity is not modelled */
    method SetCapacity(target: int, cap: int) returns (ok: bool)
      requires Wf(Snapshot())
      modifies this`stages
      ensures ok <==> target < old(|stages|)
      ensures 0 <= target < old(|stages|) ==> Snapshot() == Apply(old(Snapshot()), SetPendingCapacity(target, cap))
      ensures !(0 <= target < old(|stages|)) ==> Snapshot() == old(Snapshot())
      ensures old(Sound(Snapshot())) ==> Sound(Snapshot())
    {
      if 0 <= target < |stages| {
        SoundAfter(Snapshot(), SetPendingCapacity(target, cap));
        stages := stages[target := stages[target].(pendingCap := cap)];
      }
      ok := target < |stages|;
    }

    /** instance_set_maxpar for one stage */
    method SetMaxparFor(target: int, cap: int) returns (ok: bool)
      modifies this`stages
      ensures ok <==> cap >= -1 && 0 <= target < old(|stages|) && !old(stages[target].serial)
      ensures Snapshot() == MaxparOfStep(old(Snapshot()), target, cap)
      ensures old(Sound(Snapshot())) ==> Sound(Snapshot())
    {
      SoundAfter(Snapshot(), SetMaxparOf(target, cap));
      if cap < -1 || target < 0 || target >= |stages| || stages[target].serial {
        return false;
      }
      stages := stages[target := stages[target].(idleCap := cap, limit := cap)];
      ok := true;
    }
  }

  lemma SoundAfter(st: State, t: Step)
    ensures Sound(st) && Enabled(st, t) ==> Sound(Apply(st, t))
  {
    if Sound(st) && Enabled(st, t) {
      StepKeeps(st, t);
    }
  }

  lemma NoSteps(st: State)
    ensures IsRun(st, []) && Exec(st, []) == st && EmitsOf([]) == []
  {
  }

  lemma EmitsNext(emits: seq<(StageId, Event)>, n: nat)
    requires n < |emits|
    ensures EmitsOf(emits[..n + 1]) == EmitsOf(emits[..n]) + [Emit(emits[n].0, emits[n].1)]
  {
  }

  lemma ExtendRun(st: State, a: seq<Step>, t: Step)
    requires IsRun(st, a) && Wf(Exec(st, a)) && Enabled(Exec(st, a), t)
    ensures IsRun(st, a + [t]) && Exec(st, a + [t]) == Apply(Exec(st, a), t)
  {
    assert [t][1..] == [];
    JoinRuns(st, a, [t]);
  }

  lemma FiniteSlack(st: State)
    ensures AllFinite(st) ==> Slack(st.stages) >= 0
  {
    if AllFinite(st) {
      forall s | 0 <= s < |st.stages| ensures st.stages[s].count <= st.stages[s].limit {
        assert Bounded(st, s);
      }
      SlackIsNat(st.stages);
    }
  }

  lemma AfterFinite(st: State, t: Step)
    requires Sound(st) && AllFinite(st) && Enabled(st, t) && !Relimits(t)
    ensures AllFinite(Apply(st, t))
  {
    hide Wf, StageOk, Placed, Apply;
    StageCount(st, t);
    forall s | 0 <= s < |st.stages| ensures 0 <= Apply(st, t).stages[s].limit && Bounded(Apply(st, t), s) {
      StepStage(st, t, s);
      LimitExactly(st, t, s);
    }
  }

  /** One more step at the end of a run that left the limits alone. */
  lemma Advance(start: State, steps: seq<Step>, t: Step)
    requires IsRun(start, steps)
    requires var st := Exec(start, steps); Sound(st) && Enabled(st, t) && !Relimits(t)
    ensures var st := Exec(start, steps);
            var r := Apply(st, t);
            && IsRun(start, steps + [t]) && Exec(start, steps + [t]) == r
            && Sound(r) && |r.stages| == |st.stages|
            && Slack(r.stages) == Slack(st.stages) + Gain(st, t)
            && (AllFinite(st) ==> AllFinite(r))
  {
    hide Apply, Wf, StageOk, Placed, AllFinite, Slack;
    var st := Exec(start, steps);
    assert Wf(st) by { SoundMeans(st); }
    StepKeeps(st, t);
    StageCount(st, t);
    StepSlack(st, t);
    if AllFinite(st) {
      AfterFinite(st, t);
    }
    ExtendRun(start, steps, t);
  }
}
