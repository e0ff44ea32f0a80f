/** What the scheduler promises about a stage: FIFO order, bounded parallelism, serial execution. */
module Guarantees {
  import opened Scheduler
  import opened Invariants
  import opened Mailbox
  import opened Runs
  import opened Sets

  // ----- FIFO -----

  /** Along a run of in-order steps a stage is one FIFO mailbox: started, then loaded, then pending
      events are together the accepted events in the order they were accepted. */
  lemma StageIsFifo(serial: seq<bool>, recycleLimit: int, pendingLimit: int, steps: seq<Step>, s: StageId)
    requires IsRun(Initial(serial, recycleLimit, pendingLimit), steps) && s < |serial|
    requires Along(Initial(serial, recycleLimit, pendingLimit), steps, (x, t) => InOrder(x, t, s))
    ensures var st := Exec(Initial(serial, recycleLimit, pendingLimit), steps);
            && s < |st.stages| == |st.past|
            && st.past[s].accepted ==
               Begun(st.past[s].log) + ReadyOf(st.ready, st.insts, s) + st.stages[s].pending
            && (st.stages[s].pending != [] ==>
                  st.stages[s].idle == [] && st.stages[s].count == st.stages[s].limit)
  {
    InitialIsSound(serial, recycleLimit, pendingLimit);
    RunOrdered(Initial(serial, recycleLimit, pendingLimit), steps, s);
  }

  /** FIFO order exactly: when no event is sent twice, a run ends with the events of a stage in acceptance order if and
      only if none of its steps overtook an event. */
  lemma FifoExactly(serial: seq<bool>, recycleLimit: int, pendingLimit: int, steps: seq<Step>, s: StageId)
    requires IsRun(Initial(serial, recycleLimit, pendingLimit), steps) && s < |serial|
    requires Along(Initial(serial, recycleLimit, pendingLimit), steps, (x, t) => NewEvent(x, t, s))
    ensures var st0 := Initial(serial, recycleLimit, pendingLimit);
            var st := Exec(st0, steps);
            && s < |st.stages| == |st.past|
            && (st.past[s].accepted ==
                Begun(st.past[s].log) + ReadyOf(st.ready, st.insts, s) + st.stages[s].pending
                <==> Along(st0, steps, (x, t) => InTurn(x, t, s)))
  {
    InitialIsSound(serial, recycleLimit, pendingLimit);
    RunOrderExactly(Initial(serial, recycleLimit, pendingLimit), steps, s);
  }

  /** The states of a run in which an error destroys the only instance of a serial stage while event 8
      is pending, and event 9 is emitted next. */
  function Overtaking(k: nat): State
    requires k <= 6
  {
    var stage := Stage(true, 1, 1, 1, 1, [], [], -1);
    var loaded := map[0 := Instance(0, Fresh(7), None)];
    var running := map[0 := Instance(0, Blank, Some(7))];
    var ran := [Begin(0, 7), End(0)];
    match k
    case 0 => Initial([true], -1, -1)
    case 1 => State([FreshStage(true, -1, -1)], [Past([], [], 0, 0)], map[], 0, [], {}, [Parked], 1, 1, 0)
    case 2 => State([stage], [Past([7], [], 0, 0)], loaded, 1, [Job(0)], {}, [Parked], 1, 1, 0)
    case 3 => State([stage.(pending := [8])], [Past([7, 8], [], 0, 0)], loaded, 1, [Job(0)], {}, [Parked], 1, 1, 0)
    case 4 =>
      State([stage.(pending := [8])], [Past([7, 8], [Begin(0, 7)], 0, 0)], running, 1, [], {}, [Running(0, 1)], 1, 1, 0)
    case 5 =>
      State([stage.(count := 0, active := 0, pending := [8])], [Past([7, 8], ran, 0, 1)], map[], 1,
            [], {}, [Parked], 1, 1, 0)
    case 6 =>
      State([stage.(pending := [8])], [Past([7, 8, 9], ran, 0, 1)], map[1 := Instance(0, Fresh(9), None)], 2,
            [Job(1)], {}, [Parked], 1, 1, 0)
  }

  function OvertakingStep(k: nat): Step
    requires k < 6
  {
    [NewWorker, Emit(0, 7), Emit(0, 8), Pop(0), Return(0, PcallError), Emit(0, 9)][k]
  }

  lemma OvertakingStart()
    ensures Wf(Overtaking(0)) && Enabled(Overtaking(0), NewWorker) && Apply(Overtaking(0), NewWorker) == Overtaking(1)
  {
  }

  lemma OvertakingFirst()
    ensures Wf(Overtaking(1)) && Enabled(Overtaking(1), Emit(0, 7)) && Apply(Overtaking(1), Emit(0, 7)) == Overtaking(2)
  {
    var none: seq<Event> := [];
    assert none + [7] == [7];
    var r := Apply(Overtaking(1), Emit(0, 7));
    assert r.stages == Overtaking(2).stages && r.past == Overtaking(2).past;
  }

  lemma OvertakingSecond()
    ensures Wf(Overtaking(2)) && Enabled(Overtaking(2), Emit(0, 8)) && Apply(Overtaking(2), Emit(0, 8)) == Overtaking(3)
  {
    var none: seq<Event> := [];
    var seven: seq<Event> := [7];
    assert none + [8] == [8] && seven + [8] == [7, 8];
    var r := Apply(Overtaking(2), Emit(0, 8));
    assert r.stages == Overtaking(3).stages && r.past == Overtaking(3).past;
  }

  lemma OvertakingPop()
    ensures Wf(Overtaking(3)) && Enabled(Overtaking(3), Pop(0)) && Apply(Overtaking(3), Pop(0)) == Overtaking(4)
  {
    var none: seq<Obs> := [];
    assert none + [Begin(0, 7)] == [Begin(0, 7)];
    var r := Apply(Overtaking(3), Pop(0));
    assert r.past == Overtaking(4).past && r.insts == Overtaking(4).insts;
  }

  lemma OvertakingError()
    ensures Wf(Overtaking(4)) && Enabled(Overtaking(4), Return(0, PcallError))
    ensures Apply(Overtaking(4), Return(0, PcallError)) == Overtaking(5)
  {
    assert [Begin(0, 7)] + [End(0)] == [Begin(0, 7), End(0)];
    var r := Apply(Overtaking(4), Return(0, PcallError));
    assert r.past == Overtaking(5).past && r.insts == Overtaking(5).insts;
  }

  lemma OvertakingEmit()
    ensures Wf(Overtaking(5)) && Enabled(Overtaking(5), Emit(0, 9)) && Apply(Overtaking(5), Emit(0, 9)) == Overtaking(6)
  {
    var two: seq<Event> := [7, 8];
    assert two + [9] == [7, 8, 9];
    var r := Apply(Overtaking(5), Emit(0, 9));
    assert r.stages == Overtaking(6).stages && r.past == Overtaking(6).past;
  }

  ghost predicate Leads(a: State, t: Step, b: State) {
    Wf(a) && Enabled(a, t) && b == Apply(a, t)
  }

  lemma OvertakingNext(k: nat)
    requires k < 6
    ensures Leads(Overtaking(k), OvertakingStep(k), Overtaking(k + 1))
  {
    if k == 0 {
      OvertakingStart();
    } else if k == 1 {
      OvertakingFirst();
    } else if k == 2 {
      OvertakingSecond();
    } else if k == 3 {
      OvertakingPop();
    } else if k == 4 {
      OvertakingError();
    } else {
      OvertakingEmit();
    }
  }

  lemma OvertakingFlow()
    ensures FlowOf(Overtaking(6), 0) == Flow([7, 8, 9], [7], [9], [8])
  {
    var st := Overtaking(6);
    ReadyAppend([], Job(1), st.insts, 0);
    assert [] + [Job(1)] == [Job(1)];
    BegunAppend([], Begin(0, 7));
    BegunAppend([Begin(0, 7)], End(0));
    assert [] + [Begin(0, 7)] == [Begin(0, 7)] && [Begin(0, 7)] + [End(0)] == [Begin(0, 7), End(0)];
  }

  /** A run can be shown by listing its states. */
  lemma {:induction false} UnrollRun(steps: seq<Step>, states: seq<State>)
    requires |states| == |steps| + 1
    requires forall k | 0 <= k < |steps| :: Leads(states[k], steps[k], states[k + 1])
    ensures IsRun(states[0], steps) && Exec(states[0], steps) == states[|steps|]
    decreases |steps|
  {
    if steps != [] {
      assert Leads(states[0], steps[0], states[0 + 1]);
      forall k | 0 <= k < |steps[1..]| ensures Leads(states[1..][k], steps[1..][k], states[1..][k + 1]) {
        assert Leads(states[1 + k], steps[1 + k], states[1 + k + 1]);
      }
      UnrollRun(steps[1..], states[1..]);
    }
  }

  lemma OvertakingStrands()
    ensures Leads(Overtaking(4), OvertakingStep(4), Overtaking(5)) && !Flowing(Overtaking(5), 0)
  {
    OvertakingError();
  }

  /** The order really breaks at the guard of InOrder: the error leaves the pending event stranded, with no instance and
      room for one, and the new emit overtakes it. */
  lemma OvertakingAfterDestroy()
    ensures var steps := seq(6, k requires 0 <= k < 6 => OvertakingStep(k));
            && IsRun(Overtaking(0), steps)
            && Exec(Overtaking(0), steps) == Overtaking(6)
            && Leads(Overtaking(4), steps[4], Overtaking(5)) && !Flowing(Overtaking(5), 0)
            && !Ordered(FlowOf(Overtaking(6), 0))
  {
    hide Leads, Overtaking, OvertakingStep, IsRun, Exec, FlowOf, Flowing;
    var steps := seq(6, k requires 0 <= k < 6 => OvertakingStep(k));
    var states := seq(7, k requires 0 <= k < 7 => Overtaking(k));
    forall k | 0 <= k < 6 ensures Leads(states[k], steps[k], states[k + 1]) {
      OvertakingNext(k);
    }
    UnrollRun(steps, states);
    OvertakingStrands();
    OvertakingFlow();
    assert ([7] + [9] + [8])[1] == 9;
  }

  // ----- an unknown status -----

  /** Where the run of Overtaking goes when the handler of event 7 comes back with an unknown status. */
  function Miscounted(): State {
    var x := Stage(true, 1, 1, 0, 1, [], [8], -1);
    State([x], [Past([7, 8], [Begin(0, 7), End(0)], 1, 1)], map[], 1, [], {}, [Parked], 1, 1, 0)
  }

  lemma MiscountedLast()
    ensures Leads(Overtaking(4), Return(0, Unknown), Miscounted())
  {
    OvertakingError();
    assert [Begin(0, 7)] + [End(0)] == [Begin(0, 7), End(0)];
    var r := Apply(Overtaking(4), Return(0, Unknown));
    assert r.past == Miscounted().past && r.insts == Miscounted().insts;
  }

  /** A run after which the active counter is one and no instance is busy, or even alive. */
  lemma UnknownIsReached()
    ensures exists steps ::
              && IsRun(Initial([true], -1, -1), steps)
              && var st := Exec(Initial([true], -1, -1), steps);
                 |st.stages| == 1 && st.stages[0].active == 1 && BusyOf(st, 0) == {} && st.insts == map[]
  {
    var steps := seq(4, k requires 0 <= k < 4 => OvertakingStep(k)) + [Return(0, Unknown)];
    var states := seq(5, k requires 0 <= k < 5 => Overtaking(k)) + [Miscounted()];
    forall k | 0 <= k < 5 ensures Leads(states[k], steps[k], states[k + 1]) {
      if k < 4 {
        OvertakingNext(k);
      } else {
        MiscountedLast();
      }
    }
    UnrollRun(steps, states);
    assert IsRun(Initial([true], -1, -1), steps);
  }

  // ----- limits -----

  /** Instances within the limit; a negative limit is no limit. */
  ghost predicate Bounded(st: State, s: StageId)
    requires s < |st.stages|
  {
    st.stages[s].limit >= 0 ==> st.stages[s].count <= st.stages[s].limit
  }

  /** The step does not set the limit of `s` below the instances it already has. */
  ghost predicate KeepsRoom(st: State, t: Step, s: StageId) {
    s < |st.stages| &&
    (!st.stages[s].serial ==>
       match t
       case SetMaxpar(cap) => cap < 0 || cap >= st.stages[s].count
       case SetMaxparOf(target, cap) => target != s || cap < 0 || cap >= st.stages[s].count
       case _ => true)
  }

  /** The instance bound survives a step exactly when the step keeps room: instance_aquire compares
      with ==, so only a limit set below the count breaks it. */
  lemma LimitExactly(st: State, t: Step, s: StageId)
    requires Wf(st) && Enabled(st, t) && s < |st.stages| && Bounded(st, s)
    ensures s < |Apply(st, t).stages|
    ensures Bounded(Apply(st, t), s) <==> KeepsRoom(st, t, s)
  {
    StepStage(st, t, s);
  }

  function EmitSteps(s: StageId, es: seq<Event>): seq<Step> {
    seq(|es|, k requires 0 <= k < |es| => Emit(s, es[k]))
  }

  /** A limit below the count stops nothing: every further emit that finds no idle instance creates one. */
  lemma {:induction false} Runaway(st: State, s: StageId, es: seq<Event>)
    requires Sound(st) && s < |st.stages|
    requires st.stages[s].idle == [] && 0 <= st.stages[s].limit < st.stages[s].count
    ensures var steps := EmitSteps(s, es);
            && IsRun(st, steps)
            && s < |Exec(st, steps).stages| == |st.stages|
            && Exec(st, steps).stages[s].limit == st.stages[s].limit
            && Exec(st, steps).stages[s].count == st.stages[s].count + |es|
    decreases |es|
  {
    var steps := EmitSteps(s, es);
    if es != [] {
      StepKeeps(st, Emit(s, es[0]));
      StepStage(st, Emit(s, es[0]), s);
      Runaway(Apply(st, Emit(s, es[0])), s, es[1..]);
      assert steps[1..] == EmitSteps(s, es[1..]);
    }
  }

  /** The states of a run in which two instances exist when the limit is set to one. */
  function Lowered(k: nat): State
    requires k <= 3
  {
    var x := Stage(false, -1, -1, 1, 1, [], [], -1);
    var one := map[0 := Instance(0, Fresh(7), None)];
    var two := one[1 := Instance(0, Fresh(8), None)];
    match k
    case 0 => Initial([false], -1, -1)
    case 1 => State([x], [Past([7], [], 0, 0)], one, 1, [Job(0)], {}, [], 0, 0, 0)
    case 2 =>
      State([x.(count := 2, active := 2)], [Past([7, 8], [], 0, 0)], two, 2, [Job(0), Job(1)], {}, [], 0, 0, 0)
    case 3 =>
      State([x.(count := 2, active := 2, limit := 1, idleCap := 1)], [Past([7, 8], [], 0, 0)], two, 2,
            [Job(0), Job(1)], {}, [], 0, 0, 0)
  }

  function LoweredStep(k: nat): Step
    requires k < 3
  {
    [Emit(0, 7), Emit(0, 8), SetMaxpar(1)][k]
  }

  lemma LoweredFirst()
    ensures Leads(Lowered(0), Emit(0, 7), Lowered(1))
  {
    var none: seq<Event> := [];
    assert none + [7] == [7];
    var r := Apply(Lowered(0), Emit(0, 7));
    assert r.stages == Lowered(1).stages && r.past == Lowered(1).past && r.insts == Lowered(1).insts;
  }

  lemma LoweredSecond()
    ensures Leads(Lowered(1), Emit(0, 8), Lowered(2))
  {
    var seven: seq<Event> := [7];
    assert seven + [8] == [7, 8];
    var r := Apply(Lowered(1), Emit(0, 8));
    assert r.stages == Lowered(2).stages && r.past == Lowered(2).past && r.insts == Lowered(2).insts;
  }

  lemma LoweredThird()
    ensures Leads(Lowered(2), SetMaxpar(1), Lowered(3))
  {
    assert Apply(Lowered(2), SetMaxpar(1)).stages == Lowered(3).stages;
  }

  lemma LoweredRun() returns (steps: seq<Step>)
    ensures IsRun(Lowered(0), steps) && Exec(Lowered(0), steps) == Lowered(3) && Sound(Lowered(3))
  {
    hide Leads, Sound;
    steps := seq(3, k requires 0 <= k < 3 => LoweredStep(k));
    var states := seq(4, k requires 0 <= k < 4 => Lowered(k));
    LoweredFirst();
    LoweredSecond();
    LoweredThird();
    UnrollRun(steps, states);
    InitialIsSound([false], -1, -1);
    RunIsSound(Lowered(0), steps);
  }

  /** Runaway is reached: after two emits and a limit of one, any number of further emits makes as many instances. */
  lemma RunawayIsReached(es: seq<Event>)
    ensures exists steps ::
              && IsRun(Initial([false], -1, -1), steps)
              && var st := Exec(Initial([false], -1, -1), steps);
                 |st.stages| == 1 && st.stages[0].limit == 1 && st.stages[0].count == 2 + |es|
  {
    hide Sound, IsRun, Exec, EmitSteps;
    var steps := LoweredRun();
    Runaway(Lowered(3), 0, es);
    JoinRuns(Lowered(0), steps, EmitSteps(0, es));
    assert IsRun(Initial([false], -1, -1), steps + EmitSteps(0, es));
  }

  /** The "it shouldn't get here" branch of instance_release is not taken within the limit. */
  lemma ReleaseNeverDestroys(st: State, w: nat)
    requires Sound(st) && Enabled(st, Return(w, Ended))
    requires Bounded(st, st.insts[st.workers[w].inst].stage)
    ensures var s := st.insts[st.workers[w].inst].stage;
            && !Full(|st.stages[s].idle|, st.stages[s].idleCap)
            && st.workers[w].inst in Apply(st, Return(w, Ended)).insts
  {
    var i := st.workers[w].inst;
    var s := st.insts[i].stage;
    assert StageOk(st.stages[s], st.past[s], st.insts, s);
    BusyCount(st, s);
    assert PlacedAt(st, {}, i);
    WorkerTallyUpdate(st.workers, w, st.workers[w], i);
    IdleTallyUpdate(st.stages, s, st.stages[s], i);
    assert i !in st.stages[s].idle;
    assert i in BusyOf(st, s);
  }

  /** The step leads to a state in which the instances of `s` are within the limit. */
  ghost predicate StaysBounded(st: State, t: Step, s: StageId) {
    Wf(st) && Enabled(st, t) && s < |Apply(st, t).stages| && Bounded(Apply(st, t), s)
  }

  /** If the step ends an execution of stage `s`, it does not destroy the instance. */
  ghost predicate Spares(st: State, t: Step, s: StageId) {
    && Wf(st) && Enabled(st, t)
    && (t.Return? && t.outcome.Ended? && st.insts[st.workers[t.worker].inst].stage == s ==>
          st.workers[t.worker].inst in Apply(st, t).insts)
  }

  /** The instances are within the limit in every state of a run exactly when no step sets the limit below their number,
      and then no release of the run destroys an instance. */
  lemma {:induction false} RunBounded(st: State, steps: seq<Step>, s: StageId)
    requires Sound(st) && IsRun(st, steps) && s < |st.stages| && Bounded(st, s)
    ensures Along(st, steps, (x, t) => StaysBounded(x, t, s)) <==> Along(st, steps, (x, t) => KeepsRoom(x, t, s))
    ensures Along(st, steps, (x, t) => KeepsRoom(x, t, s)) ==> Along(st, steps, (x, t) => Spares(x, t, s))
    decreases |steps|
  {
    hide Sound, Apply, Bounded;
    if steps != [] {
      var t := steps[0];
      LimitExactly(st, t, s);
      if KeepsRoom(st, t, s) {
        assert Spares(st, t, s) by {
          if t.Return? && t.outcome.Ended? && st.insts[st.workers[t.worker].inst].stage == s {
            ReleaseNeverDestroys(st, t.worker);
          }
        }
        StepKeeps(st, t);
        RunBounded(Apply(st, t), steps[1..], s);
      }
    }
  }

  /** From the start: a limit that is only ever set to -1 or to at least the number of instances is never exceeded, and
      the branch of instance_release that should not be reached is not; and only such limits are never exceeded. */
  lemma LimitHoldsExactly(serial: seq<bool>, recycleLimit: int, pendingLimit: int, steps: seq<Step>, s: StageId)
    requires IsRun(Initial(serial, recycleLimit, pendingLimit), steps) && s < |serial|
    ensures var st0 := Initial(serial, recycleLimit, pendingLimit);
            var kept := Along(st0, steps, (x, t) => KeepsRoom(x, t, s));
            && (Along(st0, steps, (x, t) => StaysBounded(x, t, s)) <==> kept)
            && (kept ==> Along(st0, steps, (x, t) => Spares(x, t, s)))
  {
    InitialIsSound(serial, recycleLimit, pendingLimit);
    RunBounded(Initial(serial, recycleLimit, pendingLimit), steps, s);
  }

  // ----- parallelism -----

  /** At no moment of the log are more than `n` executions open. */
  ghost predicate AtMost(log: seq<Obs>, n: int) {
    forall k | 0 <= k <= |log| :: |Open(log[..k])| <= n
  }

  lemma AtMostAppend(log: seq<Obs>, o: Obs, n: int)
    requires AtMost(log, n) && |Open(log + [o])| <= n
    ensures AtMost(log + [o], n)
  {
    forall k | 0 <= k <= |log + [o]| ensures |Open((log + [o])[..k])| <= n {
      if k <= |log| {
        assert (log + [o])[..k] == log[..k];
      } else {
        assert (log + [o])[..k] == log + [o];
      }
    }
  }

  /** Across one step the log of a stage gains at most one observation. */
  lemma LogGrows(st: State, t: Step, s: StageId)
    requires Wf(st) && Enabled(st, t) && s < |st.stages|
    ensures s < |Apply(st, t).past|
    ensures Apply(st, t).past[s].log == st.past[s].log ||
            exists o :: Apply(st, t).past[s].log == st.past[s].log + [o]
  {
    hide Release, Destroy, DestroyUnknown, Finish, Inactive, HandOver;
    if t.Return? && t.outcome.Cohort? {
      CohortLog(Hold(st, t.worker, Parked), t.worker, st.workers[t.worker].inst, st.workers[t.worker].depth,
                t.outcome.dst, t.outcome.event, s);
    } else if t.Return? {
      FinishedLog(Hold(st, t.worker, Parked), st.workers[t.worker].inst, s);
    }
  }

  lemma CohortLog(st: State, w: nat, i: InstId, depth: nat, d: StageId, e: Event, s: StageId)
    requires Wf(st) && w < |st.workers| && i in st.insts && d < |st.stages| && s < |st.stages|
    ensures CanAcquire(st, d) ==>
              var r := HandOver(st, w, i, depth, d, e);
              |r.past| == |st.past| &&
              (r.past[s].log == st.past[s].log || r.past[s].log == st.past[s].log + [Begin(Acquired(st, d), e)])
  {
    if CanAcquire(st, d) {
      var lent := Lend(st, i, d, e);
      assert lent.past[s].log == st.past[s].log;
    }
  }

  lemma FinishedLog(st: State, i: InstId, s: StageId)
    requires Wf(st) && i in st.insts && s < |st.stages|
    ensures Finish(st, i).past[s].log == st.past[s].log || Finish(st, i).past[s].log == st.past[s].log + [End(i)]
    ensures |Finish(st, i).past| == |st.past|
    ensures var done := Finish(st, i);
            var gone := Destroy(Inactive(done, st.insts[i].stage), i);
            forall r | r in [Release(done, i), gone, DestroyUnknown(done, i)] ::
              |r.past| == |st.past| && r.past[s].log == done.past[s].log
  {
  }

  lemma OpenIsLive(st: State, s: StageId)
    requires Sound(st) && s < |st.stages|
    ensures |Open(st.past[s].log)| <= st.stages[s].count
  {
    assert StageOk(st.stages[s], st.past[s], st.insts, s);
    SubsetSize(JobsOf(st.insts, s), LiveOf(st.insts, s));
  }

  /** The step leaves stage `s` with a limit between 0 and `n` and keeps room for its instances. */
  ghost predicate WithinLimit(st: State, t: Step, s: StageId, n: int) {
    && Wf(st) && Enabled(st, t) && KeepsRoom(st, t, s)
    && 0 <= StageAfter(st, t, s).limit <= n
  }

  lemma StepAtMost(st: State, t: Step, s: StageId, n: int)
    requires Sound(st) && Enabled(st, t) && s < |st.stages| && WithinLimit(st, t, s, n)
    requires Bounded(st, s) && AtMost(st.past[s].log, n)
    ensures var r := Apply(st, t);
            Sound(r) && s < |r.stages| && Bounded(r, s) && AtMost(r.past[s].log, n)
  {
    var r := Apply(st, t);
    StepKeeps(st, t);
    LimitExactly(st, t, s);
    StepStage(st, t, s);
    OpenIsLive(r, s);
    LogGrows(st, t, s);
    if r.past[s].log != st.past[s].log {
      var o :| r.past[s].log == st.past[s].log + [o];
      AtMostAppend(st.past[s].log, o, n);
    }
  }

  lemma {:induction false} RunAtMost(st: State, steps: seq<Step>, s: StageId, n: int)
    requires Sound(st) && IsRun(st, steps) && s < |st.stages| && Bounded(st, s) && AtMost(st.past[s].log, n)
    requires Along(st, steps, (x, t) => WithinLimit(x, t, s, n))
    ensures var r := Exec(st, steps);
            Sound(r) && s < |r.stages| && Bounded(r, s) && AtMost(r.past[s].log, n)
    decreases |steps|
  {
    if steps != [] {
      StepAtMost(st, steps[0], s, n);
      RunAtMost(Apply(st, steps[0]), steps[1..], s, n);
    }
  }

  /** maxpar is a bound on parallelism: while the limit of a stage stays between its instance count and
      `n`, at most `n` of its handler executions are ever open together, sleeps and I/O waits included. */
  lemma ParallelismIsBounded(serial: seq<bool>, recycleLimit: int, pendingLimit: int, steps: seq<Step>, s: StageId,
                             n: nat)
    requires IsRun(Initial(serial, recycleLimit, pendingLimit), steps) && s < |serial|
    requires Along(Initial(serial, recycleLimit, pendingLimit), steps, (x, t) => WithinLimit(x, t, s, n))
    ensures var st := Exec(Initial(serial, recycleLimit, pendingLimit), steps);
            s < |st.past| && AtMost(st.past[s].log, n) && Bracketed(st.past[s].log)
  {
    InitialIsSound(serial, recycleLimit, pendingLimit);
    RunAtMost(Initial(serial, recycleLimit, pendingLimit), steps, s, n);
    var st := Exec(Initial(serial, recycleLimit, pendingLimit), steps);
    assert StageOk(st.stages[s], st.past[s], st.insts, s);
  }

  // ----- serial stages -----

  lemma SerialStays(st: State, t: Step, s: StageId)
    requires Sound(st) && Enabled(st, t) && s < |st.stages| && st.stages[s].serial
    ensures s < |Apply(st, t).stages| && Apply(st, t).stages[s].serial
    ensures WithinLimit(st, t, s, 1)
  {
    StepStage(st, t, s);
    assert StageOk(st.stages[s], st.past[s], st.insts, s);
  }

  lemma {:induction false} SerialRun(st: State, steps: seq<Step>, s: StageId)
    requires Sound(st) && IsRun(st, steps) && s < |st.stages| && st.stages[s].serial
    ensures Along(st, steps, (x, t) => WithinLimit(x, t, s, 1))
    ensures s < |Exec(st, steps).stages| && Exec(st, steps).stages[s].serial
    decreases |steps|
  {
    if steps != [] {
      StepKeeps(st, steps[0]);
      SerialStays(st, steps[0], s);
      SerialRun(Apply(st, steps[0]), steps[1..], s);
    }
  }

  /** In every run a serial stage has at most one live instance, its executions never overlap, and as
      long as none of its instances was destroyed the same one ran them all. */
  lemma SerialStage(serial: seq<bool>, recycleLimit: int, pendingLimit: int, steps: seq<Step>, s: StageId)
    requires IsRun(Initial(serial, recycleLimit, pendingLimit), steps) && s < |serial| && serial[s]
    ensures var st := Exec(Initial(serial, recycleLimit, pendingLimit), steps);
            && s < |st.stages| == |st.past|
            && |LiveOf(st.insts, s)| <= 1
            && AtMost(st.past[s].log, 1)
            && (st.past[s].destroyed == 0 ==>
                  forall a, b | a in st.past[s].log && b in st.past[s].log :: a.inst == b.inst)
  {
    var st0 := Initial(serial, recycleLimit, pendingLimit);
    InitialIsSound(serial, recycleLimit, pendingLimit);
    SerialRun(st0, steps, s);
    RunAtMost(st0, steps, s, 1);
    var st := Exec(st0, steps);
    assert StageOk(st.stages[s], st.past[s], st.insts, s);
    forall a, b | st.past[s].destroyed == 0 && a in st.past[s].log && b in st.past[s].log
      ensures a.inst == b.inst
    {
      AtMostOne(LiveOf(st.insts, s), a.inst, b.inst);
    }
  }

  lemma AtMostOne(x: set<InstId>, i: InstId, j: InstId)
    requires |x| <= 1 && i in x && j in x
    ensures i == j
  {
    if i != j {
      SubsetSize({i, j}, x);
    }
  }

  lemma {:induction false} ReadyWitness(ready: seq<Entry>, insts: map<InstId, Instance>, s: StageId) returns (i: InstId)
    requires ReadyOf(ready, insts, s) != []
    ensures Job(i) in ready && i in insts && insts[i].stage == s
  {
    var n := |ready| - 1;
    if LoadOf(ready[n], insts, s) != [] {
      i := ready[n].inst;
    } else {
      i := ReadyWitness(ready[..n], insts, s);
    }
  }

  /** A serial stage that can be acquired has nothing loaded, so a cohort send into it overtakes nothing. */
  lemma SerialCohortIsInOrder(st: State, s: StageId)
    requires Sound(st) && s < |st.stages| && st.stages[s].serial && Bounded(st, s) && CanAcquire(st, s)
    ensures ReadyOf(st.ready, st.insts, s) == []
  {
    if ReadyOf(st.ready, st.insts, s) != [] {
      var i := ReadyWitness(st.ready, st.insts, s);
      assert StageOk(st.stages[s], st.past[s], st.insts, s);
      var live := LiveOf(st.insts, s);
      assert i in live;
      if st.stages[s].idle != [] {
        var j := st.stages[s].idle[0];
        assert j in st.stages[s].idle && j in live;
        AtMostOne(live, i, j);
        assert false;
      }
    }
  }

  lemma {:induction false} SerialRunOrdered(st: State, steps: seq<Step>, s: StageId)
    requires Sound(st) && IsRun(st, steps) && s < |st.stages| && st.stages[s].serial && Bounded(st, s)
    requires Flowing(st, s) && Ordered(FlowOf(st, s))
    requires Along(st, steps, (x, t) => Gentle(x, t, s))
    ensures var r := Exec(st, steps);
            s < |r.stages| == |r.past| && Flowing(r, s) && Ordered(FlowOf(r, s))
    decreases |steps|
  {
    if steps != [] {
      var t := steps[0];
      if CanAcquire(st, s) {
        SerialCohortIsInOrder(st, s);
      }
      StepOrdered(st, t, s);
      SerialStays(st, t, s);
      LimitExactly(st, t, s);
      SerialRunOrdered(Apply(st, t), steps[1..], s);
    }
  }

  /** A serial stage runs its events in acceptance order, cohort sends included, for as long as no
      instance is destroyed while events are pending. */
  lemma SerialStageIsFifo(serial: seq<bool>, recycleLimit: int, pendingLimit: int, steps: seq<Step>, s: StageId)
    requires IsRun(Initial(serial, recycleLimit, pendingLimit), steps) && s < |serial| && serial[s]
    requires Along(Initial(serial, recycleLimit, pendingLimit), steps, (x, t) => Gentle(x, t, s))
    ensures var st := Exec(Initial(serial, recycleLimit, pendingLimit), steps);
            && s < |st.stages| == |st.past|
            && st.past[s].accepted ==
               Begun(st.past[s].log) + ReadyOf(st.ready, st.insts, s) + st.stages[s].pending
  {
    InitialIsSound(serial, recycleLimit, pendingLimit);
    SerialRunOrdered(Initial(serial, recycleLimit, pendingLimit), steps, s);
  }
}
