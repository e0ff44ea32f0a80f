/**
 How deep cohort sends can nest.

 A cohort send runs the callee inside the caller's activation of thread_resume_instance, so a chain
 of cohort sends deepens the C stack of its worker.  What bounds the chain is the room left in the
 stages: idle instances plus instances that may still be created.
 */
module CohortDepth {
  import opened Scheduler
  import opened Invariants
  import opened Mailbox
  import opened Runs
  import opened Guarantees

  function Room(x: Stage): int {
    |x.idle| + x.limit - x.count
  }

  function Slack(stages: seq<Stage>): int {
    if stages == [] then 0 else Slack(stages[..|stages| - 1]) + Room(stages[|stages| - 1])
  }

  lemma {:induction false} SlackUpdate(stages: seq<Stage>, s: nat, x: Stage)
    requires s < |stages|
    ensures Slack(stages[s := x]) == Slack(stages) - Room(stages[s]) + Room(x)
  {
    var n := |stages| - 1;
    if s < n {
      SlackUpdate(stages[..n], s, x);
      assert stages[s := x][..n] == stages[..n][s := x];
    } else {
      assert stages[s := x][..n] == stages[..n];
    }
  }

  lemma {:induction false} SlackIsNat(stages: seq<Stage>)
    requires forall s | 0 <= s < |stages| :: stages[s].count <= stages[s].limit
    ensures Slack(stages) >= 0
  {
    if stages != [] {
      SlackIsNat(stages[..|stages| - 1]);
    }
  }

  predicate Relimits(t: Step) {
    t.SetMaxpar? || t.SetMaxparOf?
  }

  /** What one step adds to the slack: an acquire takes one, going idle or being destroyed gives one. */
  function Gain(st: State, t: Step): int
    requires Wf(st) && Enabled(st, t)
  {
    match t
    case Emit(s, _) => if CanAcquire(st, s) then -1 else 0
    case Return(w, o) =>
      if o.Cohort? then (if CanAcquire(st, o.dst) then -1 else 0)
      else if Destroying(o) || (o.Ended? && st.stages[st.insts[st.workers[w].inst].stage].pending == []) then 1
      else 0
    case _ => 0
  }

  /** The only stage a step can change. */
  function Target(st: State, t: Step): Option<StageId>
    requires Wf(st) && Enabled(st, t)
  {
    match t
    case Emit(s, _) => Some(s)
    case Return(w, o) => if o.Cohort? then Some(o.dst) else Some(st.insts[st.workers[w].inst].stage)
    case SetPendingCapacity(s, _) => Some(s)
    case _ => None
  }

  lemma StagesAfter(st: State, t: Step)
    requires Wf(st) && Enabled(st, t) && !Relimits(t)
    ensures Apply(st, t).stages ==
            match Target(st, t)
            case Some(s) => st.stages[s := StageAfter(st, t, s)]
            case None => st.stages
  {
    StageCount(st, t);
    forall s | 0 <= s < |st.stages| ensures Apply(st, t).stages[s] == StageAfter(st, t, s) {
      StepStage(st, t, s);
    }
  }

  lemma StageCount(st: State, t: Step)
    requires Wf(st) && Enabled(st, t)
    ensures |Apply(st, t).stages| == |st.stages|
  {
    if st.stages != [] {
      StepStage(st, t, 0);
    }
  }

  /** While limits are left alone, a step changes the slack by exactly its gain. */
  lemma StepSlack(st: State, t: Step)
    requires Wf(st) && Enabled(st, t) && !Relimits(t)
    ensures Slack(Apply(st, t).stages) == Slack(st.stages) + Gain(st, t)
  {
    StagesAfter(st, t);
    if Target(st, t).Some? {
      SlackUpdate(st.stages, Target(st, t).value, StageAfter(st, t, Target(st, t).value));
    }
  }

  predicate IsRunning(st: State, w: nat) {
    w < |st.workers| && st.workers[w].Running?
  }

  ghost predicate IsCohortOf(st: State, t: Step, w: nat) {
    Enabled(st, t) && t.Return? && t.worker == w && t.outcome.Cohort? && CanAcquire(st, t.outcome.dst)
  }

  /** A worker that is busy before and after a step went one frame deeper exactly if the step was a
      successful cohort send of its own. */
  lemma StepDepth(st: State, t: Step, w: nat)
    requires Wf(st) && Enabled(st, t) && IsRunning(st, w) && IsRunning(Apply(st, t), w)
    ensures Apply(st, t).workers[w].depth == st.workers[w].depth + One(IsCohortOf(st, t, w))
  {
    hide Wf, ReturnStep;
    if t.Return? {
      ReturnWorkers(st, t.worker, t.outcome);
    }
  }

  /** The step leaves the limits alone and worker `w` inside its activation. */
  ghost predicate StaysOn(st: State, t: Step, w: nat) {
    Wf(st) && Enabled(st, t) && !Relimits(t) && IsRunning(st, w) && IsRunning(Apply(st, t), w)
  }

  /** How many steps of a run gave room back. */
  ghost function Freed(st: State, steps: seq<Step>): nat
    requires IsRun(st, steps)
    decreases |steps|
  {
    if steps == [] then 0
    else One(Gain(st, steps[0]) > 0) + Freed(Apply(st, steps[0]), steps[1..])
  }

  /** Along any stretch of a run during which a worker stays inside one activation, its depth grows by
      no more than the slack that was used up plus what other workers gave back. */
  lemma {:induction false} DepthIsPaidFor(st: State, steps: seq<Step>, w: nat)
    requires IsRun(st, steps) && IsRunning(st, w)
    requires Along(st, steps, (x, t) => StaysOn(x, t, w))
    ensures var r := Exec(st, steps);
            && IsRunning(r, w)
            && r.workers[w].depth + Slack(r.stages) <= st.workers[w].depth + Slack(st.stages) + Freed(st, steps)
    decreases |steps|
  {
    if steps != [] {
      StepSlack(st, steps[0]);
      StepDepth(st, steps[0], w);
      DepthIsPaidFor(Apply(st, steps[0]), steps[1..], w);
    }
  }

  ghost predicate SingleWorker(st: State, t: Step) {
    |st.workers| == 1 && !t.NewWorker? && StaysOn(st, t, 0)
  }

  lemma SingleWorkerFreesNothing(st: State, t: Step)
    requires SingleWorker(st, t)
    ensures Gain(st, t) <= 0
  {
  }

  lemma {:induction false} SingleWorkerRun(st: State, steps: seq<Step>)
    requires IsRun(st, steps) && Along(st, steps, SingleWorker)
    ensures Along(st, steps, (x, t) => StaysOn(x, t, 0)) && Freed(st, steps) == 0
    decreases |steps|
  {
    if steps != [] {
      SingleWorkerFreesNothing(st, steps[0]);
      SingleWorkerRun(Apply(st, steps[0]), steps[1..]);
    }
  }

  ghost predicate AllFinite(st: State) {
    forall s | 0 <= s < |st.stages| :: 0 <= st.stages[s].limit && Bounded(st, s)
  }

  lemma {:induction false} RunFinite(st: State, steps: seq<Step>, w: nat)
    requires IsRun(st, steps) && AllFinite(st) && Along(st, steps, (x, t) => StaysOn(x, t, w))
    ensures AllFinite(Exec(st, steps))
    decreases |steps|
  {
    if steps != [] {
      StageCount(st, steps[0]);
      forall s | 0 <= s < |st.stages|
        ensures 0 <= Apply(st, steps[0]).stages[s].limit && Bounded(Apply(st, steps[0]), s)
      {
        StepStage(st, steps[0], s);
        LimitExactly(st, steps[0], s);
      }
      RunFinite(Apply(st, steps[0]), steps[1..], w);
    }
  }

  /** With one worker and finite limits, the recursion that one ready-queue pop starts never gets
      deeper than one plus the slack the stages had when it started. */
  lemma CohortDepthIsBounded(st: State, steps: seq<Step>)
    requires |st.workers| == 1 && st.workers[0].Running? && st.workers[0].depth == 1 && AllFinite(st)
    requires IsRun(st, steps) && Along(st, steps, SingleWorker)
    ensures IsRunning(Exec(st, steps), 0)
    ensures Exec(st, steps).workers[0].depth <= 1 + Slack(st.stages)
  {
    DepthFromHere(st, steps);
  }

  lemma DepthFromHere(st: State, steps: seq<Step>)
    requires |st.workers| == 1 && st.workers[0].Running? && AllFinite(st)
    requires IsRun(st, steps) && Along(st, steps, SingleWorker)
    ensures IsRunning(Exec(st, steps), 0)
    ensures Exec(st, steps).workers[0].depth <= st.workers[0].depth + Slack(st.stages)
  {
    SingleWorkerRun(st, steps);
    DepthIsPaidFor(st, steps, 0);
    RunFinite(st, steps, 0);
    var r := Exec(st, steps);
    forall s | 0 <= s < |r.stages| ensures r.stages[s].count <= r.stages[s].limit {
      assert Bounded(r, s);
    }
    SlackIsNat(r.stages);
  }

  function CohortSteps(w: nat, d: StageId, es: seq<Event>): seq<Step> {
    seq(|es|, k requires 0 <= k < |es| => Return(w, Cohort(d, es[k])))
  }

  /** Without a limit that still holds there is no bound: a handler that keeps sending cohort events to a stage whose
      limit is negative, or has been set below its number of instances, nests as deep as it likes. */
  lemma {:induction false} UnlimitedCohort(st: State, w: nat, d: StageId, es: seq<Event>)
    requires Sound(st) && IsRunning(st, w) && d < |st.stages| && st.stages[d].limit < st.stages[d].count
    ensures var steps := CohortSteps(w, d, es);
            && IsRun(st, steps) && IsRunning(Exec(st, steps), w)
            && Exec(st, steps).workers[w].depth == st.workers[w].depth + |es|
            && |Exec(st, steps).stages| == |st.stages| && Exec(st, steps).stages[d].limit == st.stages[d].limit
            && (|st.workers| == 1 && w == 0 ==> Along(st, steps, SingleWorker))
    decreases |es|
  {
    hide StageOk, Placed, ReturnStep;
    var steps := CohortSteps(w, d, es);
    if es != [] {
      var t := Return(w, Cohort(d, es[0]));
      StepKeeps(st, t);
      StepStage(st, t, d);
      ReturnWorkers(st, w, t.outcome);
      UnlimitedCohort(Apply(st, t), w, d, es[1..]);
      assert steps[1..] == CohortSteps(w, d, es[1..]);
    }
  }

  /** The states of a run that starts a handler and then sets the limit of its stage to `cap`. */
  function Started(cap: int, k: nat): State
    requires k <= 4
  {
    var x := Stage(false, -1, -1, 1, 1, [], [], -1);
    var loaded := map[0 := Instance(0, Fresh(7), None)];
    var running := map[0 := Instance(0, Blank, Some(7))];
    var begun := [Past([7], [Begin(0, 7)], 0, 0)];
    match k
    case 0 => Initial([false], -1, -1)
    case 1 => State([FreshStage(false, -1, -1)], [Past([], [], 0, 0)], map[], 0, [], {}, [Parked], 1, 1, 0)
    case 2 => State([x], [Past([7], [], 0, 0)], loaded, 1, [Job(0)], {}, [Parked], 1, 1, 0)
    case 3 => State([x], begun, running, 1, [], {}, [Running(0, 1)], 1, 1, 0)
    case 4 => State([WithLimit(x, cap)], begun, running, 1, [], {}, [Running(0, 1)], 1, 1, 0)
  }

  lemma StartedEmit(cap: int)
    ensures Leads(Started(cap, 1), Emit(0, 7), Started(cap, 2))
  {
    var none: seq<Event> := [];
    assert none + [7] == [7];
    var r := Apply(Started(cap, 1), Emit(0, 7));
    assert r.stages == Started(cap, 2).stages && r.past == Started(cap, 2).past && r.insts == Started(cap, 2).insts;
  }

  lemma StartedPop(cap: int)
    ensures Leads(Started(cap, 2), Pop(0), Started(cap, 3))
  {
    var none: seq<Obs> := [];
    assert none + [Begin(0, 7)] == [Begin(0, 7)];
    var r := Apply(Started(cap, 2), Pop(0));
    assert r.past == Started(cap, 3).past && r.insts == Started(cap, 3).insts;
  }

  lemma StartedLimit(cap: int)
    requires cap >= -1
    ensures Leads(Started(cap, 3), SetMaxpar(cap), Started(cap, 4))
  {
    assert Apply(Started(cap, 3), SetMaxpar(cap)).stages == Started(cap, 4).stages;
  }

  lemma StartedRun(cap: int) returns (steps: seq<Step>)
    requires cap >= -1
    ensures IsRun(Started(cap, 0), steps) && Exec(Started(cap, 0), steps) == Started(cap, 4) && Sound(Started(cap, 4))
  {
    hide Leads, Sound;
    steps := [NewWorker, Emit(0, 7), Pop(0), SetMaxpar(cap)];
    var states := [Started(cap, 0), Started(cap, 1), Started(cap, 2), Started(cap, 3), Started(cap, 4)];
    StartedFirst(cap);
    StartedEmit(cap);
    StartedPop(cap);
    StartedLimit(cap);
    UnrollRun(steps, states);
    InitialIsSound([false], -1, -1);
    RunIsSound(Started(cap, 0), steps);
  }

  lemma StartedFirst(cap: int)
    ensures Leads(Started(cap, 0), NewWorker, Started(cap, 1))
  {
  }

  /** Unbounded recursion is reached, without a limit and with a limit set below the one instance there is: for every
      depth there is a run from the start that gets that deep with one worker. */
  lemma UnlimitedIsReached(cap: int, depth: nat)
    requires -1 <= cap <= 0 && depth >= 1
    ensures exists steps ::
              && IsRun(Initial([false], -1, -1), steps)
              && var st := Exec(Initial([false], -1, -1), steps);
                 |st.stages| == 1 && st.stages[0].limit == cap && IsRunning(st, 0) && st.workers[0].depth == depth
  {
    hide Sound, IsRun, Exec, CohortSteps;
    var steps := StartedRun(cap);
    var es: seq<Event> := seq(depth - 1, _ => 0);
    UnlimitedCohort(Started(cap, 4), 0, 0, es);
    JoinRuns(Started(cap, 0), steps, CohortSteps(0, 0, es));
    assert IsRun(Initial([false], -1, -1), steps + CohortSteps(0, 0, es));
  }

  /** No run of the only worker inside its activation is deeper than `n`. */
  ghost predicate DepthWithin(st: State, n: nat) {
    forall steps | IsRun(st, steps) && Along(st, steps, SingleWorker) ::
      IsRunning(Exec(st, steps), 0) && Exec(st, steps).workers[0].depth <= n
  }

  /** The recursion of the only worker has a bound if and only if every stage has a limit that is not below its number
      of instances. */
  lemma RecursionIsBoundedExactly(st: State)
    requires Sound(st) && |st.workers| == 1 && IsRunning(st, 0)
    ensures (exists n: nat :: DepthWithin(st, n)) <==> AllFinite(st)
  {
    if AllFinite(st) {
      forall s | 0 <= s < |st.stages| ensures st.stages[s].count <= st.stages[s].limit {
        assert Bounded(st, s);
      }
      SlackIsNat(st.stages);
      var n := st.workers[0].depth + Slack(st.stages);
      forall steps | IsRun(st, steps) && Along(st, steps, SingleWorker)
        ensures IsRunning(Exec(st, steps), 0) && Exec(st, steps).workers[0].depth <= n
      {
        DepthFromHere(st, steps);
      }
      assert DepthWithin(st, n);
    } else {
      var d :| 0 <= d < |st.stages| && !(0 <= st.stages[d].limit && Bounded(st, d));
      assert StageOk(st.stages[d], st.past[d], st.insts, d);
      forall n: nat ensures !DepthWithin(st, n) {
        var es: seq<Event> := seq(n + 1, k => 0);
        UnlimitedCohort(st, 0, d, es);
        assert IsRun(st, CohortSteps(0, d, es));
      }
    }
  }
}
