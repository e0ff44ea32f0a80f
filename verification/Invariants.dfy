/**
 What every step of the scheduler keeps.

 `Structure(st, hand)` says where instances are and that the counters count what they claim to
 count.  `hand` holds the instances that a C function has in its local variables between two
 queue operations; it is empty between steps, so each piece of a step can be proved on its own.
 */
module Invariants {
  import opened Scheduler

  // ----- the places an instance can be -----

  function Times(idle: seq<InstId>, i: InstId): nat {
    multiset(idle)[i]
  }

  function One(b: bool): nat {
    if b then 1 else 0
  }

  function IdleTally(stages: seq<Stage>, i: InstId): nat {
    if stages == [] then 0
    else IdleTally(stages[..|stages| - 1], i) + Times(stages[|stages| - 1].idle, i)
  }

  function ReadyTally(ready: seq<Entry>, i: InstId): nat {
    if ready == [] then 0
    else ReadyTally(ready[..|ready| - 1], i) + One(ready[|ready| - 1] == Job(i))
  }

  function OnWorker(w: Worker, i: InstId): nat {
    One(w.Running? && w.inst == i)
  }

  function WorkerTally(workers: seq<Worker>, i: InstId): nat {
    if workers == [] then 0
    else WorkerTally(workers[..|workers| - 1], i) + OnWorker(workers[|workers| - 1], i)
  }

  /** In how many places an instance is. */
  function Tally(st: State, i: InstId): nat {
    IdleTally(st.stages, i) + ReadyTally(st.ready, i) + WorkerTally(st.workers, i) + One(i in st.waiting)
  }

  // ----- what the counters and the history are compared with -----

  function LiveOf(insts: map<InstId, Instance>, s: StageId): set<InstId> {
    set i | i in insts && insts[i].stage == s
  }

  function JobsOf(insts: map<InstId, Instance>, s: StageId): set<InstId> {
    set i | i in insts && insts[i].stage == s && insts[i].job.Some?
  }

  /** The instances with an execution that began and did not end. */
  function Open(log: seq<Obs>): set<InstId> {
    if log == [] then {}
    else
      var before := Open(log[..|log| - 1]);
      match log[|log| - 1]
      case Begin(i, _) => before + {i}
      case End(i) => before - {i}
  }

  /** Executions of one instance never overlap, and only what is open ends. */
  ghost predicate Bracketed(log: seq<Obs>) {
    forall k | 0 <= k < |log| :: log[k].Begin? <==> log[k].inst !in Open(log[..k])
  }

  // ----- the structural invariant -----

  ghost predicate PlacedAt(st: State, hand: set<InstId>, i: InstId) {
    Tally(st, i) + One(i in hand) == One(i in st.insts)
  }

  ghost predicate Placed(st: State, hand: set<InstId>) {
    forall i :: PlacedAt(st, hand, i)
  }

  ghost predicate IdleOk(idle: seq<InstId>, insts: map<InstId, Instance>, s: StageId) {
    forall i | i in idle :: i in insts && insts[i] == Instance(s, Blank, None)
  }

  ghost predicate Counted(x: Stage, unknown: nat, insts: map<InstId, Instance>, s: StageId) {
    && x.count == |LiveOf(insts, s)|
    && x.active == x.count - |x.idle| + unknown
    && x.idleCap == x.limit
    && (x.serial ==> x.limit == 1)
  }

  ghost predicate Logged(p: Past, insts: map<InstId, Instance>, s: StageId) {
    && Open(p.log) == JobsOf(insts, s)
    && Bracketed(p.log)
    && (p.destroyed == 0 ==> forall o | o in p.log :: o.inst in LiveOf(insts, s))
  }

  ghost predicate StageOk(x: Stage, p: Past, insts: map<InstId, Instance>, s: StageId) {
    IdleOk(x.idle, insts, s) && Counted(x, p.unknown, insts, s) && Logged(p, insts, s)
  }

  ghost predicate Loaded(insts: map<InstId, Instance>, i: InstId) {
    i in insts && !insts[i].load.Blank? && (insts[i].load.Fresh? <==> insts[i].job.None?)
  }

  ghost predicate Suspended(insts: map<InstId, Instance>, i: InstId) {
    i in insts && insts[i].load.Blank? && insts[i].job.Some?
  }

  ghost predicate Local(st: State) {
    && Wf(st)
    && (forall i | i in st.insts :: i < st.next)
    && (forall x | x in st.ready && x.Job? :: Loaded(st.insts, x.inst))
    && (forall w | 0 <= w < |st.workers| && st.workers[w].Running? :: Suspended(st.insts, st.workers[w].inst))
    && (forall i | i in st.waiting :: Suspended(st.insts, i))
    && (forall s | 0 <= s < |st.stages| :: StageOk(st.stages[s], st.past[s], st.insts, s))
  }

  ghost predicate Structure(st: State, hand: set<InstId>) {
    Placed(st, hand) && Local(st)
  }

  /** An instance that is live and in none of the tables. */
  ghost predicate Loose(st: State, i: InstId) {
    && i in st.insts
    && (forall s | 0 <= s < |st.stages| :: i !in st.stages[s].idle)
    && Job(i) !in st.ready && i !in st.waiting
    && (forall w | 0 <= w < |st.workers| && st.workers[w].Running? :: st.workers[w].inst != i)
  }

  // ----- places under update -----

  lemma {:induction false} IdleTallyUpdate(stages: seq<Stage>, s: nat, x: Stage, i: InstId)
    requires s < |stages|
    ensures IdleTally(stages[s := x], i) + Times(stages[s].idle, i) == IdleTally(stages, i) + Times(x.idle, i)
    ensures Times(stages[s].idle, i) <= IdleTally(stages, i)
  {
    var n := |stages| - 1;
    if s < n {
      IdleTallyUpdate(stages[..n], s, x, i);
      assert stages[s := x][..n] == stages[..n][s := x];
    } else {
      assert stages[s := x][..n] == stages[..n];
    }
  }

  lemma {:induction false} IdleTallyCongruent(a: seq<Stage>, b: seq<Stage>, i: InstId)
    requires |a| == |b| && forall s | 0 <= s < |a| :: a[s].idle == b[s].idle
    ensures IdleTally(a, i) == IdleTally(b, i)
  {
    if a != [] {
      IdleTallyCongruent(a[..|a| - 1], b[..|b| - 1], i);
    }
  }

  lemma {:induction false} WorkerTallyUpdate(workers: seq<Worker>, w: nat, x: Worker, i: InstId)
    requires w < |workers|
    ensures WorkerTally(workers[w := x], i) + OnWorker(workers[w], i) == WorkerTally(workers, i) + OnWorker(x, i)
    ensures OnWorker(workers[w], i) <= WorkerTally(workers, i)
  {
    var n := |workers| - 1;
    if w < n {
      WorkerTallyUpdate(workers[..n], w, x, i);
      assert workers[w := x][..n] == workers[..n][w := x];
    } else {
      assert workers[w := x][..n] == workers[..n];
    }
  }

  lemma ReadyTallyAppend(ready: seq<Entry>, x: Entry, i: InstId)
    ensures ReadyTally(ready + [x], i) == ReadyTally(ready, i) + One(x == Job(i))
  {
    assert (ready + [x])[..|ready|] == ready;
  }

  lemma {:induction false} ReadyTallyHead(ready: seq<Entry>, i: InstId)
    requires ready != []
    ensures ReadyTally(ready, i) == One(ready[0] == Job(i)) + ReadyTally(ready[1..], i)
  {
    var n := |ready| - 1;
    if n > 0 {
      ReadyTallyHead(ready[..n], i);
      assert ready[..n][1..] == ready[1..][..n - 1];
      assert ready[1..][n - 1] == ready[n];
    }
  }

  lemma {:induction false} ReadyTallyHas(ready: seq<Entry>, i: InstId)
    requires Job(i) in ready
    ensures ReadyTally(ready, i) >= 1
  {
    var n := |ready| - 1;
    if ready[n] != Job(i) {
      assert Job(i) in ready[..n];
      ReadyTallyHas(ready[..n], i);
    }
  }

  lemma HandIsLoose(st: State, hand: set<InstId>, i: InstId)
    requires Placed(st, hand) && i in hand
    ensures Loose(st, i)
  {
    assert PlacedAt(st, hand, i);
    forall s | 0 <= s < |st.stages| ensures i !in st.stages[s].idle {
      IdleTallyUpdate(st.stages, s, st.stages[s], i);
    }
    if Job(i) in st.ready {
      ReadyTallyHas(st.ready, i);
    }
    forall w | 0 <= w < |st.workers| && st.workers[w].Running? ensures st.workers[w].inst != i {
      WorkerTallyUpdate(st.workers, w, st.workers[w], i);
    }
  }

  // ----- live sets under update -----

  lemma LiveOfInsert(insts: map<InstId, Instance>, i: InstId, x: Instance, s: StageId)
    requires i !in insts
    ensures LiveOf(insts[i := x], s) == if x.stage == s then LiveOf(insts, s) + {i} else LiveOf(insts, s)
    ensures x.job.None? ==> JobsOf(insts[i := x], s) == JobsOf(insts, s)
  {
  }

  lemma LiveOfUpdate(insts: map<InstId, Instance>, i: InstId, x: Instance, s: StageId)
    requires i in insts && insts[i].stage == x.stage
    ensures LiveOf(insts[i := x], s) == LiveOf(insts, s)
    ensures JobsOf(insts[i := x], s) ==
            if x.stage != s then JobsOf(insts, s)
            else if x.job.Some? then JobsOf(insts, s) + {i} else JobsOf(insts, s) - {i}
  {
  }

  lemma LiveOfRemove(insts: map<InstId, Instance>, i: InstId, s: StageId)
    requires i in insts
    ensures LiveOf(insts - {i}, s) == LiveOf(insts, s) - {i}
    ensures insts[i].job.None? ==> JobsOf(insts - {i}, s) == JobsOf(insts, s)
  {
  }

  /** A change of load on a loose instance is invisible to the stages. */
  lemma StageOkReload(x: Stage, p: Past, insts: map<InstId, Instance>, i: InstId, load: Load, s: StageId)
    requires StageOk(x, p, insts, s) && i in insts && i !in x.idle
    ensures StageOk(x, p, insts[i := insts[i].(load := load)], s)
  {
    LiveOfUpdate(insts, i, insts[i].(load := load), s);
  }

  // ----- the pieces of a step keep Local -----

  lemma AcquireLocal(st: State, s: StageId)
    requires Local(st) && s < |st.stages| && CanAcquire(st, s)
    ensures Local(Acquire(st, s))
    ensures Acquired(st, s) in Acquire(st, s).insts
    ensures Acquire(st, s).insts[Acquired(st, s)] == Instance(s, Blank, None)
  {
    var r := Acquire(st, s);
    assert StageOk(st.stages[s], st.past[s], st.insts, s);
    if st.stages[s].idle == [] {
      forall t | 0 <= t < |st.stages| ensures StageOk(r.stages[t], r.past[t], r.insts, t) {
        assert StageOk(st.stages[t], st.past[t], st.insts, t);
        LiveOfInsert(st.insts, st.next, Instance(s, Blank, None), t);
      }
    } else {
      assert st.stages[s].idle[0] in st.stages[s].idle;
      forall t | 0 <= t < |st.stages| ensures StageOk(r.stages[t], r.past[t], r.insts, t) {
        assert StageOk(st.stages[t], st.past[t], st.insts, t);
      }
    }
  }

  lemma EnqueueLocal(st: State, i: InstId, load: Load)
    requires Local(st) && Loose(st, i)
    requires !load.Blank? && (load.Fresh? <==> st.insts[i].job.None?)
    ensures Local(Enqueue(st, i, load))
  {
    var r := Enqueue(st, i, load);
    forall t | 0 <= t < |st.stages| ensures StageOk(r.stages[t], r.past[t], r.insts, t) {
      StageOkReload(st.stages[t], st.past[t], st.insts, i, load, t);
    }
  }

  lemma OpenAppend(log: seq<Obs>, o: Obs)
    ensures Open(log + [o]) == if o.Begin? then Open(log) + {o.inst} else Open(log) - {o.inst}
  {
    assert (log + [o])[..|log|] == log;
  }

  lemma BracketedAppend(log: seq<Obs>, o: Obs)
    requires Bracketed(log) && (o.Begin? <==> o.inst !in Open(log))
    ensures Bracketed(log + [o])
  {
    forall k | 0 <= k < |log + [o]|
      ensures (log + [o])[k].Begin? <==> (log + [o])[k].inst !in Open((log + [o])[..k])
    {
      assert (log + [o])[..k] == log[..k];
      if k == |log| {
        assert log[..k] == log;
      }
    }
  }

  /** An execution of a loose instance begins or ends: the log and the job of the instance move together. */
  lemma StageOkObserve(x: Stage, p: Past, insts: map<InstId, Instance>, i: InstId, y: Instance, o: Obs, s: StageId)
    requires StageOk(x, p, insts, s) && i in insts && i !in x.idle
    requires y.stage == insts[i].stage == s && o.inst == i
    requires if o.Begin? then insts[i].job.None? && y.job.Some? else insts[i].job.Some? && y.job.None?
    ensures StageOk(x, p.(log := p.log + [o]), insts[i := y], s)
  {
    LiveOfUpdate(insts, i, y, s);
    OpenAppend(p.log, o);
    BracketedAppend(p.log, o);
  }

  lemma StageOkElsewhere(x: Stage, p: Past, insts: map<InstId, Instance>, i: InstId, y: Instance, s: StageId)
    requires StageOk(x, p, insts, s) && i in insts && i !in x.idle
    requires y.stage == insts[i].stage != s
    ensures StageOk(x, p, insts[i := y], s)
  {
    LiveOfUpdate(insts, i, y, s);
  }

  lemma ResumedLocal(st: State, i: InstId)
    requires Local(st) && Loose(st, i) && Loaded(st.insts, i)
    ensures Local(Resumed(st, i)) && Suspended(Resumed(st, i).insts, i)
  {
    var r := Resumed(st, i);
    var s := st.insts[i].stage;
    forall t | 0 <= t < |st.stages| ensures StageOk(r.stages[t], r.past[t], r.insts, t) {
      assert StageOk(st.stages[t], st.past[t], st.insts, t);
      if st.insts[i].load.Resume? {
        StageOkReload(st.stages[t], st.past[t], st.insts, i, Blank, t);
      } else if t == s {
        StageOkObserve(st.stages[t], st.past[t], st.insts, i, r.insts[i], Begin(i, st.insts[i].load.event), t);
      } else {
        StageOkElsewhere(st.stages[t], st.past[t], st.insts, i, r.insts[i], t);
      }
    }
  }

  lemma FinishLocal(st: State, i: InstId)
    requires Local(st) && Loose(st, i) && Suspended(st.insts, i)
    ensures Local(Finish(st, i))
    ensures Finish(st, i).insts[i] == Instance(st.insts[i].stage, Blank, None)
  {
    var r := Finish(st, i);
    forall t | 0 <= t < |st.stages| ensures StageOk(r.stages[t], r.past[t], r.insts, t) {
      assert StageOk(st.stages[t], st.past[t], st.insts, t);
      if t == st.insts[i].stage {
        StageOkObserve(st.stages[t], st.past[t], st.insts, i, r.insts[i], End(i), t);
      } else {
        StageOkElsewhere(st.stages[t], st.past[t], st.insts, i, r.insts[i], t);
      }
    }
  }

  lemma StageOkRemove(x: Stage, p: Past, insts: map<InstId, Instance>, i: InstId, s: StageId)
    requires StageOk(x, p, insts, s) && i in insts && i !in x.idle && insts[i].job.None?
    ensures insts[i].stage != s ==> StageOk(x, p, insts - {i}, s)
    ensures insts[i].stage == s ==>
              && IdleOk(x.idle, insts - {i}, s)
              && x.count - 1 == |LiveOf(insts - {i}, s)|
              && Open(p.log) == JobsOf(insts - {i}, s)
  {
    LiveOfRemove(insts, i, s);
    if insts[i].stage == s {
      assert i in LiveOf(insts, s);
    } else {
      assert i !in LiveOf(insts, s);
    }
  }

  /** instance_destroy after STATS_INACTIVE. */
  lemma DestroyLocal(st: State, i: InstId)
    requires Local(st) && Loose(st, i) && st.insts[i].job.None?
    ensures Local(Destroy(Inactive(st, st.insts[i].stage), i))
  {
    var r := Destroy(Inactive(st, st.insts[i].stage), i);
    forall t | 0 <= t < |st.stages| ensures StageOk(r.stages[t], r.past[t], r.insts, t) {
      assert StageOk(st.stages[t], st.past[t], st.insts, t);
      StageOkRemove(st.stages[t], st.past[t], st.insts, i, t);
    }
  }

  /** instance_destroy on an unknown status: the active counter is left behind by one. */
  lemma UnknownLocal(st: State, i: InstId)
    requires Local(st) && Loose(st, i) && st.insts[i].job.None?
    ensures Local(DestroyUnknown(st, i))
  {
    var r := DestroyUnknown(st, i);
    forall t | 0 <= t < |st.stages| ensures StageOk(r.stages[t], r.past[t], r.insts, t) {
      assert StageOk(st.stages[t], st.past[t], st.insts, t);
      StageOkRemove(st.stages[t], st.past[t], st.insts, i, t);
    }
  }

  /** Changing the pending queue of a stage, or its capacity, is invisible to Local. */
  lemma PendingLocal(st: State, s: StageId, pending: seq<Event>, cap: int)
    requires Local(st) && s < |st.stages|
    ensures Local(SetStage(st, s, st.stages[s].(pending := pending, pendingCap := cap)))
  {
    var r := SetStage(st, s, st.stages[s].(pending := pending, pendingCap := cap));
    forall t | 0 <= t < |st.stages| ensures StageOk(r.stages[t], r.past[t], r.insts, t) {
      assert StageOk(st.stages[t], st.past[t], st.insts, t);
    }
  }

  lemma ReleaseLocal(st: State, i: InstId)
    requires Local(st) && Loose(st, i) && st.insts[i].load.Blank? && st.insts[i].job.None?
    ensures Local(Release(st, i))
  {
    var s := st.insts[i].stage;
    var x := st.stages[s];
    if x.pending != [] {
      PendingLocal(st, s, x.pending[1..], x.pendingCap);
      EnqueueLocal(SetStage(st, s, x.(pending := x.pending[1..])), i, Fresh(x.pending[0]));
    } else if Full(|x.idle|, x.idleCap) {
      DestroyLocal(st, i);
    } else {
      var r := Release(st, i);
      forall t | 0 <= t < |st.stages| ensures StageOk(r.stages[t], r.past[t], r.insts, t) {
        assert StageOk(st.stages[t], st.past[t], st.insts, t);
      }
    }
  }

  lemma AcceptLocal(st: State, s: StageId, e: Event)
    requires Local(st) && s < |st.stages|
    ensures Local(Accept(st, s, e))
  {
    var r := Accept(st, s, e);
    forall t | 0 <= t < |st.stages| ensures StageOk(r.stages[t], r.past[t], r.insts, t) {
      assert StageOk(st.stages[t], st.past[t], st.insts, t);
    }
  }

  // ----- the pieces of a step keep Structure -----

  lemma AcquireKeeps(st: State, hand: set<InstId>, s: StageId)
    requires Structure(st, hand) && s < |st.stages| && CanAcquire(st, s)
    ensures Structure(Acquire(st, s), hand + {Acquired(st, s)})
    ensures Acquired(st, s) in Acquire(st, s).insts
    ensures Acquire(st, s).insts[Acquired(st, s)] == Instance(s, Blank, None)
    ensures Acquired(st, s) !in hand
  {
    AcquireLocal(st, s);
    assert PlacedAt(st, hand, Acquired(st, s));
    IdleTallyUpdate(st.stages, s, st.stages[s], Acquired(st, s));
    var r := Acquire(st, s);
    var x := st.stages[s];
    if x.idle != [] {
      assert x.idle == [x.idle[0]] + x.idle[1..];
    }
    forall i ensures PlacedAt(r, hand + {Acquired(st, s)}, i) {
      assert PlacedAt(st, hand, i);
      IdleTallyUpdate(st.stages, s, r.stages[s], i);
    }
  }

  lemma AcceptKeeps(st: State, hand: set<InstId>, s: StageId, e: Event)
    requires Structure(st, hand) && s < |st.stages|
    ensures Structure(Accept(st, s, e), hand)
  {
    AcceptLocal(st, s, e);
    forall i ensures PlacedAt(Accept(st, s, e), hand, i) {
      assert PlacedAt(st, hand, i);
    }
  }

  lemma EnqueueKeeps(st: State, hand: set<InstId>, i: InstId, load: Load)
    requires Structure(st, hand) && i in hand && i in st.insts
    requires !load.Blank? && (load.Fresh? <==> st.insts[i].job.None?)
    ensures Structure(Enqueue(st, i, load), hand - {i})
  {
    HandIsLoose(st, hand, i);
    EnqueueLocal(st, i, load);
    forall j ensures PlacedAt(Enqueue(st, i, load), hand - {i}, j) {
      assert PlacedAt(st, hand, j);
      ReadyTallyAppend(st.ready, Job(i), j);
    }
  }

  lemma ResumedKeeps(st: State, hand: set<InstId>, i: InstId)
    requires Structure(st, hand) && i in hand && Loaded(st.insts, i)
    ensures Structure(Resumed(st, i), hand) && Suspended(Resumed(st, i).insts, i)
  {
    HandIsLoose(st, hand, i);
    ResumedLocal(st, i);
    forall j ensures PlacedAt(Resumed(st, i), hand, j) {
      assert PlacedAt(st, hand, j);
    }
  }

  lemma FinishKeeps(st: State, hand: set<InstId>, i: InstId)
    requires Structure(st, hand) && i in hand && Suspended(st.insts, i)
    ensures Structure(Finish(st, i), hand)
    ensures Finish(st, i).insts[i] == Instance(st.insts[i].stage, Blank, None)
  {
    HandIsLoose(st, hand, i);
    FinishLocal(st, i);
    forall j ensures PlacedAt(Finish(st, i), hand, j) {
      assert PlacedAt(st, hand, j);
    }
  }

  lemma DestroyKeeps(st: State, hand: set<InstId>, i: InstId)
    requires Structure(st, hand) && i in hand && i in st.insts && st.insts[i].job.None?
    ensures Structure(Destroy(Inactive(st, st.insts[i].stage), i), hand - {i})
  {
    HandIsLoose(st, hand, i);
    DestroyLocal(st, i);
    var r := Destroy(Inactive(st, st.insts[i].stage), i);
    forall j ensures PlacedAt(r, hand - {i}, j) {
      assert PlacedAt(st, hand, j);
      IdleTallyCongruent(st.stages, r.stages, j);
    }
  }

  lemma UnknownKeeps(st: State, hand: set<InstId>, i: InstId)
    requires Structure(st, hand) && i in hand && i in st.insts && st.insts[i].job.None?
    ensures Structure(DestroyUnknown(st, i), hand - {i})
  {
    HandIsLoose(st, hand, i);
    UnknownLocal(st, i);
    var r := DestroyUnknown(st, i);
    forall j ensures PlacedAt(r, hand - {i}, j) {
      assert PlacedAt(st, hand, j);
      IdleTallyCongruent(st.stages, r.stages, j);
    }
  }

  lemma PendingKeeps(st: State, hand: set<InstId>, s: StageId, pending: seq<Event>, cap: int)
    requires Structure(st, hand) && s < |st.stages|
    ensures Structure(SetStage(st, s, st.stages[s].(pending := pending, pendingCap := cap)), hand)
  {
    PendingLocal(st, s, pending, cap);
    var r := SetStage(st, s, st.stages[s].(pending := pending, pendingCap := cap));
    forall j ensures PlacedAt(r, hand, j) {
      assert PlacedAt(st, hand, j);
      IdleTallyCongruent(st.stages, r.stages, j);
    }
  }

  lemma ReleaseKeeps(st: State, hand: set<InstId>, i: InstId)
    requires Structure(st, hand) && i in hand
    requires i in st.insts && st.insts[i].load.Blank? && st.insts[i].job.None?
    ensures Structure(Release(st, i), hand - {i})
  {
    var s := st.insts[i].stage;
    var x := st.stages[s];
    if x.pending != [] {
      PendingKeeps(st, hand, s, x.pending[1..], x.pendingCap);
      EnqueueKeeps(SetStage(st, s, x.(pending := x.pending[1..])), hand, i, Fresh(x.pending[0]));
    } else if Full(|x.idle|, x.idleCap) {
      DestroyKeeps(st, hand, i);
    } else {
      HandIsLoose(st, hand, i);
      ReleaseLocal(st, i);
      var r := Release(st, i);
      forall j ensures PlacedAt(r, hand - {i}, j) {
        assert PlacedAt(st, hand, j);
        IdleTallyUpdate(st.stages, s, r.stages[s], j);
      }
    }
  }

  lemma TakeOffKeeps(st: State, hand: set<InstId>, w: nat)
    requires Structure(st, hand) && w < |st.workers| && st.workers[w].Running?
    ensures Structure(Hold(st, w, Parked), hand + {st.workers[w].inst})
    ensures Suspended(st.insts, st.workers[w].inst)
  {
    var r := Hold(st, w, Parked);
    forall j ensures PlacedAt(r, hand + {st.workers[w].inst}, j) {
      assert PlacedAt(st, hand, j);
      WorkerTallyUpdate(st.workers, w, Parked, j);
    }
    assert Local(r);
  }

  lemma PutOnKeeps(st: State, hand: set<InstId>, w: nat, i: InstId, depth: nat)
    requires Structure(st, hand) && w < |st.workers| && !st.workers[w].Running?
    requires i in hand && Suspended(st.insts, i)
    ensures Structure(Hold(st, w, Running(i, depth)), hand - {i})
  {
    var r := Hold(st, w, Running(i, depth));
    forall j ensures PlacedAt(r, hand - {i}, j) {
      assert PlacedAt(st, hand, j);
      WorkerTallyUpdate(st.workers, w, Running(i, depth), j);
    }
    assert Local(r);
  }

  function OfEntry(x: Entry): set<InstId> {
    if x.Job? then {x.inst} else {}
  }

  /** The head of the ready queue comes into the hand of a worker. */
  lemma HeadKeeps(st: State, hand: set<InstId>)
    requires Structure(st, hand) && st.ready != []
    ensures Structure(st.(ready := st.ready[1..]), hand + OfEntry(st.ready[0]))
    ensures st.ready[0].Job? ==> Loaded(st.insts, st.ready[0].inst)
  {
    var r := st.(ready := st.ready[1..]);
    forall j ensures PlacedAt(r, hand + OfEntry(st.ready[0]), j) {
      assert PlacedAt(st, hand, j);
      ReadyTallyHead(st.ready, j);
    }
    assert st.ready[0] in st.ready;
    assert forall x | x in r.ready :: x in st.ready;
    assert Local(r);
  }

  lemma ReloadKeeps(st: State, hand: set<InstId>, i: InstId, load: Load)
    requires Structure(st, hand) && i in hand && i in st.insts
    ensures Structure(Reload(st, i, load), hand)
  {
    HandIsLoose(st, hand, i);
    var r := Reload(st, i, load);
    forall j ensures PlacedAt(r, hand, j) {
      assert PlacedAt(st, hand, j);
    }
    forall t | 0 <= t < |st.stages| ensures StageOk(r.stages[t], r.past[t], r.insts, t) {
      StageOkReload(st.stages[t], st.past[t], st.insts, i, load, t);
    }
  }

  // ----- steps -----

  ghost predicate Sound(st: State) {
    Structure(st, {})
  }

  lemma EmitKeeps(st: State, s: StageId, e: Event)
    requires Sound(st) && s < |st.stages|
    ensures Sound(EmitStep(st, s, e))
  {
    var x := st.stages[s];
    if CanAcquire(st, s) {
      var i := Acquired(st, s);
      AcquireKeeps(st, {}, s);
      assert {} + {i} == {i};
      AcceptKeeps(Acquire(st, s), {i}, s, e);
      EnqueueKeeps(Accept(Acquire(st, s), s, e), {i}, i, Fresh(e));
    } else if !Full(|x.pending|, x.pendingCap) {
      PendingKeeps(st, {}, s, x.pending + [e], x.pendingCap);
      AcceptKeeps(SetStage(st, s, x.(pending := x.pending + [e])), {}, s, e);
    }
  }

  lemma PopKeeps(st: State, w: nat)
    requires Sound(st) && w < |st.workers| && st.workers[w].Parked? && st.ready != []
    ensures Sound(PopStep(st, w))
  {
    HeadKeeps(st, {});
    assert {} + OfEntry(st.ready[0]) == OfEntry(st.ready[0]);
    var rest := st.(ready := st.ready[1..]);
    match st.ready[0]
    case Kill =>
      forall j ensures PlacedAt(PopStep(st, w), {}, j) {
        assert PlacedAt(rest, {}, j);
        WorkerTallyUpdate(st.workers, w, Exited, j);
      }
      assert Local(PopStep(st, w));
    case Job(i) =>
      ResumedKeeps(rest, {i}, i);
      PutOnKeeps(Resumed(rest, i), {i}, w, i, 1);
  }

  lemma LendKeeps(st: State, i: InstId, dst: StageId, e: Event)
    requires Structure(st, {i}) && Suspended(st.insts, i)
    requires dst < |st.stages| && CanAcquire(st, dst)
    ensures var j := Acquired(st, dst);
            var r := Lend(st, i, dst, e);
            Structure(r, {j}) && j in r.insts && r.insts[j].job.None? && j != i
  {
    var j := Acquired(st, dst);
    AcquireKeeps(st, {i}, dst);
    var got := Acquire(st, dst);
    AcceptKeeps(got, {i} + {j}, dst, e);
    EnqueueKeeps(Accept(got, dst, e), {i} + {j}, i, Resume);
    assert {i} + {j} - {i} == {j};
  }

  lemma TakeOverKeeps(st: State, w: nat, j: InstId, depth: nat, e: Event)
    requires Structure(st, {j}) && j in st.insts && st.insts[j].job.None?
    requires w < |st.workers| && !st.workers[w].Running?
    ensures Sound(TakeOver(st, w, j, depth, e))
  {
    ReloadKeeps(st, {j}, j, Fresh(e));
    var loaded := Reload(st, j, Fresh(e));
    ResumedKeeps(loaded, {j}, j);
    PutOnKeeps(Resumed(loaded, j), {j}, w, j, depth);
    assert {j} - {j} == {};
  }

  lemma AwaitKeeps(st: State, i: InstId)
    requires Structure(st, {i}) && Suspended(st.insts, i)
    ensures Sound(st.(waiting := st.waiting + {i}))
  {
    HandIsLoose(st, {i}, i);
    var r := st.(waiting := st.waiting + {i});
    forall j ensures PlacedAt(r, {}, j) {
      assert PlacedAt(st, {i}, j);
    }
    assert Local(r);
  }

  lemma FinishedKeeps(st: State, i: InstId)
    requires Structure(st, {i}) && Suspended(st.insts, i)
    ensures Sound(Release(Finish(st, i), i))
    ensures Sound(Destroy(Inactive(Finish(st, i), st.insts[i].stage), i))
    ensures Sound(DestroyUnknown(Finish(st, i), i))
  {
    FinishKeeps(st, {i}, i);
    var done := Finish(st, i);
    assert {i} - {i} == {};
    ReleaseKeeps(done, {i}, i);
    DestroyKeeps(done, {i}, i);
    UnknownKeeps(done, {i}, i);
  }

  lemma SuspendedKeeps(st: State, w: nat, i: InstId, depth: nat, o: Outcome)
    requires Structure(st, {i}) && Suspended(st.insts, i) && w < |st.workers| && !st.workers[w].Running?
    ensures Sound(Enqueue(st, i, Resume))
    ensures o.Cohort? && o.dst < |st.stages| && CanAcquire(st, o.dst) ==>
              Sound(HandOver(st, w, i, depth, o.dst, o.event))
  {
    assert {i} - {i} == {};
    EnqueueKeeps(st, {i}, i, Resume);
    if o.Cohort? && o.dst < |st.stages| && CanAcquire(st, o.dst) {
      LendKeeps(st, i, o.dst, o.event);
      TakeOverKeeps(Lend(st, i, o.dst, o.event), w, Acquired(st, o.dst), depth + 1, o.event);
    }
  }

  lemma ReturnKeeps(st: State, w: nat, o: Outcome)
    requires Sound(st) && Enabled(st, Return(w, o))
    ensures Sound(ReturnStep(st, w, o))
  {
    var i := st.workers[w].inst;
    var off := Hold(st, w, Parked);
    TakeOffKeeps(st, {}, w);
    assert {} + {i} == {i};
    if o.Ended? || o.PcallError? || o.DestroySelf? || o.Unknown? {
      FinishedKeeps(off, i);
    } else if o.Await? && o.valid {
      AwaitKeeps(off, i);
    } else {
      SuspendedKeeps(off, w, i, st.workers[w].depth, o);
    }
  }

  lemma IoKeeps(st: State, i: InstId)
    requires Sound(st) && i in st.waiting
    ensures Sound(IoStep(st, i))
  {
    var off := st.(waiting := st.waiting - {i});
    forall j ensures PlacedAt(off, {i}, j) {
      assert PlacedAt(st, {}, j);
    }
    assert Local(off);
    EnqueueKeeps(off, {i}, i, Resume);
    assert {i} - {i} == {};
  }

  lemma LimitsKeep(st: State, r: State)
    requires Sound(st)
    requires r == st.(stages := r.stages) && |r.stages| == |st.stages|
    requires forall s | 0 <= s < |st.stages| ::
               r.stages[s] == st.stages[s] ||
               (!st.stages[s].serial && r.stages[s] == WithLimit(st.stages[s], r.stages[s].limit))
    ensures Sound(r)
  {
    forall j ensures PlacedAt(r, {}, j) {
      assert PlacedAt(st, {}, j);
      IdleTallyCongruent(st.stages, r.stages, j);
    }
    forall t | 0 <= t < |st.stages| ensures StageOk(r.stages[t], r.past[t], r.insts, t) {
      assert StageOk(st.stages[t], st.past[t], st.insts, t);
    }
  }

  lemma NewWorkerKeeps(st: State)
    requires Sound(st)
    ensures Sound(Apply(st, NewWorker))
  {
    var r := Apply(st, NewWorker);
    assert r.workers[..|st.workers|] == st.workers;
    forall j ensures PlacedAt(r, {}, j) {
      assert PlacedAt(st, {}, j);
    }
    assert Local(r);
  }

  lemma KillWorkerKeeps(st: State)
    requires Sound(st)
    ensures Sound(Apply(st, KillWorker))
  {
    hide StageOk;
    var r := Apply(st, KillWorker);
    forall j ensures PlacedAt(r, {}, j) {
      assert PlacedAt(st, {}, j);
      ReadyTallyAppend(st.ready, Kill, j);
    }
    assert Local(r);
  }

  /** Every step keeps the structural invariant. */
  lemma StepKeeps(st: State, t: Step)
    requires Sound(st) && Enabled(st, t)
    ensures Sound(Apply(st, t))
  {
    hide EmitStep, PopStep, ReturnStep, IoStep, Sound, Wf;
    assert Wf(st) && Structure(st, {}) by { SoundMeans(st); }
    hide Structure;
    match t
    case Emit(s, e) => EmitKeeps(st, s, e);
    case Pop(w) => PopKeeps(st, w);
    case Return(w, o) => ReturnKeeps(st, w, o);
    case IoReady(i) => IoKeeps(st, i);
    case SetMaxpar(cap) => LimitsKeep(st, Apply(st, t));
    case SetMaxparOf(target, cap) => LimitsKeep(st, Apply(st, t));
    case SetPendingCapacity(s, cap) =>
      PendingKeeps(st, {}, s, st.stages[s].pending, cap);
      SoundFrom(Apply(st, t));
    case NewWorker => NewWorkerKeeps(st);
    case KillWorker => KillWorkerKeeps(st);
  }

  lemma SoundMeans(st: State)
    requires Sound(st)
    ensures Wf(st) && Structure(st, {})
  {
  }

  lemma SoundFrom(st: State)
    requires Structure(st, {})
    ensures Sound(st)
  {
  }

  lemma InitialIsSound(serial: seq<bool>, recycleLimit: int, pendingLimit: int)
    ensures Sound(Initial(serial, recycleLimit, pendingLimit))
  {
    var st := Initial(serial, recycleLimit, pendingLimit);
    forall j ensures PlacedAt(st, {}, j) {
      NoneIdle(st.stages, j);
    }
    forall t | 0 <= t < |st.stages| ensures StageOk(st.stages[t], st.past[t], st.insts, t) {
      assert LiveOf(st.insts, t) == {} && JobsOf(st.insts, t) == {};
    }
  }

  lemma {:induction false} NoneIdle(stages: seq<Stage>, i: InstId)
    requires forall s | 0 <= s < |stages| :: stages[s].idle == []
    ensures IdleTally(stages, i) == 0
  {
    if stages != [] {
      NoneIdle(stages[..|stages| - 1], i);
    }
  }
}
