/**
 A sending process and the schedulers of the processes it sends to, as one machine: a frame that has been read is
 passed to emmit_packed_event, whose verdict is that of the receiver's own queues.
 */
module Worlds {
  import opened Bytes
  import S = Scheduler
  import opened Invariants
  import opened Mailbox
  import C = Connection
  import R = Remote

  /** `nodes[d]` is the scheduler of destination `d`.  `origin` and `unused` are history only: every event gets a
      label of its own, and `origin` tells under which label the frame at a place of a connection was accepted. */
  datatype World = World(net: R.System, nodes: seq<S.State>, origin: map<(nat, nat), S.Event>, unused: S.Event)

  datatype Action =
    | Net(move: R.Move)                     // the sender, the network, or a reader that does not deliver
    | Arrive(conn: nat, answered: bool)     // a reader passes a frame on
    | Local(node: nat, step: S.Step)        // anything a receiver's scheduler does by itself

  /** The label of the event a step offers to a stage. */
  function Offered(t: S.Step): S.Option<S.Event> {
    match t
    case Emit(_, e) => S.Some(e)
    case Return(_, Cohort(_, e)) => S.Some(e)
    case _ => S.None
  }

  predicate Delivers(m: R.Move) {
    m.Advance? && m.step.Deliver?
  }

  /** The frame that the reader of a connection has complete, and the destination it belongs to. */
  predicate HasFrame(w: World, c: nat) {
    && c < |w.net.conns| && c < |w.net.target| && w.net.target[c] < |w.nodes| && w.net.target[c] < |w.net.pools|
    && w.net.conns[c].reader.InPayload? && |w.net.conns[c].reader.buf| == w.net.conns[c].reader.len
    && w.net.conns[c].reader.stage < |w.nodes[w.net.target[c]].stages|
  }

  ghost predicate CanAct(w: World, a: Action) {
    match a
    case Net(m) => R.CanMove(w.net, m) && !Delivers(m)
    case Arrive(c, _) => HasFrame(w, c) && S.Wf(w.nodes[w.net.target[c]])
    case Local(n, t) =>
      && n < |w.nodes| && S.Wf(w.nodes[n]) && S.Enabled(w.nodes[n], t)
      && (Offered(t).Some? ==> Offered(t).value == w.unused)
  }

  function Act(w: World, a: Action): World
    requires CanAct(w, a)
  {
    match a
    case Net(m) => w.(net := R.Moved(w.net, m))
    case Arrive(c, answered) =>
      var n, s := w.net.target[c], w.net.conns[c].reader.stage;
      var ok := S.EmitAccepts(w.nodes[n], s);
      var k := |w.net.conns[c].handled|;
      World(R.Moved(w.net, R.Advance(c, C.Deliver(ok, answered))),
            w.nodes[n := S.EmitStep(w.nodes[n], s, w.unused)],
            if ok then w.origin[(c, k) := w.unused] else w.origin,
            w.unused + 1)
    case Local(n, t) => w.(nodes := w.nodes[n := S.Apply(w.nodes[n], t)], unused := w.unused + 1)
  }

  // ----- the receivers -----

  /** Every event of a stage was accepted once, under a label below `unused`, and is in one place. */
  ghost predicate StageFine(st: S.State, s: nat, unused: nat)
    requires s < |st.stages| == |st.past|
  {
    && Conserved(FlowOf(st, s))
    && forall e | e in st.past[s].accepted :: e < unused && multiset(st.past[s].accepted)[e] == 1
  }

  ghost predicate NodeFine(st: S.State, unused: nat) {
    && Sound(st) && |st.past| == |st.stages|
    && forall s | 0 <= s < |st.stages| :: StageFine(st, s, unused)
  }

  lemma InitialIsFine(serial: seq<bool>, recycleLimit: int, pendingLimit: int)
    ensures NodeFine(S.Initial(serial, recycleLimit, pendingLimit), 0)
  {
    InitialIsSound(serial, recycleLimit, pendingLimit);
  }

  lemma FineLater(st: S.State, unused: nat)
    requires NodeFine(st, unused)
    ensures NodeFine(st, unused + 1)
  {
    hide Sound, Conserved;
    var more := unused + 1;
    forall s | 0 <= s < |st.stages| ensures StageFine(st, s, more) {
      assert StageFine(st, s, unused);
    }
  }

  predicate Takes(m: Move) {
    m.ToReady? || m.ToPending? || m.Direct?
  }

  /** A stage accepts what a step offers it, or nothing. */
  lemma AcceptedAfter(st: S.State, t: S.Step, s: nat)
    requires Sound(st) && S.Enabled(st, t) && s < |st.stages|
    ensures S.Wf(st) && |S.Apply(st, t).stages| == |st.stages| == |S.Apply(st, t).past| == |st.past|
    ensures var took := Takes(MoveOf(st, t, s));
            && (took ==> Offered(t).Some?)
            && S.Apply(st, t).past[s].accepted == st.past[s].accepted + if took then [Offered(t).value] else []
  {
    hide S.Apply, Begun, ReadyOf;
    StepRefines(st, t, s);
    assert FlowOf(S.Apply(st, t), s).accepted == S.Apply(st, t).past[s].accepted;
  }

  lemma StageStepFine(st: S.State, t: S.Step, s: nat, unused: nat)
    requires Sound(st) && S.Enabled(st, t) && s < |st.stages| == |st.past| && StageFine(st, s, unused)
    requires Offered(t).Some? ==> Offered(t).value == unused
    ensures S.Wf(st) && |S.Apply(st, t).stages| == |st.stages| == |S.Apply(st, t).past|
    ensures StageFine(S.Apply(st, t), s, unused + 1)
    ensures forall e | e in st.past[s].accepted :: e in S.Apply(st, t).past[s].accepted
  {
    hide S.Apply, FlowOf, Sound, Conserved;
    AcceptedAfter(st, t, s);
    StepRefines(st, t, s);
    MoveConserves(FlowOf(st, s), MoveOf(st, t, s));
    var before, after := st.past[s].accepted, S.Apply(st, t).past[s].accepted;
    if after != before {
      assert after == before + [unused];
      assert unused !in before;
      assert multiset(after) == multiset(before) + multiset{unused};
    }
  }

  lemma NodeStepFine(st: S.State, t: S.Step, unused: nat)
    requires NodeFine(st, unused) && S.Enabled(st, t) && (Offered(t).Some? ==> Offered(t).value == unused)
    ensures S.Wf(st) && NodeFine(S.Apply(st, t), unused + 1) && |S.Apply(st, t).stages| == |st.stages|
    ensures forall s, e | 0 <= s < |st.stages| && e in st.past[s].accepted :: e in S.Apply(st, t).past[s].accepted
  {
    hide S.Apply, Sound, StageFine;
    SoundShape(st);
    Shape(st, t);
    StepKeeps(st, t);
    var r, more := S.Apply(st, t), unused + 1;
    forall s | 0 <= s < |st.stages|
      ensures StageFine(r, s, more)
      ensures forall e | e in st.past[s].accepted :: e in S.Apply(st, t).past[s].accepted
    {
      StageStepFine(st, t, s, unused);
    }
  }

  /** An accepted event is among the accepted ones afterwards. */
  lemma AcceptedIsThere(st: S.State, s: nat, e: S.Event)
    requires Sound(st) && s < |st.stages| && S.Wf(st) && S.EmitAccepts(st, s)
    ensures s < |S.EmitStep(st, s, e).past| && e in S.EmitStep(st, s, e).past[s].accepted
  {
    AcceptedAfter(st, S.Emit(s, e), s);
  }

  // ----- the network -----

  /** Nothing that does not deliver changes what was handled. */
  lemma HandledStays(s: R.System, m: R.Move)
    requires R.CanMove(s, m) && !Delivers(m) && |s.target| == |s.conns|
    ensures var t := R.Moved(s, m);
            && |t.conns| >= |s.conns| && |t.target| == |t.conns| && |t.pools| == |s.pools|
            && (forall c | 0 <= c < |s.conns| :: t.conns[c].handled == s.conns[c].handled && t.target[c] == s.target[c])
            && (forall c | |s.conns| <= c < |t.conns| :: t.conns[c].handled == [])
  {
    hide C.Wire;
  }

  // ----- both together -----

  /** Each acceptance has its event in the right stage of the right receiver, and different ones have different
      events. */
  ghost predicate Traced(w: World, c: nat, k: nat) {
    && c < |w.net.conns| == |w.net.target| && k < |w.net.conns[c].handled| && w.net.conns[c].handled[k].accepted
    && w.net.target[c] < |w.nodes|
    && var st, s := w.nodes[w.net.target[c]], w.net.conns[c].handled[k].frame.stage;
       s < |st.stages| == |st.past| && (c, k) in w.origin && w.origin[(c, k)] in st.past[s].accepted
  }

  ghost predicate OriginOk(w: World) {
    && (forall c, k | 0 <= c < |w.net.conns| && 0 <= k < |w.net.conns[c].handled|
                      && w.net.conns[c].handled[k].accepted ::
          Traced(w, c, k))
    && (forall p | p in w.origin :: Traced(w, p.0, p.1) && w.origin[p] < w.unused)
    && (forall p, q | p in w.origin && q in w.origin && p != q :: w.origin[p] != w.origin[q])
  }

  ghost predicate WorldOk(w: World) {
    && R.SystemOk(w.net) && |w.net.target| == |w.net.conns| && |w.net.pools| == |w.nodes|
    && (forall n | 0 <= n < |w.nodes| :: NodeFine(w.nodes[n], w.unused))
    && OriginOk(w)
  }

  /** The receivers only grow. */
  ghost predicate Later(a: seq<S.State>, b: seq<S.State>) {
    && |a| == |b|
    && forall n | 0 <= n < |a| ::
         && |a[n].stages| == |b[n].stages| && |b[n].past| == |a[n].past|
         && forall s | 0 <= s < |a[n].past| :: forall e | e in a[n].past[s].accepted :: e in b[n].past[s].accepted
  }

  /** Connections keep their destination and what they have handled. */
  ghost predicate Extends(a: R.System, b: R.System) {
    && |a.target| == |a.conns| <= |b.conns| == |b.target|
    && forall c | 0 <= c < |a.conns| :: a.conns[c].handled <= b.conns[c].handled && b.target[c] == a.target[c]
  }

  /** What was traced stays traced. */
  lemma TracesStay(w: World, v: World)
    requires OriginOk(w) && Later(w.nodes, v.nodes) && Extends(w.net, v.net)
    requires forall p | p in w.origin :: p in v.origin && v.origin[p] == w.origin[p]
    ensures forall p | p in w.origin :: Traced(v, p.0, p.1)
    ensures forall c, k | 0 <= c < |w.net.conns| && 0 <= k < |w.net.conns[c].handled|
                          && w.net.conns[c].handled[k].accepted ::
              Traced(v, c, k)
  {
    forall c: nat, k: nat | Traced(w, c, k) ensures Traced(v, c, k) {
      assert (c, k) in w.origin;
    }
  }

  lemma NetKeeps(w: World, m: R.Move)
    requires WorldOk(w) && CanAct(w, Net(m))
    ensures WorldOk(Act(w, Net(m)))
  {
    hide R.SystemOk, R.CanMove, R.Moved, NodeFine;
    if m.Send? {
      R.SendKeeps(w.net, m);
    } else {
      R.AdvanceKeeps(w.net, m);
    }
    HandledStays(w.net, m);
    var v := Act(w, Net(m));
    TracesStay(w, v);
  }

  lemma LocalKeeps(w: World, n: nat, t: S.Step)
    requires WorldOk(w) && CanAct(w, Local(n, t))
    ensures WorldOk(Act(w, Local(n, t)))
  {
    hide R.SystemOk, S.Apply, S.Enabled, S.Wf, NodeFine, StageFine;
    var v := Act(w, Local(n, t));
    NodesStep(w.nodes, n, t, w.unused);
    TracesStay(w, v);
  }

  lemma NodesStep(nodes: seq<S.State>, n: nat, t: S.Step, unused: nat)
    requires n < |nodes| && S.Wf(nodes[n]) && S.Enabled(nodes[n], t)
    requires (Offered(t).Some? ==> Offered(t).value == unused)
    requires forall m | 0 <= m < |nodes| :: NodeFine(nodes[m], unused)
    ensures var after := nodes[n := S.Apply(nodes[n], t)];
            Later(nodes, after) && forall m | 0 <= m < |nodes| :: NodeFine(after[m], unused + 1)
  {
    hide S.Apply, S.Enabled, S.Wf, Sound, StageFine;
    NodeStepFine(nodes[n], t, unused);
    forall m | 0 <= m < |nodes| ensures NodeFine(nodes[m], unused + 1) {
      FineLater(nodes[m], unused);
    }
  }

  /** What a delivery does to the connections. */
  lemma DeliveredAt(s: R.System, c: nat, ok: bool, answered: bool)
    requires R.CanMove(s, R.Advance(c, C.Deliver(ok, answered))) && |s.target| == |s.conns|
    ensures var t := R.Moved(s, R.Advance(c, C.Deliver(ok, answered)));
            var r := s.conns[c].reader;
            && |t.conns| == |s.conns| && t.target == s.target && |t.pools| == |s.pools|
            && t.conns[c].handled == s.conns[c].handled + [C.Handled(C.Frame(r.stage, r.buf), ok)]
            && (forall x | 0 <= x < |s.conns| && x != c :: t.conns[x] == s.conns[x])
  {
  }

  lemma ArriveKeeps(w: World, c: nat, answered: bool)
    requires WorldOk(w) && CanAct(w, Arrive(c, answered))
    ensures WorldOk(Act(w, Arrive(c, answered)))
  {
    hide R.SystemOk, R.Moved, S.EmitStep, S.Wf, NodeFine, S.EmitAccepts;
    var n, s := w.net.target[c], w.net.conns[c].reader.stage;
    var ok := S.EmitAccepts(w.nodes[n], s);
    var m := R.Advance(c, C.Deliver(ok, answered));
    R.AdvanceKeeps(w.net, m);
    DeliveredAt(w.net, c, ok, answered);
    NodesStep(w.nodes, n, S.Emit(s, w.unused), w.unused);
    ArriveTraces(w, c, answered);
  }

  lemma FineIsSound(st: S.State, unused: nat)
    requires NodeFine(st, unused)
    ensures Sound(st) && |st.past| == |st.stages|
  {
  }

  /** The place a delivery fills had no label before, and has one afterwards exactly if the event was accepted. */
  lemma ArriveTracesNew(w: World, c: nat, answered: bool)
    requires WorldOk(w) && CanAct(w, Arrive(c, answered))
    ensures var k := |w.net.conns[c].handled|;
            var v := Act(w, Arrive(c, answered));
            && (c, k) !in w.origin
            && ((c, k) in v.origin ==> Traced(v, c, k))
            && |v.net.conns[c].handled| == k + 1 && (v.net.conns[c].handled[k].accepted <==> (c, k) in v.origin)
  {
    hide R.SystemOk, R.Moved, S.EmitStep, S.Wf, NodeFine, S.EmitAccepts;
    var n, s := w.net.target[c], w.net.conns[c].reader.stage;
    var ok := S.EmitAccepts(w.nodes[n], s);
    var k := |w.net.conns[c].handled|;
    DeliveredAt(w.net, c, ok, answered);
    FineIsSound(w.nodes[n], w.unused);
    NodesStep(w.nodes, n, S.Emit(s, w.unused), w.unused);
    assert (c, k) in w.origin ==> Traced(w, (c, k).0, (c, k).1);
    if ok {
      AcceptedIsThere(w.nodes[n], s, w.unused);
      assert Traced(Act(w, Arrive(c, answered)), c, k);
    }
  }

  lemma ArriveTraces(w: World, c: nat, answered: bool)
    requires WorldOk(w) && CanAct(w, Arrive(c, answered))
    requires Later(w.nodes, Act(w, Arrive(c, answered)).nodes)
    ensures OriginOk(Act(w, Arrive(c, answered)))
  {
    hide R.SystemOk, R.Moved, S.EmitStep, S.Wf, NodeFine, S.EmitAccepts, Later, Traced;
    var v := Act(w, Arrive(c, answered));
    var ok := S.EmitAccepts(w.nodes[w.net.target[c]], w.net.conns[c].reader.stage);
    DeliveredAt(w.net, c, ok, answered);
    ArriveTracesNew(w, c, answered);
    TracesStay(w, v);
  }

  // ----- runs -----

  ghost predicate Run(w: World, actions: seq<Action>, v: World)
    decreases |actions|
  {
    if actions == [] then w == v
    else CanAct(w, actions[0]) && Run(Act(w, actions[0]), actions[1..], v)
  }

  lemma {:induction false} RunKeeps(w: World, actions: seq<Action>, v: World)
    requires WorldOk(w) && Run(w, actions, v)
    ensures WorldOk(v)
    decreases |actions|
  {
    hide WorldOk, CanAct, Act;
    if actions != [] {
      match actions[0] {
        case Net(m) => NetKeeps(w, m);
        case Arrive(c, answered) => ArriveKeeps(w, c, answered);
        case Local(n, t) => LocalKeeps(w, n, t);
      }
      RunKeeps(Act(w, actions[0]), actions[1..], v);
    }
  }

  /** A sender without connections, and receivers whose tables have just been made. */
  ghost predicate Start(w: World) {
    && w.net == R.Empty(|w.nodes|) && w.origin == map[] && w.unused == 0
    && forall n | 0 <= n < |w.nodes| ::
         exists serial, limit, pending :: w.nodes[n] == S.Initial(serial, limit, pending)
  }

  lemma StartIsOk(w: World)
    requires Start(w)
    ensures WorldOk(w)
  {
    hide NodeFine;
    R.EmptyIsOk(|w.nodes|);
    forall n | 0 <= n < |w.nodes| ensures NodeFine(w.nodes[n], w.unused) {
      var serial, limit, pending :| w.nodes[n] == S.Initial(serial, limit, pending);
      InitialIsFine(serial, limit, pending);
    }
  }

  /** The event `e` was accepted by stage `s` once and is, once, pending, loaded on a ready instance, or started. */
  ghost predicate HeldOnce(st: S.State, s: nat, e: S.Event) {
    && s < |st.stages| == |st.past|
    && multiset(st.past[s].accepted)[e] == 1
    && multiset(Begun(st.past[s].log))[e] + multiset(ReadyOf(st.ready, st.insts, s))[e]
       + multiset(st.stages[s].pending)[e] == 1
  }

  lemma FineIsHeld(st: S.State, s: nat, e: S.Event, unused: nat)
    requires NodeFine(st, unused) && s < |st.stages| && e in st.past[s].accepted
    ensures HeldOnce(st, s, e)
  {
    hide Sound, Begun, ReadyOf;
    assert StageFine(st, s, unused);
    var f := FlowOf(st, s);
    assert multiset(f.accepted)[e] == (multiset(f.begun) + multiset(f.ready) + multiset(f.pending))[e];
  }

  // ----- what the handlers asked for -----

  function Sends(actions: seq<Action>): seq<(nat, C.Frame)> {
    if actions == [] then []
    else
      (match actions[0]
       case Net(Send(dst, frame, _)) => [(dst, frame)]
       case _ => []) + Sends(actions[1..])
  }

  lemma ActTickets(w: World, a: Action)
    requires R.SystemOk(w.net) && R.TicketsOk(w.net) && CanAct(w, a)
    ensures R.TicketsOk(Act(w, a).net)
    ensures R.Requests(Act(w, a).net.sends) == R.Requests(w.net.sends) + Sends([a])
  {
    hide R.SystemOk, R.TicketsOk, R.Moved, R.Requests, S.EmitStep, S.Apply, S.EmitAccepts, S.Wf, S.Enabled;
    assert [a][1..] == [];
    match a
    case Net(m) =>
      assert [m][1..] == [];
      R.MovedRequests(w.net, m);
      if m.Send? {
        R.TicketsSend(w.net, m);
      } else {
        R.TicketsAdvance(w.net, m);
      }
    case Arrive(c, answered) =>
      var ok := S.EmitAccepts(w.nodes[w.net.target[c]], w.net.conns[c].reader.stage);
      var m := R.Advance(c, C.Deliver(ok, answered));
      assert [m][1..] == [];
      R.MovedRequests(w.net, m);
      R.TicketsAdvance(w.net, m);
    case Local(_, _) =>
  }

  lemma OkNet(w: World)
    requires WorldOk(w)
    ensures R.SystemOk(w.net) && |w.net.pools| == |w.nodes|
  {
  }

  lemma {:induction false} RunTickets(w: World, actions: seq<Action>, v: World)
    requires WorldOk(w) && R.TicketsOk(w.net) && Run(w, actions, v)
    ensures R.TicketsOk(v.net) && R.Requests(v.net.sends) == R.Requests(w.net.sends) + Sends(actions)
    decreases |actions|
  {
    hide WorldOk, CanAct, Act, R.TicketsOk, R.Requests, R.SystemOk;
    if actions != [] {
      var a, next := actions[0], Act(w, actions[0]);
      assert Run(next, actions[1..], v);
      assert Run(w, [a], next) by { assert [a][1..] == []; }
      OkNet(w);
      ActTickets(w, a);
      RunKeeps(w, [a], next);
      RunTickets(next, actions[1..], v);
      assert Sends(actions) == Sends([a]) + Sends(actions[1..]) by { assert [a][1..] == []; }
    }
  }

  /** What is true of a place of a connection at the end of a run. */
  lemma PlaceIsHeld(w: World, actions: seq<Action>, v: World, c: nat, k: nat)
    requires Start(w) && Run(w, actions, v) && c < |v.net.conns| && k < |v.net.conns[c].frames|
    ensures var conn := v.net.conns[c];
            && |conn.verdicts| == |conn.frames| && c < |v.net.target| && v.net.target[c] < |v.nodes|
            && (conn.verdicts[k] == C.Success ==>
                  && k < |conn.handled| && conn.handled[k] == C.Handled(conn.frames[k], true)
                  && (c, k) in v.origin
                  && HeldOnce(v.nodes[v.net.target[c]], conn.frames[k].stage, v.origin[(c, k)]))
            && (conn.verdicts[k] == C.Failure && (c, k) in v.origin ==> k == |conn.frames| - 1 && R.InDoubt(conn))
            && (conn.verdicts[k] == C.Unreported ==> (c, k) !in v.origin)
    ensures forall p, q | p in v.origin && q in v.origin && p != q :: v.origin[p] != v.origin[q]
  {
    hide R.InDoubt, NodeFine, Run, C.ConnOk, C.Stream;
    StartIsOk(w);
    RunKeeps(w, actions, v);
    var conn := v.net.conns[c];
    assert C.ConnOk(conn);
    R.TruthfulAt(conn, k);
    if conn.verdicts[k] == C.Success {
      assert Traced(v, c, k);
      FineIsHeld(v.nodes[v.net.target[c]], conn.frames[k].stage, v.origin[(c, k)], v.unused);
    }
    if conn.verdicts[k] == C.Failure && (c, k) in v.origin {
      assert Traced(v, c, k);
      R.OnlyLastFails(conn, k);
      R.FailureIsCertain(conn);
    }
    if conn.verdicts[k] == C.Unreported {
      R.UnreportedIsCertain(conn, k);
      assert (c, k) in v.origin ==> Traced(v, (c, k).0, (c, k).1);
    }
  }

  /** What the handler was told of a send. */
  function Told(net: R.System, x: R.Ticket): C.Verdict
    requires x.place.At? ==> x.place.conn < |net.conns| && x.place.index < |net.conns[x.place.conn].verdicts|
  {
    if x.place.At? then net.conns[x.place.conn].verdicts[x.place.index] else C.Failure
  }

  /** The label under which a send was accepted. */
  function LabelOf(v: World, x: R.Ticket): S.Option<S.Event> {
    if x.place.At? && (x.place.conn, x.place.index) in v.origin
    then S.Some(v.origin[(x.place.conn, x.place.index)])
    else S.None
  }

  /** Over every run of sender, network and receivers, whatever the handlers do: a send reported as a success has put
      one event of its own into its stage at the destination it was meant for, and that event is pending, loaded or
      started there, exactly once.  A send reported as a failure has put none there, unless its whole frame was written
      and no answer was read; a send that ended in a write error has put none there. */
  lemma SuccessIsHeld(w: World, actions: seq<Action>, v: World, j: nat)
    requires Start(w) && Run(w, actions, v) && j < |Sends(actions)|
    ensures |v.net.sends| == |Sends(actions)| && |v.net.target| == |v.net.conns|
    ensures var x, (dst, frame) := v.net.sends[j], Sends(actions)[j];
            && x.dst == dst < |v.nodes| && x.frame == frame && R.TicketOk(v.net, x)
            && (x.place.At? ==> x.place.index < |v.net.conns[x.place.conn].verdicts|)
            && (Told(v.net, x) == C.Success ==>
                  && x.place.At? && x.place.index < |v.net.conns[x.place.conn].handled|
                  && v.net.conns[x.place.conn].handled[x.place.index] == C.Handled(frame, true)
                  && LabelOf(v, x).Some? && HeldOnce(v.nodes[dst], frame.stage, LabelOf(v, x).value))
            && (Told(v.net, x) == C.Failure && LabelOf(v, x).Some? ==>
                  x.place.index == |v.net.conns[x.place.conn].frames| - 1 && R.InDoubt(v.net.conns[x.place.conn]))
            && (Told(v.net, x) == C.Unreported ==> LabelOf(v, x).None?)
    ensures forall i | 0 <= i < |v.net.sends| && i != j && LabelOf(v, v.net.sends[j]).Some? ::
              LabelOf(v, v.net.sends[i]) != LabelOf(v, v.net.sends[j])
  {
    hide R.InDoubt, HeldOnce, Run, R.SystemOk, WorldOk;
    StartIsOk(w);
    RunTickets(w, actions, v);
    RunKeeps(w, actions, v);
    OkNet(v);
    assert R.Requests(w.net.sends) == [];
    assert R.Requests(v.net.sends)[j] == Sends(actions)[j];
    var x := v.net.sends[j];
    assert R.TicketOk(v.net, x);
    if x.place.At? {
      PlaceIsHeld(w, actions, v, x.place.conn, x.place.index);
    }
  }
}
