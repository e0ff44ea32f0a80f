/** A remote send can succeed, so that what is said of successful sends is not said of nothing. */
module Possible {
  import opened Bytes
  import opened Connection
  import opened ConnectionProof
  import R = Remote
  import S = Scheduler
  import opened Invariants
  import M = Mailbox
  import W = Worlds

  /** A connection on its way from a new one to the answer to its first frame. */
  function Stage(f: Frame, k: nat): Conn
    requires k <= 5
  {
    var n := |f.payload|;
    match k
    case 0 => Conn([f], [Underway], Writing(0), [], AtHeader, 0, [], [], 0)
    case 1 => Conn([f], [Underway], Waiting, Wire(f), AtHeader, 0, [], [], 0)
    case 2 => Conn([f], [Underway], Waiting, Wire(f), InPayload(f.stage, n, []), HEADER, [], [], 0)
    case 3 => Conn([f], [Underway], Waiting, Wire(f), InPayload(f.stage, n, f.payload), HEADER + n, [], [], 0)
    case 4 => Conn([f], [Underway], Waiting, Wire(f), AtHeader, HEADER + n, [Handled(f, true)], [ACCEPTED], 0)
    case 5 => Conn([f], [Success], Free, Wire(f), AtHeader, HEADER + n, [Handled(f, true)], [ACCEPTED], 1)
  }

  function StepAt(f: Frame, k: nat): Step
    requires k < 5
  {
    match k
    case 0 => Write(|Wire(f)|)
    case 1 => ReadHeader(true)
    case 2 => ReadPayload(|f.payload|)
    case 3 => Deliver(true, true)
    case 4 => ReadAnswer(true)
  }

  /** What is on the wire after the frame. */
  lemma WireOf(f: Frame)
    requires FrameOk(f)
    ensures var w := Wire(f);
            && |w| == HEADER + |f.payload| && w[0] == EVENT_TYPE && w[HEADER..HEADER + |f.payload|] == f.payload
            && ReadU32(w, 1) == f.stage && ReadU32(w, 5) == |f.payload| && ReadU32(w, 9) == 0
  {
    hide U32, ReadU32;
    var w := Wire(f);
    assert w[0..HEADER] == w[..HEADER];
    HeaderFields(f, w, 0);
  }

  lemma OneSend(f: Frame, k: nat)
    requires FrameOk(f) && Takeable(f) && k < 5
    ensures Apply(Fresh, Start(f)) == Stage(f, 0)
    ensures Enabled(Stage(f, k), StepAt(f, k)) && Apply(Stage(f, k), StepAt(f, k)) == Stage(f, k + 1)
  {
    hide ReadU32, Wire;
    WireOf(f);
    var w, none := Wire(f), [];
    assert none + w[0..|w|] == w && none + f.payload == f.payload;
  }

  // ----- the run of the whole -----

  lemma {:induction false} RunAndAct(w: W.World, actions: seq<W.Action>, v: W.World, a: W.Action)
    requires W.Run(w, actions, v) && W.CanAct(v, a)
    ensures W.Run(w, actions + [a], W.Act(v, a)) && W.Sends(actions + [a]) == W.Sends(actions) + W.Sends([a])
    decreases |actions|
  {
    hide W.CanAct, W.Act;
    assert [a][1..] == [];
    if actions == [] {
      assert actions + [a] == [a];
    } else {
      RunAndAct(W.Act(w, actions[0]), actions[1..], v, a);
      assert (actions + [a])[1..] == actions[1..] + [a];
    }
  }

  /** The action that takes the one connection to its next stage. */
  function ActionAt(f: Frame, k: nat): W.Action
    requires k < 5
  {
    if k == 3 then W.Arrive(0, true) else W.Net(R.Advance(0, StepAt(f, k)))
  }

  /** The world has one connection, to `dst`, at stage `k`. */
  ghost predicate AtStage(v: W.World, dst: nat, f: Frame, k: nat)
    requires k <= 5
  {
    && v.net.conns == [Stage(f, k)] && v.net.target == [dst] && dst < |v.nodes| == |v.net.pools|
    && v.net.sends == [R.Ticket(dst, f, R.At(0, 0))]
    && Sound(v.nodes[dst]) && f.stage < |v.nodes[dst].stages|
    && (k <= 3 ==> S.EmitAccepts(v.nodes[dst], f.stage))
  }

  lemma NextStage(v: W.World, dst: nat, f: Frame, k: nat)
    requires FrameOk(f) && Takeable(f) && k < 5 && AtStage(v, dst, f, k)
    ensures W.CanAct(v, ActionAt(f, k)) && AtStage(W.Act(v, ActionAt(f, k)), dst, f, k + 1)
  {
    hide Enabled, Apply, S.EmitStep, S.EmitAccepts, Wire, Sound, S.Wf;
    OneSend(f, k);
    assert S.Wf(v.nodes[dst]) by { SoundMeans(v.nodes[dst]); }
    EmitKeeps(v.nodes[dst], f.stage, v.unused);
    M.Shape(v.nodes[dst], S.Emit(f.stage, v.unused));
  }

  lemma FirstStage(w: W.World, dst: nat, f: Frame)
    requires W.Start(w) && dst < |w.nodes| && f.stage < |w.nodes[dst].stages| && FrameOk(f) && Takeable(f)
    requires S.EmitAccepts(w.nodes[dst], f.stage)
    ensures var a := W.Net(R.Send(dst, f, true));
            W.CanAct(w, a) && AtStage(W.Act(w, a), dst, f, 0) && W.Sends([a]) == [(dst, f)]
  {
    hide S.EmitAccepts, Wire, Sound;
    var a := W.Net(R.Send(dst, f, true));
    assert [a][1..] == [];
    var serial, limit, pending :| w.nodes[dst] == S.Initial(serial, limit, pending);
    InitialIsSound(serial, limit, pending);
    OneSend(f, 0);
  }

  lemma NoActions(w: W.World)
    ensures W.Run(w, [], w) && W.Sends([]) == []
  {
  }

  lemma NotSent(f: Frame, k: nat)
    requires k < 5
    ensures W.Sends([ActionAt(f, k)]) == []
  {
    assert [ActionAt(f, k)][1..] == [];
  }

  lemma Arrived(v: W.World, dst: nat, f: Frame)
    requires AtStage(v, dst, f, 5)
    ensures |v.net.sends| == |v.net.conns| == 1 && v.net.sends[0].place == R.At(0, 0)
    ensures v.net.conns[0].verdicts == [Success]
  {
  }

  /** Whatever the receivers are, as long as the stage exists and has room, a send of any event that the receiver takes
      can succeed. */
  lemma DeliveryIsPossible(w: W.World, dst: nat, f: Frame) returns (actions: seq<W.Action>, v: W.World)
    requires W.Start(w) && dst < |w.nodes| && f.stage < |w.nodes[dst].stages| && FrameOk(f) && Takeable(f)
    requires S.EmitAccepts(w.nodes[dst], f.stage)
    ensures W.Run(w, actions, v) && W.Sends(actions) == [(dst, f)]
    ensures |v.net.sends| == |v.net.conns| == 1 && v.net.sends[0].place == R.At(0, 0)
    ensures v.net.conns[0].verdicts == [Success]
  {
    hide Enabled, Apply, S.EmitStep, S.EmitAccepts, Wire, S.Wf, W.Run, W.Sends, W.Act, W.CanAct, AtStage;
    var a := W.Net(R.Send(dst, f, true));
    FirstStage(w, dst, f);
    NoActions(w);
    RunAndAct(w, [], w, a);
    actions, v := [a], W.Act(w, a);
    assert [] + [a] == [a];
    var k := 0;
    while k < 5
      invariant 0 <= k <= 5 && AtStage(v, dst, f, k)
      invariant W.Run(w, actions, v) && W.Sends(actions) == [(dst, f)]
    {
      NextStage(v, dst, f, k);
      RunAndAct(w, actions, v, ActionAt(f, k));
      actions, v := actions + [ActionAt(f, k)], W.Act(v, ActionAt(f, k));
      NotSent(f, k);
      k := k + 1;
    }
    Arrived(v, dst, f);
  }
}
