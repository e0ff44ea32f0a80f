/** The parts of the whole are runs of their own machines, so that what is proved of each of them holds inside it. */
module Projections {
  import S = Scheduler
  import Runs
  import C = Connection
  import P = ConnectionProof
  import R = Remote
  import D = Doubt
  import W = Worlds

  // ----- receivers -----

  /** What an action asks of the scheduler of receiver `n`. */
  ghost function StepsBy(w: W.World, a: W.Action, n: nat): seq<S.Step>
    requires W.CanAct(w, a)
  {
    match a
    case Local(m, t) => if m == n then [t] else []
    case Arrive(c, _) => if w.net.target[c] == n then [S.Emit(w.net.conns[c].reader.stage, w.unused)] else []
    case Net(_) => []
  }

  ghost function StepsAt(w: W.World, actions: seq<W.Action>, v: W.World, n: nat): seq<S.Step>
    requires W.Run(w, actions, v)
    decreases |actions|
  {
    if actions == [] then []
    else StepsBy(w, actions[0], n) + StepsAt(W.Act(w, actions[0]), actions[1..], v, n)
  }

  lemma NodeActs(w: W.World, a: W.Action, n: nat)
    requires W.CanAct(w, a) && n < |w.nodes|
    ensures |W.Act(w, a).nodes| == |w.nodes|
    ensures var steps := StepsBy(w, a, n);
            Runs.IsRun(w.nodes[n], steps) && Runs.Exec(w.nodes[n], steps) == W.Act(w, a).nodes[n]
  {
    hide S.EmitStep, R.Moved, S.EmitAccepts, S.Wf;
    assert forall steps: seq<S.Step> | |steps| == 1 :: steps[1..] == [];
  }

  /** Every receiver does exactly what its own steps and the frames that reach it make of it: its part of a run is a run
      of its scheduler. */
  lemma {:induction false} NodeRuns(w: W.World, actions: seq<W.Action>, v: W.World, n: nat)
    requires W.Run(w, actions, v) && n < |w.nodes|
    ensures |v.nodes| == |w.nodes|
    ensures var steps := StepsAt(w, actions, v, n);
            Runs.IsRun(w.nodes[n], steps) && Runs.Exec(w.nodes[n], steps) == v.nodes[n]
    decreases |actions|
  {
    hide W.CanAct, W.Act, Runs.IsRun, Runs.Exec, StepsBy;
    if actions == [] {
      NoSteps(w.nodes[n]);
    } else {
      var next := W.Act(w, actions[0]);
      NodeActs(w, actions[0], n);
      NodeRuns(next, actions[1..], v, n);
      Runs.JoinRuns(w.nodes[n], StepsBy(w, actions[0], n), StepsAt(next, actions[1..], v, n));
    }
  }

  lemma NoSteps(st: S.State)
    ensures Runs.IsRun(st, []) && Runs.Exec(st, []) == st
  {
  }

  // ----- the network -----

  /** The move of the network that an action makes; a delivery carries the verdict of the receiver's queues. */
  ghost function MovesBy(w: W.World, a: W.Action): seq<R.Move>
    requires W.CanAct(w, a)
  {
    match a
    case Net(m) => [m]
    case Arrive(c, answered) =>
      var ok := S.EmitAccepts(w.nodes[w.net.target[c]], w.net.conns[c].reader.stage);
      [R.Advance(c, C.Deliver(ok, answered))]
    case Local(_, _) => []
  }

  ghost function Moves(w: W.World, actions: seq<W.Action>, v: W.World): seq<R.Move>
    requires W.Run(w, actions, v)
    decreases |actions|
  {
    if actions == [] then [] else MovesBy(w, actions[0]) + Moves(W.Act(w, actions[0]), actions[1..], v)
  }

  /** The connections do exactly what the moves of a run make of them. */
  lemma {:induction false} NetRuns(w: W.World, actions: seq<W.Action>, v: W.World)
    requires W.Run(w, actions, v)
    ensures R.Run(w.net, Moves(w, actions, v), v.net)
    decreases |actions|
  {
    hide R.Moved, R.CanMove, S.EmitStep, S.Apply, S.EmitAccepts, S.Wf, S.Enabled;
    if actions != [] {
      var next := W.Act(w, actions[0]);
      NetRuns(next, actions[1..], v);
      var first, rest := MovesBy(w, actions[0]), Moves(next, actions[1..], v);
      if first == [] {
        assert first + rest == rest;
      } else {
        DeliverCanMove(w, actions[0]);
        assert (first + rest)[1..] == rest;
      }
    }
  }

  lemma DeliverCanMove(w: W.World, a: W.Action)
    requires W.CanAct(w, a) && MovesBy(w, a) != []
    ensures R.CanMove(w.net, MovesBy(w, a)[0])
  {
  }

  // ----- one connection -----

  /** What a move makes of connection `c`. */
  function ConnSteps(s: R.System, m: R.Move, c: nat): seq<C.Step>
    requires R.CanMove(s, m)
  {
    match m
    case Advance(d, step) => if d == c then [step] else []
    case Send(dst, frame, connects) =>
      var taken := if s.pools[dst] != [] then s.pools[dst][0] == c else connects && c == |s.conns|;
      if taken then [C.Start(frame)] else []
  }

  ghost function ConnRun(s: R.System, moves: seq<R.Move>, t: R.System, c: nat): seq<C.Step>
    requires R.Run(s, moves, t)
    decreases |moves|
  {
    if moves == [] then [] else ConnSteps(s, moves[0], c) + ConnRun(R.Moved(s, moves[0]), moves[1..], t, c)
  }

  /** A connection that does not exist yet is a fresh one. */
  function ConnAt(s: R.System, c: nat): C.Conn {
    if c < |s.conns| then s.conns[c] else C.Fresh
  }

  lemma ConnMoves(s: R.System, m: R.Move, c: nat)
    requires R.CanMove(s, m)
    ensures P.Steps(ConnAt(s, c), ConnSteps(s, m, c), ConnAt(R.Moved(s, m), c))
  {
    hide C.Wire, C.Header;
    assert forall steps: seq<C.Step> | |steps| == 1 :: steps[1..] == [];
  }

  lemma {:induction false} JoinSteps(a: C.Conn, x: seq<C.Step>, b: C.Conn, y: seq<C.Step>, c: C.Conn)
    requires P.Steps(a, x, b) && P.Steps(b, y, c)
    ensures P.Steps(a, x + y, c)
    decreases |x|
  {
    hide C.Enabled, C.Apply;
    if x == [] {
      assert x + y == y;
    } else {
      JoinSteps(C.Apply(a, x[0]), x[1..], b, y, c);
      assert (x + y)[1..] == x[1..] + y;
    }
  }

  /** Each connection does exactly what the sends that go out on it and its own moves make of it, from a fresh one
      on. */
  lemma {:induction false} ConnRuns(s: R.System, moves: seq<R.Move>, t: R.System, c: nat)
    requires R.Run(s, moves, t)
    ensures P.Steps(ConnAt(s, c), ConnRun(s, moves, t, c), ConnAt(t, c))
    decreases |moves|
  {
    hide R.CanMove, R.Moved, P.Steps, ConnSteps, ConnAt;
    if moves == [] {
      StandsStill(ConnAt(s, c));
    } else {
      var next := R.Moved(s, moves[0]);
      ConnMoves(s, moves[0], c);
      ConnRuns(next, moves[1..], t, c);
      JoinSteps(ConnAt(s, c), ConnSteps(s, moves[0], c), ConnAt(next, c), ConnRun(next, moves[1..], t, c),
                ConnAt(t, c));
    }
  }

  lemma StandsStill(c: C.Conn)
    ensures P.Steps(c, [], c)
  {
  }

  /** So what is known of a failed send holds of every connection of every run of the whole. */
  lemma DoubtEverywhere(w: W.World, actions: seq<W.Action>, v: W.World, c: nat)
    requires W.Start(w) && W.Run(w, actions, v) && c < |v.net.conns| && R.LastFailed(v.net.conns[c])
    ensures D.Reached(v.net.conns[c])
    ensures (exists d :: D.Reached(d) && D.SameView(v.net.conns[c], d) && R.LastTaken(d)) <==>
            R.InDoubt(v.net.conns[c])
  {
    hide D.SameView, R.LastTaken, R.InDoubt, R.LastFailed;
    NetRuns(w, actions, v);
    var moves := Moves(w, actions, v);
    ConnRuns(w.net, moves, v.net, c);
    assert P.Steps(C.Fresh, ConnRun(w.net, moves, v.net, c), v.net.conns[c]);
    D.FailedSendExactly(v.net.conns[c]);
  }
}
