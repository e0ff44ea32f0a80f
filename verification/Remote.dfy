/** A sending process with its connections and its pools of idle sockets, one pool per destination process. */
module Remote {
  import opened Bytes
  import opened Connection
  import opened ConnectionProof
  import Q = Queues

  /** Where a send went: nowhere, because no connection could be made, or to a place on a connection. */
  datatype Place = Refused | At(conn: nat, index: nat)

  /** A send as it was asked for, and where it went. */
  datatype Ticket = Ticket(dst: nat, frame: Frame, place: Place)

  /** `target[c]` is the destination of connection `c`; `sends` is history only. */
  datatype System = System(conns: seq<Conn>, target: seq<nat>, pools: seq<seq<nat>>, sends: seq<Ticket>)

  datatype Move = Send(dst: nat, frame: Frame, connects: bool) | Advance(conn: nat, step: Step)

  predicate CanMove(s: System, m: Move) {
    match m
    case Send(dst, frame, _) =>
      && dst < |s.pools| && FrameOk(frame)
      && (s.pools[dst] != [] ==> s.pools[dst][0] < |s.conns| && s.conns[s.pools[dst][0]].sender.Free?)
    case Advance(c, step) =>
      c < |s.conns| && c < |s.target| && s.target[c] < |s.pools| && !step.Start? && Enabled(s.conns[c], step)
  }

  /** A send takes a pooled socket if there is one and connects otherwise; a positive answer returns the socket to its
      pool. */
  function Moved(s: System, m: Move): System
    requires CanMove(s, m)
  {
    match m
    case Send(dst, frame, connects) =>
      if s.pools[dst] != [] then
        var c := s.pools[dst][0];
        s.(conns := s.conns[c := Apply(s.conns[c], Start(frame))], pools := s.pools[dst := s.pools[dst][1..]],
           sends := s.sends + [Ticket(dst, frame, At(c, |s.conns[c].frames|))])
      else if connects then
        s.(conns := s.conns + [Apply(Fresh, Start(frame))], target := s.target + [dst],
           sends := s.sends + [Ticket(dst, frame, At(|s.conns|, 0))])
      else s.(sends := s.sends + [Ticket(dst, frame, Refused)])
    case Advance(c, step) =>
      var d := Apply(s.conns[c], step);
      var t := s.(conns := s.conns[c := d]);
      if step.ReadAnswer? && d.sender.Free? then
        t.(pools := s.pools[s.target[c] := s.pools[s.target[c]] + [c]])
      else t
  }

  function Empty(destinations: nat): System {
    System([], [], seq(destinations, _ => []), [])
  }

  // ----- the invariant -----

  ghost predicate Distinct(q: seq<nat>) {
    forall i, j | 0 <= i < j < |q| :: q[i] != q[j]
  }

  /** A connection is free exactly while it is in the pool of its destination. */
  ghost predicate PoolOk(s: System, dst: nat)
    requires dst < |s.pools| && |s.target| == |s.conns|
  {
    && Distinct(s.pools[dst])
    && forall c: nat :: c in s.pools[dst] <==> c < |s.conns| && s.target[c] == dst && s.conns[c].sender.Free?
  }

  ghost predicate SystemOk(s: System) {
    && |s.target| == |s.conns|
    && (forall c | 0 <= c < |s.conns| :: ConnOk(s.conns[c]) && s.target[c] < |s.pools|)
    && (forall dst | 0 <= dst < |s.pools| :: PoolOk(s, dst))
  }

  /** A send is always possible: what is in a pool can be used. */
  lemma SendIsPossible(s: System, dst: nat, frame: Frame, connects: bool)
    requires SystemOk(s) && dst < |s.pools| && FrameOk(frame)
    ensures CanMove(s, Send(dst, frame, connects))
  {
    assert PoolOk(s, dst);
    if s.pools[dst] != [] {
      assert s.pools[dst][0] in s.pools[dst];
    }
  }

  lemma OtherPools(s: System, t: System, c: nat, dst: nat)
    requires SystemOk(s) && dst < |s.pools| && c < |s.conns| && |t.conns| == |s.conns| && t.target == s.target
    requires |t.pools| == |s.pools| && t.pools[dst] == s.pools[dst]
    requires forall x: nat | x < |s.conns| && x != c :: t.conns[x] == s.conns[x]
    requires s.target[c] != dst || t.conns[c].sender.Free? == s.conns[c].sender.Free?
    ensures PoolOk(t, dst)
  {
    hide ConnOk, Distinct;
    assert PoolOk(s, dst);
  }

  lemma SendKeeps(s: System, m: Move)
    requires SystemOk(s) && m.Send? && CanMove(s, m)
    ensures SystemOk(Moved(s, m))
  {
    hide ConnOk, Enabled, Apply;
    var t := Moved(s, m);
    assert PoolOk(s, m.dst);
    StartFacts(m.frame);
    if s.pools[m.dst] != [] {
      var c := s.pools[m.dst][0];
      assert c in s.pools[m.dst];
      StartUses(s.conns[c], m.frame);
      forall dst | 0 <= dst < |t.pools| ensures PoolOk(t, dst) {
        if dst == m.dst {
          PopKeeps(s.pools[dst]);
        } else {
          OtherPools(s, t, c, dst);
        }
      }
    } else if m.connects {
      forall dst | 0 <= dst < |t.pools| ensures PoolOk(t, dst) {
        assert PoolOk(s, dst);
      }
    } else {
      forall dst | 0 <= dst < |t.pools| ensures PoolOk(t, dst) {
        assert PoolOk(s, dst);
      }
    }
  }

  lemma PopKeeps(q: seq<nat>)
    requires q != [] && Distinct(q)
    ensures Distinct(q[1..]) && forall x: nat :: x in q[1..] <==> x in q && x != q[0]
  {
    forall x: nat | x in q && x != q[0] ensures x in q[1..] {
      var i :| 0 <= i < |q| && q[i] == x;
      assert q[1..][i - 1] == x;
    }
  }

  lemma StartUses(c: Conn, f: Frame)
    requires ConnOk(c) && FrameOk(f) && c.sender.Free?
    ensures Enabled(c, Start(f)) && ConnOk(Apply(c, Start(f))) && !Apply(c, Start(f)).sender.Free?
  {
    StepKeeps(c, Start(f));
  }

  lemma StartFacts(f: Frame)
    requires FrameOk(f)
    ensures Enabled(Fresh, Start(f)) && ConnOk(Apply(Fresh, Start(f))) && !Apply(Fresh, Start(f)).sender.Free?
  {
    FreshIsOk();
    StartUses(Fresh, f);
  }

  /** Only a positive answer frees a connection, and only a send occupies a free one. */
  lemma FreedByAnswer(c: Conn, s: Step)
    requires Enabled(c, s) && !s.Start?
    ensures c.sender.Free? ==> Apply(c, s).sender.Free? && !s.ReadAnswer?
    ensures !c.sender.Free? && Apply(c, s).sender.Free? ==> s.ReadAnswer?
  {
  }

  lemma AdvanceKeeps(s: System, m: Move)
    requires SystemOk(s) && m.Advance? && CanMove(s, m)
    ensures SystemOk(Moved(s, m))
  {
    hide ConnOk, Enabled, Apply;
    var t := Moved(s, m);
    var c := m.conn;
    StepKeeps(s.conns[c], m.step);
    FreedByAnswer(s.conns[c], m.step);
    forall dst | 0 <= dst < |t.pools| ensures PoolOk(t, dst) {
      assert PoolOk(s, dst);
      if dst != s.target[c] || t.conns[c].sender.Free? == s.conns[c].sender.Free? {
        OtherPools(s, t, c, dst);
      } else {
        assert c !in s.pools[dst];
      }
    }
  }

  // ----- runs -----

  ghost predicate Run(s: System, moves: seq<Move>, t: System)
    decreases |moves|
  {
    if moves == [] then s == t
    else CanMove(s, moves[0]) && Run(Moved(s, moves[0]), moves[1..], t)
  }

  lemma {:induction false} RunKeeps(s: System, moves: seq<Move>, t: System)
    requires SystemOk(s) && Run(s, moves, t)
    ensures SystemOk(t)
    decreases |moves|
  {
    if moves != [] {
      if moves[0].Send? {
        SendKeeps(s, moves[0]);
      } else {
        AdvanceKeeps(s, moves[0]);
      }
      RunKeeps(Moved(s, moves[0]), moves[1..], t);
    }
  }

  lemma EmptyIsOk(destinations: nat)
    ensures SystemOk(Empty(destinations))
  {
  }

  // ----- the pools -----

  /** What a move does to the pool of a destination. */
  function PoolOps(s: System, m: Move, dst: nat): seq<Q.Op<nat>>
    requires CanMove(s, m) && |s.target| == |s.conns|
  {
    match m
    case Send(d, _, _) => if d == dst then [Q.TryPop] else []
    case Advance(c, ReadAnswer(room)) =>
      if s.target[c] == dst && room && s.conns[c].answers[s.conns[c].heard] == ACCEPTED then [Q.TryPush(c)] else []
    case _ => []
  }

  /** A pool is a FIFO queue of sockets: a send tries to take one from it, and a positive answer puts one back. */
  lemma PoolIsQueue(s: System, m: Move, dst: nat)
    requires CanMove(s, m) && |s.target| == |s.conns| && dst < |s.pools|
    ensures dst < |Moved(s, m).pools|
    ensures Q.Bounded(Moved(s, m).pools[dst], -1) == Q.AfterAll(Q.Bounded(s.pools[dst], -1), PoolOps(s, m, dst))
  {
    hide Wire, Header;
    assert forall ops: seq<Q.Op<nat>> | |ops| == 1 :: ops[1..] == [];
  }

  /** A send goes out on the socket that has been idle longest; it opens a connection exactly when no socket to its
      destination is idle and connecting succeeds, and is refused exactly when neither holds. */
  lemma SendReuses(s: System, m: Move)
    requires SystemOk(s) && CanMove(s, m) && m.Send?
    ensures var t := Moved(s, m);
            var spare := exists c :: 0 <= c < |s.conns| && s.target[c] == m.dst && s.conns[c].sender.Free?;
            && |t.sends| == |s.sends| + 1
            && var place := t.sends[|s.sends|].place;
               && (spare <==> s.pools[m.dst] != [])
               && (spare ==> place.At? && place.conn == s.pools[m.dst][0] && |t.conns| == |s.conns|)
               && (!spare && m.connects ==> place == At(|s.conns|, 0) && |t.conns| == |s.conns| + 1)
               && (!spare && !m.connects ==> place == Refused && t.conns == s.conns)
  {
    hide ConnOk, Wire;
    assert PoolOk(s, m.dst);
    if s.pools[m.dst] != [] {
      assert s.pools[m.dst][0] in s.pools[m.dst];
    }
  }

  // ----- every send goes to its destination -----

  ghost predicate TicketOk(s: System, x: Ticket)
    requires |s.target| == |s.conns|
  {
    && x.dst < |s.pools|
    && (x.place.At? ==>
          && x.place.conn < |s.conns| && s.target[x.place.conn] == x.dst
          && x.place.index < |s.conns[x.place.conn].frames|
          && s.conns[x.place.conn].frames[x.place.index] == x.frame)
  }

  /** Every send is the frame in its place on a connection to its destination; no two are in one place, and every frame
      of a connection is a send. */
  ghost predicate TicketsOk(s: System) {
    && |s.target| == |s.conns|
    && (forall j | 0 <= j < |s.sends| :: TicketOk(s, s.sends[j]))
    && (forall i, j | 0 <= i < j < |s.sends| && s.sends[i].place.At? :: s.sends[i].place != s.sends[j].place)
    && (forall c, k | 0 <= c < |s.conns| && 0 <= k < |s.conns[c].frames| ::
          HasTicket(s.sends, c, k))
  }

  ghost predicate HasTicket(sends: seq<Ticket>, c: nat, k: nat) {
    exists j :: 0 <= j < |sends| && sends[j].place == At(c, k)
  }

  /** A step of a connection starts no send. */
  lemma FramesStay(c: Conn, s: Step)
    requires Enabled(c, s) && !s.Start?
    ensures Apply(c, s).frames == c.frames
  {
  }

  /** What a move does to the frames, the destinations and the history. */
  lemma MovedFrames(s: System, m: Move)
    requires CanMove(s, m) && |s.target| == |s.conns|
    ensures var t := Moved(s, m);
            && |t.target| == |t.conns| && |t.pools| == |s.pools|
            && (m.Advance? ==>
                  && t.sends == s.sends && t.target == s.target && |t.conns| == |s.conns|
                  && forall c | 0 <= c < |s.conns| :: t.conns[c].frames == s.conns[c].frames)
  {
    if m.Advance? {
      FramesStay(s.conns[m.conn], m.step);
    }
  }

  lemma TicketsAdvance(s: System, m: Move)
    requires TicketsOk(s) && CanMove(s, m) && m.Advance?
    ensures TicketsOk(Moved(s, m))
  {
    hide Moved;
    MovedFrames(s, m);
    var t := Moved(s, m);
    forall j | 0 <= j < |t.sends| ensures TicketOk(t, t.sends[j]) {
      assert TicketOk(s, s.sends[j]);
    }
  }

  /** One more send, in a place that was not taken. */
  lemma TicketsMore(s: System, t: System, x: Ticket)
    requires TicketsOk(s) && t.sends == s.sends + [x] && |t.pools| == |s.pools|
    requires |t.target| == |t.conns| && s.target <= t.target
    requires forall c | 0 <= c < |s.conns| :: s.conns[c].frames <= t.conns[c].frames
    requires TicketOk(t, x)
    requires x.place.At? ==> x.place.conn >= |s.conns| || x.place.index >= |s.conns[x.place.conn].frames|
    requires forall c, k | 0 <= c < |t.conns| && 0 <= k < |t.conns[c].frames| ::
               (c < |s.conns| && k < |s.conns[c].frames|) || x.place == At(c, k)
    ensures TicketsOk(t)
  {
    forall j | 0 <= j < |s.sends|
      ensures TicketOk(t, s.sends[j]) && (s.sends[j].place.At? ==> s.sends[j].place != x.place)
    {
      assert TicketOk(s, s.sends[j]);
    }
    forall c, k | 0 <= c < |t.conns| && 0 <= k < |t.conns[c].frames|
      ensures HasTicket(t.sends, c, k)
    {
      if c < |s.conns| && k < |s.conns[c].frames| {
        assert HasTicket(s.sends, c, k);
        var j :| 0 <= j < |s.sends| && s.sends[j].place == At(c, k);
        assert t.sends[j].place == At(c, k);
      } else {
        assert t.sends[|s.sends|].place == At(c, k);
      }
    }
    assert forall j | 0 <= j < |t.sends| :: t.sends[j] == if j < |s.sends| then s.sends[j] else x;
  }

  lemma TicketsSend(s: System, m: Move)
    requires TicketsOk(s) && SystemOk(s) && CanMove(s, m) && m.Send?
    ensures TicketsOk(Moved(s, m))
  {
    hide ConnOk, TicketsOk, Wire;
    var t := Moved(s, m);
    assert PoolOk(s, m.dst);
    if s.pools[m.dst] != [] {
      assert s.pools[m.dst][0] in s.pools[m.dst];
    }
    TicketsMore(s, t, t.sends[|s.sends|]);
  }

  /** What a run was asked to send, and to whom. */
  function Asked(moves: seq<Move>): seq<(nat, Frame)> {
    if moves == [] then []
    else (if moves[0].Send? then [(moves[0].dst, moves[0].frame)] else []) + Asked(moves[1..])
  }

  function Requests(sends: seq<Ticket>): seq<(nat, Frame)> {
    seq(|sends|, j requires 0 <= j < |sends| => (sends[j].dst, sends[j].frame))
  }

  lemma MovedRequests(s: System, m: Move)
    requires CanMove(s, m)
    ensures Requests(Moved(s, m).sends) == Requests(s.sends) + Asked([m])
  {
    assert [m][1..] == [];
  }

  lemma {:induction false} RunTickets(s: System, moves: seq<Move>, t: System)
    requires SystemOk(s) && TicketsOk(s) && Run(s, moves, t)
    ensures SystemOk(t) && TicketsOk(t) && Requests(t.sends) == Requests(s.sends) + Asked(moves)
    decreases |moves|
  {
    hide SystemOk, TicketsOk, CanMove, Moved, Requests;
    if moves != [] {
      var m := moves[0];
      MovedRequests(s, m);
      assert Asked(moves) == Asked([m]) + Asked(moves[1..]) by { assert [m][1..] == []; }
      if m.Send? {
        TicketsSend(s, m);
        SendKeeps(s, m);
      } else {
        TicketsAdvance(s, m);
        AdvanceKeeps(s, m);
      }
      RunTickets(Moved(s, m), moves[1..], t);
    }
  }

  /** Over every run the sends asked for are, in order, those recorded; each that was not refused is the frame in a
      place of its own on a connection to the destination it was meant for, and nothing else is on any connection. */
  lemma SendsGoWhereMeant(destinations: nat, moves: seq<Move>, t: System)
    requires Run(Empty(destinations), moves, t)
    ensures TicketsOk(t) && Requests(t.sends) == Asked(moves)
  {
    EmptyIsOk(destinations);
    RunTickets(Empty(destinations), moves, t);
  }

  /** The send in place `k` of a connection: a success was accepted, once, with its exact bytes; whatever the verdict,
      it was handled at most once, in its own place and with its exact bytes. */
  ghost predicate Truthful(c: Conn, k: nat) {
    && k < |c.frames| == |c.verdicts| && |c.handled| <= |c.frames|
    && (c.verdicts[k] == Success ==> k < |c.handled| && c.handled[k] == Handled(c.frames[k], true))
    && (k < |c.handled| ==> c.handled[k].frame == c.frames[k])
  }

  /** Every frame has been handled and answered, and every answer read. */
  predicate Quiet(c: Conn) {
    |c.frames| == |c.handled| == |c.answers| == c.heard
  }

  ghost predicate AllQuiet(conns: seq<Conn>, pool: seq<nat>) {
    forall i | 0 <= i < |pool| :: pool[i] < |conns| && Quiet(conns[pool[i]])
  }

  /** Over every run verdicts are true, and a pooled socket is pooled once and has no unanswered frame. */
  lemma RemoteDelivery(destinations: nat, moves: seq<Move>, t: System)
    requires Run(Empty(destinations), moves, t)
    ensures forall c, k | 0 <= c < |t.conns| && 0 <= k < |t.conns[c].frames| :: Truthful(t.conns[c], k)
    ensures forall dst | 0 <= dst < |t.pools| :: Distinct(t.pools[dst])
    ensures forall dst | 0 <= dst < |t.pools| :: AllQuiet(t.conns, t.pools[dst])
  {
    hide SenderOk, StreamOk, ReaderOk, AnswersOk, Truthful;
    EmptyIsOk(destinations);
    RunKeeps(Empty(destinations), moves, t);
    forall c, k | 0 <= c < |t.conns| && 0 <= k < |t.conns[c].frames| ensures Truthful(t.conns[c], k) {
      TruthfulAt(t.conns[c], k);
    }
    forall dst | 0 <= dst < |t.pools| ensures Distinct(t.pools[dst]) && AllQuiet(t.conns, t.pools[dst]) {
      assert PoolOk(t, dst);
      var pool := t.pools[dst];
      forall i | 0 <= i < |pool| ensures pool[i] < |t.conns| && Quiet(t.conns[pool[i]]) {
        assert pool[i] in pool;
        FreeIsQuiet(t.conns[pool[i]]);
      }
    }
  }

  lemma TruthfulAt(c: Conn, k: nat)
    requires ConnOk(c) && k < |c.frames|
    ensures Truthful(c, k)
  {
    VerdictsAreTrue(c, k);
  }

  /** After a negative answer the event was certainly not accepted. */
  lemma RejectionIsCertain(c: Conn)
    requires ConnOk(c) && c.sender.Abandoned?
    ensures c.frames != [] && c.verdicts[|c.frames| - 1] == Failure
    ensures |c.handled| == |c.frames| && c.handled[|c.frames| - 1] == Handled(c.frames[|c.frames| - 1], false)
  {
    hide Stream, Wire, StreamOk;
  }

  /** A socket is lost, neither pooled nor closed, exactly when its last send had a negative answer. */
  lemma LeakedExactly(c: Conn)
    requires ConnOk(c)
    ensures c.heard <= |c.answers|
    ensures c.sender.Abandoned? <==> c.frames != [] && c.heard == |c.frames| && c.answers[c.heard - 1] != ACCEPTED
  {
    hide Stream, Wire, StreamOk;
  }

  // ----- what a failed send means -----

  /** The last send is over and was not reported as a success. */
  predicate LastFailed(c: Conn) {
    c.frames != [] && |c.verdicts| == |c.frames| && c.verdicts[|c.frames| - 1] in {Failure, Unreported}
  }

  /** The receiver has accepted the last send. */
  predicate LastTaken(c: Conn) {
    c.frames != [] && |c.handled| == |c.frames| && c.handled[|c.frames| - 1].accepted
  }

  /** The last frame is wholly on the wire, has a length the receiver takes, and no answer to it was read. */
  ghost predicate InDoubt(c: Conn) {
    c.frames != [] && c.sent == Stream(c.frames) && Takeable(c.frames[|c.frames| - 1]) && c.heard < |c.frames|
  }

  /** After a write error the event was certainly not accepted, nor even passed on. */
  lemma UnreportedIsCertain(c: Conn, k: nat)
    requires ConnOk(c) && k < |c.frames| && c.verdicts[k] == Unreported
    ensures k == |c.frames| - 1 && |c.handled| <= k
  {
    hide Wire, Stream;
    assert c.frames[..|c.frames|] == c.frames;
  }

  /** After a write error or a negative answer a failed send was certainly not accepted. */
  lemma FailureIsCertain(c: Conn)
    requires ConnOk(c) && LastFailed(c) && LastTaken(c)
    ensures InDoubt(c)
  {
    hide Wire;
    assert c.frames[..|c.frames|] == c.frames;
  }

  lemma OnlyLastFails(c: Conn, k: nat)
    requires ConnOk(c) && k < |c.frames| && c.verdicts[k] == Failure
    ensures k == |c.frames| - 1 && LastFailed(c)
    ensures |c.handled| <= |c.frames|
  {
    hide Wire, Stream;
  }

  // ----- counting, without regard to connections -----

  /** How many of the first `k` sends of this frame on a connection ended with this verdict. */
  function VerdictsOf(c: Conn, x: Frame, v: Verdict, k: nat): nat
    requires k <= |c.frames| && |c.verdicts| == |c.frames|
  {
    if k == 0 then 0
    else VerdictsOf(c, x, v, k - 1) + if c.frames[k - 1] == x && c.verdicts[k - 1] == v then 1 else 0
  }

  /** How often the receiver accepted this frame among the first `k` it handled. */
  function AcceptsOf(c: Conn, x: Frame, k: nat): nat
    requires k <= |c.handled|
  {
    if k == 0 then 0
    else AcceptsOf(c, x, k - 1) + if c.handled[k - 1] == Handled(x, true) then 1 else 0
  }

  lemma {:induction false} CountsWithin(c: Conn, x: Frame, k: nat)
    requires ConnOk(c) && k <= |c.frames|
    ensures var a := AcceptsOf(c, x, if k <= |c.handled| then k else |c.handled|);
            var ok := VerdictsOf(c, x, Success, k);
            ok <= a <= ok + VerdictsOf(c, x, Failure, k) + VerdictsOf(c, x, Underway, k)
  {
    hide ConnOk;
    VerdictsMatch(c);
    if k > 0 {
      CountsWithin(c, x, k - 1);
      VerdictsAreTrue(c, k - 1);
      if c.verdicts[k - 1] == Unreported {
        UnreportedIsCertain(c, k - 1);
      }
    }
  }

  lemma VerdictsMatch(c: Conn)
    requires ConnOk(c)
    ensures |c.verdicts| == |c.frames| && |c.handled| <= |c.frames|
  {
  }

  ghost function TotalVerdicts(conns: seq<Conn>, x: Frame, v: Verdict): nat
    requires forall c | 0 <= c < |conns| :: ConnOk(conns[c])
  {
    if conns == [] then 0
    else
      var last := conns[|conns| - 1];
      VerdictsMatch(last);
      TotalVerdicts(conns[..|conns| - 1], x, v) + VerdictsOf(last, x, v, |last.frames|)
  }

  ghost function TotalAccepts(conns: seq<Conn>, x: Frame): nat {
    if conns == [] then 0
    else
      var last := conns[|conns| - 1];
      TotalAccepts(conns[..|conns| - 1], x) + AcceptsOf(last, x, |last.handled|)
  }

  lemma {:induction false} TotalsWithin(conns: seq<Conn>, x: Frame)
    requires forall c | 0 <= c < |conns| :: ConnOk(conns[c])
    ensures TotalVerdicts(conns, x, Success) <= TotalAccepts(conns, x)
    ensures TotalAccepts(conns, x) <=
            TotalVerdicts(conns, x, Success) + TotalVerdicts(conns, x, Failure) + TotalVerdicts(conns, x, Underway)
  {
    hide ConnOk;
    if conns != [] {
      TotalsWithin(conns[..|conns| - 1], x);
      var last := conns[|conns| - 1];
      CountsWithin(last, x, |last.frames|);
      VerdictsMatch(last);
    }
  }

  /** However often the same event is sent, its receivers accept it at least as often as success was reported, and no
      more often than that plus the sends that failed or are still under way. */
  lemma AcceptedAsReported(destinations: nat, moves: seq<Move>, t: System, x: Frame)
    requires Run(Empty(destinations), moves, t)
    ensures SystemOk(t)
    ensures TotalVerdicts(t.conns, x, Success) <= TotalAccepts(t.conns, x)
    ensures TotalAccepts(t.conns, x) <=
            TotalVerdicts(t.conns, x, Success) + TotalVerdicts(t.conns, x, Failure)
            + TotalVerdicts(t.conns, x, Underway)
  {
    EmptyIsOk(destinations);
    RunKeeps(Empty(destinations), moves, t);
    TotalsWithin(t.conns, x);
  }
}
