/** What a send that ended without success says about the receiver. */
module Doubt {
  import opened Bytes
  import opened Connection
  import opened ConnectionProof
  import opened Remote

  /** The connection can get into this state. */
  ghost predicate Reached(c: Conn) {
    exists steps :: Steps(Fresh, steps, c)
  }

  lemma {:induction false} StepsKeep(c: Conn, steps: seq<Step>, d: Conn)
    requires ConnOk(c) && Steps(c, steps, d)
    ensures ConnOk(d)
    decreases |steps|
  {
    hide ConnOk, Apply, Enabled;
    if steps != [] {
      StepKeeps(c, steps[0]);
      StepsKeep(Apply(c, steps[0]), steps[1..], d);
    }
  }

  lemma ReachedIsOk(c: Conn)
    requires Reached(c)
    ensures ConnOk(c)
  {
    var steps :| Steps(Fresh, steps, c);
    FreshIsOk();
    StepsKeep(Fresh, steps, c);
  }

  lemma FreshIsReached()
    ensures Reached(Fresh)
  {
    assert Steps(Fresh, [], Fresh);
  }

  lemma ReachedNext(c: Conn, s: Step)
    requires Reached(c) && Enabled(c, s)
    ensures Reached(Apply(c, s)) && ConnOk(Apply(c, s))
  {
    hide ConnOk, Apply, Enabled;
    var steps :| Steps(Fresh, steps, c);
    OneMore(Fresh, steps, c, s);
    assert Steps(Fresh, steps + [s], Apply(c, s));
    ReachedIsOk(Apply(c, s));
  }

  /** All that the sending process knows of a connection. */
  predicate SameView(c: Conn, d: Conn) {
    c.frames == d.frames && c.verdicts == d.verdicts && c.sender == d.sender && c.sent == d.sent && c.heard == d.heard
  }

  function Times<T>(n: nat, x: T): seq<T> {
    seq(n, _ => x)
  }

  /** After these frames were sent, accepted and answered. */
  ghost function Served(frames: seq<Frame>): Conn {
    Conn(frames, Times(|frames|, Success), Free, Stream(frames), AtHeader, |Stream(frames)|,
         seq(|frames|, k requires 0 <= k < |frames| => Handled(frames[k], true)), Times(|frames|, ACCEPTED), |frames|)
  }

  ghost predicate AllTakeable(frames: seq<Frame>) {
    forall k | 0 <= k < |frames| :: FrameOk(frames[k]) && Takeable(frames[k])
  }

  /** A further frame, completely written. */
  ghost function Sent(c: Conn, f: Frame): Conn {
    c.(frames := c.frames + [f], verdicts := c.verdicts + [Underway], sender := Waiting, sent := c.sent + Wire(f))
  }

  lemma SentIsReached(c: Conn, f: Frame)
    requires Reached(c) && c.sender.Free? && FrameOk(f)
    ensures Reached(Sent(c, f))
  {
    hide Reached, Wire, ConnOk;
    ReachedNext(c, Start(f));
    var d := Apply(c, Start(f));
    WireHasHeader(f);
    ReachedNext(d, Write(|Wire(f)|));
    assert Wire(f)[0..|Wire(f)|] == Wire(f);
  }

  /** The receiver reads the last frame and passes it on. */
  ghost function Passed(c: Conn, accepted: bool, answered: bool): Conn
    requires c.frames != []
  {
    var d := c.(consumed := |c.sent|, handled := c.handled + [Handled(c.frames[|c.frames| - 1], accepted)]);
    if answered then d.(answers := c.answers + [if accepted then ACCEPTED else REJECTED], reader := AtHeader)
    else d.(reader := Stopped)
  }

  lemma PassedIsReached(c: Conn, accepted: bool, answered: bool)
    requires Reached(c) && c.reader.AtHeader? && c.frames != [] && |c.handled| == |c.frames| - 1
    requires c.sent == Stream(c.frames) && Takeable(c.frames[|c.frames| - 1])
    ensures Reached(Passed(c, accepted, answered))
  {
    hide Reached, Wire, Stream, ConnOk, ReadU32;
    var k := |c.handled|;
    var f := c.frames[k];
    ReachedIsOk(c);
    assert c.consumed + HEADER + |f.payload| == |c.sent| by { LastBytes(c); }
    NextHeader(c);
    ReachedNext(c, ReadHeader(true));
    var d := Apply(c, ReadHeader(true));
    ReachedNext(d, ReadPayload(|f.payload|));
    var e := Apply(d, ReadPayload(|f.payload|));
    PayloadRead(e);
    ReachedNext(e, Deliver(accepted, answered));
  }

  lemma LastBytes(c: Conn)
    requires ConnOk(c) && c.reader.AtHeader? && c.frames != [] && |c.handled| == |c.frames| - 1
             && c.sent == Stream(c.frames)
    ensures c.consumed + HEADER + |c.frames[|c.handled|].payload| == |c.sent|
  {
    WireHasHeader(c.frames[|c.handled|]);
  }

  lemma {:induction false} ServedIsReached(frames: seq<Frame>)
    requires AllTakeable(frames)
    ensures Reached(Served(frames))
  {
    hide Reached, Wire;
    if frames == [] {
      assert Served(frames) == Fresh;
      FreshIsReached();
    } else {
      var init, f := frames[..|frames| - 1], frames[|frames| - 1];
      ServedIsReached(init);
      assert init + [f] == frames;
      var c := Sent(Served(init), f);
      SentIsReached(Served(init), f);
      PassedIsReached(c, true, true);
      var d := Passed(c, true, true);
      ReachedNext(d, ReadAnswer(true));
      var e := Apply(d, ReadAnswer(true));
      assert e.verdicts == Times(|frames|, Success) && e.answers == Times(|frames|, ACCEPTED);
      assert e == Served(frames);
    }
  }

  /** The state after the answer to the last of these frames was lost, with the frame accepted or never read. */
  lemma LostIsReached(frames: seq<Frame>, taken: bool) returns (c: Conn)
    requires frames != [] && AllTakeable(frames)
    ensures Reached(c) && LastTaken(c) == taken
    ensures c.frames == frames && c.verdicts == Times(|frames| - 1, Success) + [Failure] && c.sender == Closed
    ensures c.sent == Stream(frames) && c.heard == |frames| - 1
  {
    hide Reached, Wire;
    var init, f := frames[..|frames| - 1], frames[|frames| - 1];
    ServedIsReached(init);
    assert init + [f] == frames;
    c := Sent(Served(init), f);
    SentIsReached(Served(init), f);
    if taken {
      PassedIsReached(c, true, false);
      c := Passed(c, true, false);
    }
    ReachedNext(c, AnswerFails);
    c := Apply(c, AnswerFails);
  }

  /** What the sender's view is when it has reported a failure and is in doubt. */
  lemma DoubtView(c: Conn)
    requires ConnOk(c) && LastFailed(c) && InDoubt(c)
    ensures c.verdicts == Times(|c.frames| - 1, Success) + [Failure] && c.sender == Closed && c.heard == |c.frames| - 1
    ensures AllTakeable(c.frames)
  {
    hide Wire, Stream;
    assert c.heard == |c.frames| - 1;
    forall k | 0 <= k < |c.frames| ensures FrameOk(c.frames[k]) && Takeable(c.frames[k]) {
      if k < |c.frames| - 1 {
        VerdictsAreTrue(c, k);
      }
    }
  }

  /** A send that ended without success may have been accepted exactly when its whole frame was written and no answer
      was read; the sender cannot tell the two outcomes apart then, since both give it the same view. */
  lemma FailedSendExactly(c: Conn)
    requires Reached(c) && LastFailed(c)
    ensures (exists d :: Reached(d) && SameView(c, d) && LastTaken(d)) <==> InDoubt(c)
    ensures exists d :: Reached(d) && SameView(c, d) && !LastTaken(d)
  {
    hide Reached, ConnOk;
    ReachedIsOk(c);
    forall d | Reached(d) && SameView(c, d) && LastTaken(d) ensures InDoubt(c) {
      ReachedIsOk(d);
      FailureIsCertain(d);
    }
    if InDoubt(c) {
      DoubtView(c);
      var yes := LostIsReached(c.frames, true);
      var no := LostIsReached(c.frames, false);
      assert SameView(c, yes) && SameView(c, no);
    } else if LastTaken(c) {
      FailureIsCertain(c);
      assert false;
    } else {
      assert SameView(c, c);
    }
  }
}
