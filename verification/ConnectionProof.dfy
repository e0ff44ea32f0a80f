/** Every step of a connection keeps its invariant, so a reported success is an event accepted exactly once. */
module ConnectionProof {
  import opened Bytes
  import opened Connection

  // ----- the stream of frames -----

  lemma StreamPush(frames: seq<Frame>, f: Frame)
    ensures Stream(frames + [f]) == Stream(frames) + Wire(f)
  {
    assert (frames + [f])[..|frames|] == frames;
  }

  /** The frame at position `k` lies in the stream right behind the frames before it. */
  lemma {:induction false} StreamAt(frames: seq<Frame>, k: nat)
    requires k < |frames|
    ensures Stream(frames[..k + 1]) == Stream(frames[..k]) + Wire(frames[k])
    ensures Stream(frames[..k + 1]) <= Stream(frames)
    decreases |frames|
  {
    hide Wire;
    var init := frames[..|frames| - 1];
    if k == |frames| - 1 {
      assert frames[..k + 1] == frames;
    } else {
      StreamAt(init, k);
      assert init[..k + 1] == frames[..k + 1] && init[..k] == frames[..k];
    }
  }

  /** Bytes read inside frame `k` are bytes of that frame. */
  lemma BytesOfFrame(frames: seq<Frame>, sent: seq<byte>, k: nat, from: nat, count: nat)
    requires k < |frames| && sent <= Stream(frames)
    requires from + count <= |Wire(frames[k])| && |Stream(frames[..k])| + from + count <= |sent|
    ensures var p := |Stream(frames[..k])| + from;
            sent[p..p + count] == Wire(frames[k])[from..from + count]
  {
    hide Stream, Wire;
    StreamAt(frames, k);
    var before, wire := Stream(frames[..k]), Wire(frames[k]);
    var p := |before| + from;
    assert sent[p..p + count] == Stream(frames)[p..p + count];
    assert Stream(frames)[p..p + count] == Stream(frames[..k + 1])[p..p + count];
    assert (before + wire)[p..p + count] == wire[from..from + count];
  }

  // ----- headers -----

  lemma HeaderFields(f: Frame, w: seq<byte>, p: nat)
    requires FrameOk(f) && p + HEADER <= |w| && w[p..p + HEADER] == Wire(f)[..HEADER]
    ensures w[p] == EVENT_TYPE
    ensures ReadU32(w, p + 1) == f.stage
    ensures ReadU32(w, p + 5) == |f.payload| && ReadU32(w, p + 9) == 0
  {
    hide U32, ReadU32;
    var h := w[p..p + HEADER];
    var a, b, c := U32(f.stage), U32(|f.payload|), U32(|f.payload| / U32_LIMIT);
    assert h == [EVENT_TYPE] + a + b + c;
    assert h[0] == EVENT_TYPE;
    assert h[1..5] == a && h[5..9] == b && h[9..13] == c;
    assert w[p + 1..p + 5] == h[1..5] && w[p + 5..p + 9] == h[5..9] && w[p + 9..p + 13] == h[9..13];
    ReadWithin(w, p + 1, f.stage);
    ReadWithin(w, p + 5, |f.payload|);
    ReadWithin(w, p + 9, 0);
  }

  /** A reader at a header with thirteen bytes before it is at the header of the next frame. */
  lemma NextHeader(c: Conn)
    requires ConnOk(c) && c.reader.AtHeader? && c.consumed + HEADER <= |c.sent|
    ensures var k := |c.handled|;
            && k < |c.frames| && FrameOk(c.frames[k])
            && c.sent[c.consumed] == EVENT_TYPE
            && ReadU32(c.sent, c.consumed + 1) == c.frames[k].stage
            && ReadU32(c.sent, c.consumed + 5) == |c.frames[k].payload|
            && ReadU32(c.sent, c.consumed + 9) == 0
  {
    hide Stream, Wire, ReadU32, U32, Answered, SenderOk, AnswersOk;
    var k := |c.handled|;
    assert k < |c.frames| by {
      assert c.frames[..|c.frames|] == c.frames;
    }
    BytesOfFrame(c.frames, c.sent, k, 0, HEADER);
    assert FrameOk(c.frames[k]) by { SenderFrames(c, k); }
    HeaderFields(c.frames[k], c.sent, c.consumed);
  }

  lemma SenderFrames(c: Conn, k: nat)
    requires SenderOk(c) && k < |c.frames|
    ensures FrameOk(c.frames[k])
  {
  }

  // ----- the steps -----

  lemma StartKeeps(c: Conn, f: Frame)
    requires ConnOk(c) && Enabled(c, Start(f))
    ensures ConnOk(Apply(c, Start(f)))
  {
    hide Wire, Stream;
    var d := Apply(c, Start(f));
    StreamPush(c.frames, f);
    assert d.frames[..|c.frames|] == c.frames;
    assert d.frames[..|c.handled|] == c.frames[..|c.handled|];
    WireHasHeader(f);
  }

  lemma WireHasHeader(f: Frame)
    ensures |Wire(f)| == HEADER + |f.payload|
  {
  }

  lemma WriteKeeps(c: Conn, count: nat)
    requires ConnOk(c) && Enabled(c, Write(count))
    ensures ConnOk(Apply(c, Write(count)))
  {
    hide Wire, Stream;
    var d := Apply(c, Write(count));
    var n := |c.frames| - 1;
    var wire := Wire(c.frames[n]);
    StreamPush(c.frames[..n], c.frames[n]);
    assert c.frames[..n] + [c.frames[n]] == c.frames;
    var before := Stream(c.frames[..n]);
    assert c.sent == before + wire[..c.sender.offset];
    assert d.sent == before + wire[..c.sender.offset + count];
    assert wire[..|wire|] == wire;
  }

  lemma SenderEndsKeeps(c: Conn, s: Step)
    requires ConnOk(c) && Enabled(c, s) && (s.WriteFails? || s.AnswerFails? || s.ReadAnswer?)
    ensures ConnOk(Apply(c, s))
  {
    hide Wire, Stream;
    var d := Apply(c, s);
    assert d.frames == c.frames;
    if s.WriteFails? {
      StreamAt(c.frames, |c.frames| - 1);
      assert c.frames[..|c.frames| - 1 + 1] == c.frames;
    }
  }

  lemma ReadHeaderKeeps(c: Conn, memory: bool)
    requires ConnOk(c) && Enabled(c, ReadHeader(memory))
    ensures ConnOk(Apply(c, ReadHeader(memory)))
  {
    hide Wire, Stream, ReadU32, SenderOk, StreamOk;
    NextHeader(c);
    SenderUntouched(c, Apply(c, ReadHeader(memory)));
  }

  lemma ReadPayloadKeeps(c: Conn, count: nat)
    requires ConnOk(c) && Enabled(c, ReadPayload(count))
    ensures ConnOk(Apply(c, ReadPayload(count)))
  {
    hide Stream, SenderOk, U32;
    var d := Apply(c, ReadPayload(count));
    var k := |c.handled|;
    var f := c.frames[k];
    var from := HEADER + |c.reader.buf|;
    BytesOfFrame(c.frames, c.sent, k, from, count);
    assert Wire(f)[HEADER..] == f.payload;
    assert Wire(f)[from..from + count] == f.payload[|c.reader.buf|..|c.reader.buf| + count];
    SenderUntouched(c, d);
  }

  lemma DeliverKeeps(c: Conn, accepted: bool, answered: bool)
    requires ConnOk(c) && Enabled(c, Deliver(accepted, answered))
    ensures ConnOk(Apply(c, Deliver(accepted, answered)))
  {
    hide Wire, Stream, SenderOk;
    var d := Apply(c, Deliver(accepted, answered));
    var k := |c.handled|;
    assert c.reader.buf == c.frames[k].payload;
    StreamAt(c.frames, k);
    WireHasHeader(c.frames[k]);
    SenderUntouched(c, d);
  }

  lemma SenderUntouched(c: Conn, d: Conn)
    requires SenderOk(c) && StreamOk(c)
    requires d.frames == c.frames && d.verdicts == c.verdicts && d.sender == c.sender && d.sent == c.sent
             && d.heard == c.heard
    ensures SenderOk(d) && StreamOk(d)
  {
  }

  lemma ReadFailsKeeps(c: Conn)
    requires ConnOk(c) && Enabled(c, ReadFails)
    ensures ConnOk(Apply(c, ReadFails))
  {
    hide Wire, Stream;
    SenderUntouched(c, Apply(c, ReadFails));
  }

  /** The invariant is inductive. */
  lemma StepKeeps(c: Conn, s: Step)
    requires ConnOk(c) && Enabled(c, s)
    ensures ConnOk(Apply(c, s))
  {
    hide ConnOk, Enabled, Apply;
    match s
    case Start(f) => StartKeeps(c, f);
    case Write(count) => WriteKeeps(c, count);
    case WriteFails => SenderEndsKeeps(c, s);
    case ReadAnswer(_) => SenderEndsKeeps(c, s);
    case AnswerFails => SenderEndsKeeps(c, s);
    case ReadHeader(memory) => ReadHeaderKeeps(c, memory);
    case ReadPayload(count) => ReadPayloadKeeps(c, count);
    case ReadFails => ReadFailsKeeps(c);
    case Deliver(accepted, answered) => DeliverKeeps(c, accepted, answered);
  }

  lemma FreshIsOk()
    ensures ConnOk(Fresh)
  {
  }

  // ----- what the invariant says -----

  /** A success stands for the frame at the same position, handled with its exact bytes and accepted; a failure for one
      that was handled at most once; a free connection has nothing unanswered. */
  lemma VerdictsAreTrue(c: Conn, k: nat)
    requires ConnOk(c) && k < |c.frames|
    ensures c.verdicts[k] == Success ==> k < |c.handled| && c.handled[k] == Handled(c.frames[k], true)
    ensures k < |c.handled| ==> c.handled[k].frame == c.frames[k]
    ensures k < |c.frames| - 1 ==> c.verdicts[k] == Success
    ensures |c.handled| <= |c.frames|
  {
    hide Stream, Wire;
    assert c.verdicts[k] == Success ==> k < c.heard;
  }

  lemma FreeIsQuiet(c: Conn)
    requires ConnOk(c) && c.sender.Free?
    ensures c.heard == |c.answers| == |c.handled| == |c.frames|
    ensures c.sent == Stream(c.frames) && (!c.reader.Stopped? ==> c.reader.AtHeader? && c.consumed == |c.sent|)
  {
    hide Wire;
    assert c.frames[..|c.frames|] == c.frames;
    if c.reader.InPayload? {
      assert false;
    }
  }

  /** The length test of the receiver: (int) len <= 0. */
  lemma LengthTest(c: Conn, memory: bool)
    requires ConnOk(c) && Enabled(c, ReadHeader(memory))
    ensures |c.handled| < |c.frames|
    ensures Apply(c, ReadHeader(memory)).reader.InPayload? <==>
            memory && 1 <= |c.frames[|c.handled|].payload| < INT_LIMIT
  {
    hide ConnOk, ReadU32;
    NextHeader(c);
  }

  /** A connection whose payload is complete holds the next frame. */
  lemma PayloadRead(c: Conn)
    requires ConnOk(c) && c.reader.InPayload? && |c.reader.buf| == c.reader.len
    ensures |c.handled| < |c.frames| && Frame(c.reader.stage, c.reader.buf) == c.frames[|c.handled|]
    ensures c.consumed == |Stream(c.frames[..|c.handled| + 1])|
  {
    hide Stream, SenderOk, StreamOk, AnswersOk;
    StreamAt(c.frames, |c.handled|);
    WireHasHeader(c.frames[|c.handled|]);
  }

  // ----- runs of a connection -----

  ghost predicate Steps(c: Conn, steps: seq<Step>, d: Conn)
    decreases |steps|
  {
    if steps == [] then c == d else Enabled(c, steps[0]) && Steps(Apply(c, steps[0]), steps[1..], d)
  }

  lemma {:induction false} OneMore(c: Conn, steps: seq<Step>, d: Conn, s: Step)
    requires Steps(c, steps, d) && Enabled(d, s)
    ensures Steps(c, steps + [s], Apply(d, s))
    decreases |steps|
  {
    if steps == [] {
      assert steps + [s] == [s];
      assert [s][1..] == [];
    } else {
      OneMore(Apply(c, steps[0]), steps[1..], d, s);
      assert (steps + [s])[1..] == steps[1..] + [s];
    }
  }
}
