/**
 One connection between a sending and a receiving process (send_sync_event and read_event in src/kernel/event.c).

 The network is two byte streams: what the sender has written and what the receiver has answered.  Writes and payload
 reads are split arbitrarily, either side may fail at any moment, and whether the receiver's stage takes an event is
 up to its queues.  A header is read whole.
 */
module Connection {
  import opened Bytes

  const EVENT_TYPE: byte := 28
  const INIT_TYPE: byte := 27
  const HEADER: nat := 13

  const ACCEPTED: byte := 1
  const REJECTED: byte := 2
  const NOT_AN_EVENT: byte := 3
  const ALREADY_STARTED: byte := 4

  datatype Frame = Frame(stage: nat, payload: seq<byte>)

  /** What the fields of a frame can hold. */
  predicate FrameOk(f: Frame) {
    f.stage < U32_LIMIT && |f.payload| < U32_LIMIT
  }

  /** The payloads that the receiver's test on the length lets through. */
  predicate Takeable(f: Frame) {
    1 <= |f.payload| < INT_LIMIT
  }

  function Wire(f: Frame): (w: seq<byte>)
    ensures |w| == HEADER + |f.payload|
  {
    [EVENT_TYPE] + U32(f.stage) + U32(|f.payload|) + U32(|f.payload| / U32_LIMIT) + f.payload
  }

  /** What the handler is told.  After a write error it is told nothing: the negative count that send_sync_event returns
      is no number of results. */
  datatype Verdict = Underway | Success | Failure | Unreported

  /** Free: in the pool.  Abandoned: neither pooled nor closed, as after a negative answer. */
  datatype Sender = Free | Writing(offset: nat) | Waiting | Closed | Abandoned

  datatype Reader = AtHeader | InPayload(stage: nat, len: nat, buf: seq<byte>) | Stopped

  datatype Handled = Handled(frame: Frame, accepted: bool)

  /** `frames` and `verdicts` are the sends made on this connection, oldest first; `handled` is what the receiver
      passed to emmit_packed_event. */
  datatype Conn = Conn(
    frames: seq<Frame>,
    verdicts: seq<Verdict>,
    sender: Sender,
    sent: seq<byte>,
    reader: Reader,
    consumed: nat,
    handled: seq<Handled>,
    answers: seq<byte>,
    heard: nat
  )

  const Fresh: Conn := Conn([], [], Free, [], AtHeader, 0, [], [], 0)

  datatype Step =
    | Start(frame: Frame)
    | Write(count: nat)
    | WriteFails
    | ReadAnswer(room: bool)
    | AnswerFails
    | ReadHeader(memory: bool)
    | ReadPayload(count: nat)
    | ReadFails
    | Deliver(accepted: bool, answered: bool)

  predicate Enabled(c: Conn, s: Step) {
    match s
    case Start(f) => c.sender.Free? && FrameOk(f)
    case Write(count) =>
      c.sender.Writing? && c.frames != [] && c.sender.offset + count <= |Wire(c.frames[|c.frames| - 1])|
    case WriteFails => c.sender.Writing? && c.verdicts != []
    case ReadAnswer(_) => c.sender.Waiting? && c.heard < |c.answers| && c.verdicts != []
    case AnswerFails => c.sender.Waiting? && c.verdicts != []
    case ReadHeader(_) => c.reader.AtHeader? && c.consumed + HEADER <= |c.sent|
    case ReadPayload(count) =>
      c.reader.InPayload? && |c.reader.buf| + count <= c.reader.len && c.consumed + count <= |c.sent|
    case ReadFails => !c.reader.Stopped?
    case Deliver(_, _) => c.reader.InPayload? && |c.reader.buf| == c.reader.len
  }

  function Judge(c: Conn, v: Verdict): seq<Verdict>
    requires c.verdicts != []
  {
    c.verdicts[|c.verdicts| - 1 := v]
  }

  /** The receiver's look at a header. */
  function Header(c: Conn, memory: bool): Conn
    requires c.consumed + HEADER <= |c.sent|
  {
    var p := c.consumed;
    var d := c.(consumed := p + HEADER);
    if c.sent[p] == INIT_TYPE then d.(answers := c.answers + [ALREADY_STARTED], reader := Stopped)
    else if c.sent[p] != EVENT_TYPE then d.(answers := c.answers + [NOT_AN_EVENT], reader := Stopped)
    else if ReadI32(c.sent, p + 5) <= 0 || !memory then d.(reader := Stopped)
    else
      var len := ReadU32(c.sent, p + 5) + U32_LIMIT * ReadU32(c.sent, p + 9);
      d.(reader := InPayload(ReadU32(c.sent, p + 1), len, []))
  }

  function Apply(c: Conn, s: Step): Conn
    requires Enabled(c, s)
  {
    match s
    case Start(f) => c.(frames := c.frames + [f], verdicts := c.verdicts + [Underway], sender := Writing(0))
    case Write(count) =>
      var wire := Wire(c.frames[|c.frames| - 1]);
      var offset := c.sender.offset + count;
      c.(sent := c.sent + wire[c.sender.offset..offset],
         sender := if offset == |wire| then Waiting else Writing(offset))
    case WriteFails => c.(sender := Closed, verdicts := Judge(c, Unreported))
    case ReadAnswer(room) =>
      if c.answers[c.heard] == ACCEPTED then
        c.(heard := c.heard + 1, sender := if room then Free else Closed, verdicts := Judge(c, Success))
      else c.(heard := c.heard + 1, sender := Abandoned, verdicts := Judge(c, Failure))
    case AnswerFails => c.(sender := Closed, verdicts := Judge(c, Failure))
    case ReadHeader(memory) => Header(c, memory)
    case ReadPayload(count) =>
      c.(consumed := c.consumed + count,
         reader := c.reader.(buf := c.reader.buf + c.sent[c.consumed..c.consumed + count]))
    case ReadFails => c.(reader := Stopped)
    case Deliver(accepted, answered) =>
      var d := c.(handled := c.handled + [Handled(Frame(c.reader.stage, c.reader.buf), accepted)]);
      if answered then d.(answers := c.answers + [if accepted then ACCEPTED else REJECTED], reader := AtHeader)
      else d.(reader := Stopped)
  }

  // ----- the invariant -----

  function Stream(frames: seq<Frame>): seq<byte> {
    if frames == [] then [] else Stream(frames[..|frames| - 1]) + Wire(frames[|frames| - 1])
  }

  ghost predicate FramesOk(frames: seq<Frame>) {
    forall k | 0 <= k < |frames| :: FrameOk(frames[k])
  }

  /** The sender's side: everything before the last send is written, answered and successful. */
  ghost predicate SenderOk(c: Conn) {
    && |c.verdicts| == |c.frames| && FramesOk(c.frames)
    && (forall k | 0 <= k < |c.frames| - 1 :: c.verdicts[k] == Success)
    && (c.frames == [] ==> c.sender.Free?)
    && (c.sender.Writing? || c.sender.Waiting? ==> c.verdicts[|c.verdicts| - 1] == Underway)
    && (c.sender.Free? && c.frames != [] ==> c.verdicts[|c.verdicts| - 1] == Success)
    && (c.sender.Abandoned? ==> c.verdicts[|c.verdicts| - 1] == Failure)
    && (c.sender.Closed? ==> c.verdicts[|c.verdicts| - 1] != Underway)
    && c.heard == Answered(c)
  }

  /** How many sends have had their answer read. */
  function Answered(c: Conn): nat {
    if c.frames == [] then 0
    else if c.sender.Free? || c.sender.Abandoned? then |c.frames|
    else if c.sender.Closed? && c.verdicts != [] && c.verdicts[|c.verdicts| - 1] == Success then |c.frames|
    else |c.frames| - 1
  }

  /** What is on the wire: every earlier frame, and the last one as far as it has been written. */
  ghost predicate StreamOk(c: Conn) {
    && c.sent <= Stream(c.frames)
    && (c.sender.Writing? && c.frames != [] ==>
          && c.sender.offset < |Wire(c.frames[|c.frames| - 1])|
          && |c.sent| == |Stream(c.frames[..|c.frames| - 1])| + c.sender.offset)
    && (c.sender.Free? || c.sender.Waiting? ==> c.sent == Stream(c.frames))
    && (c.verdicts != [] && c.verdicts[|c.verdicts| - 1] == Unreported ==> |c.sent| < |Stream(c.frames)|)
  }

  /** The receiver's side: the frames it has handled are the first ones sent, byte for byte and wholly written; this
      stays so when it stops. */
  ghost predicate ReaderOk(c: Conn) {
    && |c.handled| <= |c.frames|
    && (forall k | 0 <= k < |c.handled| :: c.handled[k].frame == c.frames[k] && Takeable(c.frames[k]))
    && |Stream(c.frames[..|c.handled|])| <= |c.sent|
    && (c.reader.AtHeader? ==> c.consumed == |Stream(c.frames[..|c.handled|])|)
    && (c.reader.InPayload? ==>
          && |c.handled| < |c.frames| && Takeable(c.frames[|c.handled|])
          && c.consumed == |Stream(c.frames[..|c.handled|])| + HEADER + |c.reader.buf| <= |c.sent|
          && c.reader.stage == c.frames[|c.handled|].stage
          && c.reader.len == |c.frames[|c.handled|].payload|
          && c.reader.buf <= c.frames[|c.handled|].payload)
  }

  /** Each answer tells what became of the frame at its position; a reader that goes on has answered them all. */
  ghost predicate AnswersOk(c: Conn) {
    && c.heard <= |c.answers| <= |c.handled| <= |c.answers| + 1
    && (forall k | 0 <= k < |c.answers| :: c.answers[k] == if c.handled[k].accepted then ACCEPTED else REJECTED)
    && (!c.reader.Stopped? ==> |c.answers| == |c.handled|)
    && (forall k | 0 <= k < c.heard && k < |c.verdicts| :: c.verdicts[k] == Success <==> c.answers[k] == ACCEPTED)
  }

  ghost predicate ConnOk(c: Conn) {
    && |c.verdicts| == |c.frames| && (c.frames == [] ==> c.sender.Free?)
    && SenderOk(c) && StreamOk(c) && ReaderOk(c) && AnswersOk(c)
  }
}
