/** The loops that write a frame and read a payload, over any results of write and read. */
module Transfers {
  import opened Bytes
  import opened Connection
  import opened ConnectionProof

  /** What write or read may return: a count, EAGAIN, or an error (for read, also the end of the stream). */
  datatype Returned = Count(n: nat) | Again | Broken

  function Least(a: nat, b: nat): nat {
    if a <= b then a else b
  }

  /** How many bytes these results move, and whether they end in an error before all are moved. */
  datatype Carried = Carried(moved: nat, broken: bool)

  /** `left` bytes are wanted and `there` can be had. */
  function Carry(results: seq<Returned>, left: nat, there: nat): (r: Carried)
    ensures r.moved <= left && r.moved <= there
  {
    if results == [] || left == 0 then Carried(0, false)
    else
      match results[0]
      case Again => Carry(results[1..], left, there)
      case Broken => Carried(0, true)
      case Count(n) =>
        var k := Least(n, Least(left, there));
        var rest := Carry(results[1..], left - k, there - k);
        rest.(moved := k + rest.moved)
  }

  /** What one more result does. */
  lemma CarryNext(results: seq<Returned>, i: nat, left: nat, there: nat)
    requires i < |results| && left > 0
    ensures var rest := results[i + 1..];
            Carry(results[i..], left, there) ==
            match results[i]
            case Again => Carry(rest, left, there)
            case Broken => Carried(0, true)
            case Count(n) =>
              var k := Least(n, Least(left, there));
              Carried(k + Carry(rest, left - k, there - k).moved, Carry(rest, left - k, there - k).broken)
  {
    assert results[i..][1..] == results[i + 1..];
  }

  lemma CarryEnds(results: seq<Returned>, left: nat, there: nat)
    requires results == [] || left == 0
    ensures Carry(results, left, there) == Carried(0, false)
  {
  }

  /** How many bytes of its frame a writing sender has left. */
  function LeftToWrite(c: Conn): nat
    requires ConnOk(c) && c.sender.Writing?
  {
    |Wire(c.frames[|c.frames| - 1])| - c.sender.offset
  }

  /** The connection when `k` more bytes of its frame have been written. */
  function Wrote(c: Conn, k: nat, broken: bool): Conn
    requires ConnOk(c) && c.sender.Writing? && k <= LeftToWrite(c)
  {
    var wire, offset := Wire(c.frames[|c.frames| - 1]), c.sender.offset + k;
    c.(sent := c.sent + wire[c.sender.offset..offset],
       sender := if broken then Closed else if offset == |wire| then Waiting else Writing(offset),
       verdicts := if broken then Judge(c, Unreported) else c.verdicts)
  }

  lemma WroteNothing(c: Conn)
    requires ConnOk(c) && c.sender.Writing?
    ensures LeftToWrite(c) > 0 && c.verdicts != [] && c.frames != [] && Wrote(c, 0, false) == c
    ensures Steps(c, [], c)
  {
    hide Stream, Wire;
  }

  /** One more write, or an error, after `k` bytes. */
  lemma WroteMore(c: Conn, k: nat, m: nat)
    requires ConnOk(c) && c.sender.Writing? && k < LeftToWrite(c) && k + m <= LeftToWrite(c)
    ensures var d := Wrote(c, k, false);
            && d.sender == Writing(c.sender.offset + k) && Enabled(d, Write(m)) && Enabled(d, WriteFails)
            && Apply(d, Write(m)) == Wrote(c, k + m, false)
            && Apply(d, WriteFails) == Wrote(c, k, true)
  {
    hide Wire, ConnOk, Steps;
    WroteNothing(c);
    var wire, offset := Wire(c.frames[|c.frames| - 1]), c.sender.offset;
    Adjoin(c.sent, wire, offset, offset + k, offset + k + m);
  }

  /** The write loop of send_sync_event, as far as the given results of write reach: it writes what they allow, and ends
      with the whole frame written, or closed. */
  method WriteLoop(c: Conn, results: seq<Returned>) returns (d: Conn, ghost steps: seq<Step>)
    requires ConnOk(c) && c.sender.Writing?
    ensures Steps(c, steps, d) && ConnOk(d)
    ensures var r := Carry(results, LeftToWrite(c), LeftToWrite(c)); d == Wrote(c, r.moved, r.broken)
    ensures d.sender.Waiting? ==> d.sent == Stream(c.frames)
    ensures d.sender.Closed? ==> Broken in results && d.verdicts[|d.verdicts| - 1] == Unreported
    ensures d.sender.Waiting? || d.sender.Closed? || d.sender.Writing?
    ensures d.reader == c.reader && d.handled == c.handled && d.frames == c.frames
  {
    hide ConnOk, Wire, Stream, Enabled, Apply, Carry, Steps;
    d, steps := c, [];
    WroteNothing(c);
    var left := LeftToWrite(c);
    var done, i := 0, 0;
    assert results[0..] == results;
    while i < |results| && done < left
      invariant 0 <= i <= |results| && 0 <= done <= left
      invariant Steps(c, steps, d) && ConnOk(d) && d == Wrote(c, done, false)
      invariant var r := Carry(results[i..], left - done, left - done);
                Carry(results, left, left) == Carried(done + r.moved, r.broken)
    {
      CarryNext(results, i, left - done, left - done);
      var s := match results[i]
        case Count(n) => Write(Least(n, left - done))
        case _ => WriteFails;
      WroteMore(c, done, if s.Write? then s.count else 0);
      if !results[i].Again? {
        OneMore(c, steps, d, s);
        StepKeeps(d, s);
        steps := steps + [s];
        d := Apply(d, s);
      }
      if results[i].Broken? {
        return;
      }
      done := done + if s.Write? then s.count else 0;
      i := i + 1;
    }
    CarryEnds(results[i..], left - done, left - done);
    if d.sender.Waiting? {
      AllWritten(d);
    }
  }

  lemma AllWritten(c: Conn)
    requires ConnOk(c) && c.sender.Waiting?
    ensures c.sent == Stream(c.frames)
  {
  }

  /** The connection when `k` more bytes of the payload have been read. */
  function Gathered(c: Conn, k: nat, broken: bool): Conn
    requires c.reader.InPayload? && c.consumed + k <= |c.sent|
  {
    c.(consumed := c.consumed + k,
       reader := if broken then Stopped
                 else c.reader.(buf := c.reader.buf + c.sent[c.consumed..c.consumed + k]))
  }

  lemma GatheredMore(c: Conn, k: nat, m: nat)
    requires c.reader.InPayload? && c.consumed + k + m <= |c.sent| && |c.reader.buf| + k + m <= c.reader.len
    ensures var d := Gathered(c, k, false);
            && Enabled(d, ReadPayload(m)) && Enabled(d, ReadFails)
            && Apply(d, ReadPayload(m)) == Gathered(c, k + m, false)
            && Apply(d, ReadFails) == Gathered(c, k, true)
  {
    var p := c.consumed;
    Adjoin(c.reader.buf, c.sent, p, p + k, p + k + m);
  }

  /** The payload loop of read_event: it reads what the results and the stream allow, and ends with the frame's exact
      payload, or stopped. */
  method ReadLoop(c: Conn, results: seq<Returned>) returns (d: Conn, ghost steps: seq<Step>)
    requires ConnOk(c) && c.reader.InPayload?
    ensures Steps(c, steps, d) && ConnOk(d)
    ensures |c.reader.buf| <= c.reader.len && c.consumed <= |c.sent|
    ensures var r := Carry(results, c.reader.len - |c.reader.buf|, |c.sent| - c.consumed);
            d == Gathered(c, r.moved, r.broken)
    ensures |c.handled| < |c.frames| && d.handled == c.handled && d.frames == c.frames && d.sender == c.sender
    ensures d.reader.InPayload? && |d.reader.buf| == d.reader.len ==>
              Frame(d.reader.stage, d.reader.buf) == c.frames[|c.handled|]
    ensures d.reader.InPayload? || d.reader.Stopped?
    ensures d.reader.Stopped? ==> Broken in results
  {
    hide ConnOk, Wire, Stream, Enabled, Apply, Carry, Steps, Gathered;
    InPayloadFacts(c);
    d, steps := c, [];
    var left, there := c.reader.len - |c.reader.buf|, |c.sent| - c.consumed;
    var done, i := 0, 0;
    assert results[0..] == results;
    while i < |results| && done < left
      invariant 0 <= i <= |results| && 0 <= done <= left && done <= there
      invariant Steps(c, steps, d) && ConnOk(d) && d == Gathered(c, done, false)
      invariant var r := Carry(results[i..], left - done, there - done);
                Carry(results, left, there) == Carried(done + r.moved, r.broken)
    {
      CarryNext(results, i, left - done, there - done);
      var s := match results[i]
        case Count(n) => ReadPayload(Least(n, Least(left - done, there - done)))
        case _ => ReadFails;
      GatheredMore(c, done, if s.ReadPayload? then s.count else 0);
      if !results[i].Again? {
        OneMore(c, steps, d, s);
        StepKeeps(d, s);
        steps := steps + [s];
        d := Apply(d, s);
      }
      if results[i].Broken? {
        GatheredFacts(c, done, true);
        return;
      }
      done := done + if s.ReadPayload? then s.count else 0;
      i := i + 1;
    }
    CarryEnds(results[i..], left - done, there - done);
    GatheredFacts(c, done, false);
    if |d.reader.buf| == d.reader.len {
      PayloadRead(d);
    }
  }

  lemma GatheredFacts(c: Conn, k: nat, broken: bool)
    requires c.reader.InPayload? && c.consumed + k <= |c.sent|
    ensures var d := Gathered(c, k, broken);
            && d.handled == c.handled && d.frames == c.frames && d.sender == c.sender
            && if broken then d.reader.Stopped? else d.reader.InPayload?
  {
  }

  lemma InPayloadFacts(c: Conn)
    requires ConnOk(c) && c.reader.InPayload?
    ensures |c.reader.buf| <= c.reader.len && c.consumed <= |c.sent| && |c.handled| < |c.frames|
    ensures Gathered(c, 0, false) == c && Steps(c, [], c)
  {
    hide Wire, Stream;
  }
}
