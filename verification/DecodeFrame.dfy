/** The decoder never looks at, nor changes, the objects that existed before: only how many there are matters. */
module DecodeFrame {
  import opened Bytes
  import opened Marshal

  /** `after` extends `before`, and `other'` extends `other` by the same objects. */
  ghost predicate SameGrowth(before: Heap, after: Heap, other: Heap, other': Heap) {
    before <= after && other' == other + after[|before|..]
  }

  ghost predicate SameRead(r: Decoded, q: Decoded, h: Heap, g: Heap) {
    && r.Decoded? == q.Decoded?
    && (r.Decoded? ==>
          q.val == r.val && q.pos == r.pos && q.memory.seen == r.memory.seen
          && SameGrowth(h, r.memory.heap, g, q.memory.heap))
  }

  ghost predicate SameReads(r: DecodedEntries, q: DecodedEntries, h: Heap, g: Heap) {
    && r.DecodedEntries? == q.DecodedEntries?
    && (r.DecodedEntries? ==>
          q.entries == r.entries && q.memory.seen == r.memory.seen
          && SameGrowth(h, r.memory.heap, g, q.memory.heap))
  }

  lemma GrowthAgain(a: Heap, b: Heap, c: Heap, a': Heap, b': Heap, c': Heap)
    requires SameGrowth(a, b, a', b') && SameGrowth(b, c, b', c')
    ensures SameGrowth(a, c, a', c')
  {
    assert c[|a|..] == b[|a|..] + c[|b|..];
  }

  /** An object reserved, filled meanwhile, and stored at its place. */
  lemma GrowthOfReserved(h: Heap, g: Heap, o: Obj, after: Heap, after': Heap, x: Obj)
    requires |g| == |h| && SameGrowth(h + [o], after, g + [o], after')
    ensures |h| < |after| && |h| < |after'|
    ensures SameGrowth(h, after[|h| := x], g, after'[|h| := x])
  {
    assert (h + [o])[..|h|] == h;
    assert after[|h| := x][|h|..] == [x] + after[|h| + 1..];
    assert after'[|h| := x] == g + [x] + after[|h| + 1..];
  }

  lemma {:induction false} ValueFrame(buf: seq<byte>, p: nat, m: Memory, g: Heap)
    requires |g| == |m.heap|
    ensures SameRead(DecodeValue(buf, p, m), DecodeValue(buf, p, Memory(g, m.seen)), m.heap, g)
    decreases |buf|, |buf| - p, 0
  {
    hide DecodeTable, DecodeClosure;
    if p + 2 <= |buf| && (buf[p] == TTABLE || buf[p] == TFUNCTION) {
      TableFrame(buf, p, m, g);
      ClosureFrame(buf, p, m, g);
    }
  }

  lemma {:induction false} TableFrame(buf: seq<byte>, p: nat, m: Memory, g: Heap)
    requires |g| == |m.heap| && p + 2 <= |buf|
    ensures SameRead(DecodeTable(buf, p, m), DecodeTable(buf, p, Memory(g, m.seen)), m.heap, g)
    decreases |buf|, |buf| - p - 2, 3
  {
    hide DecodeEntries;
    if p + 6 <= |buf| && p + 6 + ReadU32(buf, p + 2) <= |buf| {
      var slice := buf[p + 6..p + 6 + ReadU32(buf, p + 2)];
      var o := Table([]);
      EntriesFrame(slice, 0, [], Allocate(m, o), g + [o]);
      var r := DecodeEntries(slice, 0, [], Allocate(m, o));
      var q := DecodeEntries(slice, 0, [], Allocate(Memory(g, m.seen), o));
      if r.DecodedEntries? {
        GrowthOfReserved(m.heap, g, o, r.memory.heap, q.memory.heap, Table(r.entries));
      }
    }
  }

  lemma {:induction false} ClosureFrame(buf: seq<byte>, p: nat, m: Memory, g: Heap)
    requires |g| == |m.heap| && p + 2 <= |buf|
    ensures SameRead(DecodeClosure(buf, p, m), DecodeClosure(buf, p, Memory(g, m.seen)), m.heap, g)
    decreases |buf|, |buf| - p - 2, 3
  {
    hide DecodeEntries, ListFrom;
    if p + 6 <= |buf| && p + 6 + ReadU32(buf, p + 2) + 4 <= |buf| {
      var mid := p + 6 + ReadU32(buf, p + 2);
      if mid + 4 + ReadU32(buf, mid) <= |buf| {
        var slice := buf[mid + 4..mid + 4 + ReadU32(buf, mid)];
        var o := Closure(buf[p + 6..mid], []);
        EntriesFrame(slice, 0, [], Allocate(m, o), g + [o]);
        var r := DecodeEntries(slice, 0, [], Allocate(m, o));
        var q := DecodeEntries(slice, 0, [], Allocate(Memory(g, m.seen), o));
        if r.DecodedEntries? {
          GrowthOfReserved(m.heap, g, o, r.memory.heap, q.memory.heap,
                           Closure(buf[p + 6..mid], ListFrom(r.entries, 1)));
        }
      }
    }
  }

  lemma {:induction false} EntriesFrame(buf: seq<byte>, p: nat, acc: seq<(Val, Val)>, m: Memory, g: Heap)
    requires |g| == |m.heap|
    ensures SameReads(DecodeEntries(buf, p, acc, m), DecodeEntries(buf, p, acc, Memory(g, m.seen)), m.heap, g)
    decreases |buf|, |buf| - p, 1
  {
    hide DecodeValue, SetEntry, SameGrowth;
    if p >= |buf| {
      NoGrowth(m.heap, g);
    } else {
      ValueFrame(buf, p, m, g);
      var k := DecodeValue(buf, p, m);
      var k' := DecodeValue(buf, p, Memory(g, m.seen));
      if k.Decoded? {
        GrowthMeans(m.heap, k.memory.heap, g, k'.memory.heap);
        ValueFrame(buf, k.pos, k.memory, k'.memory.heap);
        var v := DecodeValue(buf, k.pos, k.memory);
        var v' := DecodeValue(buf, k.pos, k'.memory);
        if v.Decoded? && !k.val.Nil? {
          GrowthMeans(k.memory.heap, v.memory.heap, k'.memory.heap, v'.memory.heap);
          GrowthAgain(m.heap, k.memory.heap, v.memory.heap, g, k'.memory.heap, v'.memory.heap);
          var acc' := SetEntry(acc, k.val, v.val);
          EntriesFrame(buf, v.pos, acc', v.memory, v'.memory.heap);
          var r := DecodeEntries(buf, v.pos, acc', v.memory);
          var r' := DecodeEntries(buf, v.pos, acc', v'.memory);
          if r.DecodedEntries? {
            GrowthAgain(m.heap, v.memory.heap, r.memory.heap, g, v'.memory.heap, r'.memory.heap);
          }
        }
      }
    }
  }

  lemma NoGrowth(h: Heap, g: Heap)
    ensures SameGrowth(h, h, g, g)
  {
  }

  lemma GrowthMeans(a: Heap, b: Heap, a': Heap, b': Heap)
    requires SameGrowth(a, b, a', b') && |a| == |a'|
    ensures |b| == |b'|
  {
  }
}
