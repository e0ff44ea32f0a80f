/** The wire formats on small inputs, spelled out byte by byte. */
module Formats {
  import opened Bytes
  import opened Marshal
  import opened Connection

  /** The double 1.0, which is the key of the first entry of a list. */
  const ONE: seq<byte> := [0, 0, 0, 0, 0, 0, 0xf0, 0x3f]

  lemma FirstIndex()
    ensures IndexBytes(1) == ONE
  {
    assert Exponent(1) == 0 && Fraction(1) == 0;
    assert IndexBits(1) == 0x3ff0_0000_0000_0000;
  }

  lemma SmallLength(n: nat)
    requires n < 256
    ensures U32(n) == [n, 0, 0, 0]
  {
  }

  /** Values that are no objects. */
  lemma ScalarFormat(h: Heap, bits: seq<byte>, text: seq<byte>, n: Numbering)
    requires HeapOk(h) && |bits| == 8 && |text| < 256
    ensures EncodeValue(h, Nil, n, false) == Encoded([0], n)
    ensures EncodeValue(h, Bool(false), n, false) == Encoded([1, 0], n)
    ensures EncodeValue(h, Bool(true), n, false) == Encoded([1, 1], n)
    ensures EncodeValue(h, Light(bits), n, false) == Encoded([2] + bits, n)
    ensures EncodeValue(h, Num(bits), n, false) == Encoded([3] + bits, n)
    ensures EncodeValue(h, Str(text), n, false) == Encoded([4, |text|, 0, 0, 0] + text, n)
  {
    SmallLength(|text|);
    assert [4] + ([|text|, 0, 0, 0] + text) == [4, |text|, 0, 0, 0] + text;
  }

  /** The entries of a table whose first entry is the table itself, which has number `k` by then. */
  lemma SelfEntry(h: Heap, id: nat, n: Numbering, k: nat)
    requires HeapOk(h) && id < |h| && h[id].Table? && id in n.seen && n.seen[id] == k < 256
    ensures var entries := [(Num(ONE), Ref(id))];
            EntriesOk(h, entries) && EncodeEntries(h, entries, n, false) == Encoded([3] + ONE + [5, 1, k, 0, 0, 0], n)
  {
    hide HeapOk, ObjOk, U32;
    var entries := [(Num(ONE), Ref(id))];
    SmallLength(k);
    assert entries[1..] == [];
    assert EncodeValue(h, entries[0].0, n, false) == Encoded([3] + ONE, n);
    assert EncodeValue(h, entries[0].1, n, false) == Encoded([5, 1, k, 0, 0, 0], n);
    assert EncodeEntries(h, entries[1..], n, false) == Encoded([], n);
    assert [3] + ONE + [5, 1, k, 0, 0, 0] + [] == [3] + ONE + [5, 1, k, 0, 0, 0];
  }

  lemma TableAsObject(h: Heap, id: nat, n: Numbering)
    requires HeapOk(h) && id < |h| && id !in n.seen && n.idx < 256 && h[id] == Table([(Num(ONE), Ref(id))])
    ensures EncodeValue(h, Ref(id), n, false) ==
            Encoded([5, 2] + ([15, 0, 0, 0] + ([3] + ONE + [5, 1, n.idx, 0, 0, 0])), Enter(n, id))
  {
    hide EncodeEntries, HeapOk, EntriesOk, DistinctKeys, U32;
    SelfEntry(h, id, Enter(n, id), n.idx);
    SmallLength(15);
    EnterShrinks(h, n, id);
  }

  lemma SelfTableOk()
    ensures HeapOk([Table([(Num(ONE), Ref(0))])])
  {
  }

  /** A table whose first entry is the table itself. */
  lemma TableFormat()
    ensures var h := [Table([(Num(ONE), Ref(0))])];
            && HeapOk(h)
            && Encode(h, Ref(0), [], false).Encoded?
            && Encode(h, Ref(0), [], false).bytes ==
               [0x8e] + ([5, 2] + ([15, 0, 0, 0] + ([3] + ONE + [5, 1, 1, 0, 0, 0])))
  {
    hide EncodeValue, HeapOk;
    var h := [Table([(Num(ONE), Ref(0))])];
    SelfTableOk();
    TableAsObject(h, 0, Numbering(map[], 1));
  }

  lemma OneUpvalue(h: Heap, n: Numbering)
    requires HeapOk(h)
    ensures UpEntries([Bool(true)]) == [(Num(ONE), Bool(true))]
    ensures EntriesOk(h, UpEntries([Bool(true)])) && DistinctKeys(UpEntries([Bool(true)]))
    ensures EncodeEntries(h, UpEntries([Bool(true)]), n, false) == Encoded([3] + ONE + [1, 1], n)
  {
    hide HeapOk, IndexBytes;
    FirstIndex();
    var entries := UpEntries([Bool(true)]);
    assert entries == [(Num(ONE), Bool(true))];
    assert entries[1..] == [];
    assert EncodeValue(h, entries[0].0, n, false) == Encoded([3] + ONE, n);
    assert EncodeValue(h, entries[0].1, n, false) == Encoded([1, 1], n);
    assert EncodeEntries(h, entries[1..], n, false) == Encoded([], n);
    assert [3] + ONE + [1, 1] + [] == [3] + ONE + [1, 1];
  }

  /** Any closure of one byte of code and with one upvalue, on any heap. */
  lemma ClosureAsObject(h: Heap, id: nat, n: Numbering)
    requires HeapOk(h) && id < |h| && id !in n.seen && h[id] == Closure([0x1b], [Bool(true)])
    ensures EncodeValue(h, Ref(id), n, false) ==
            Encoded([6, 2] + ([1, 0, 0, 0] + [0x1b]) + ([11, 0, 0, 0] + ([3] + ONE + [1, 1])), Enter(n, id))
  {
    hide IndexBytes, UpEntries, EncodeEntries, HeapOk, EntriesOk, DistinctKeys, Enter, U32;
    OneUpvalue(h, Enter(n, id));
    SmallLength(1);
    SmallLength(11);
    EnterShrinks(h, n, id);
  }

  /** A closure with one upvalue. */
  lemma ClosureFormat()
    ensures var h := [Closure([0x1b], [Bool(true)])];
            && HeapOk(h)
            && Encode(h, Ref(0), [], false).Encoded?
            && Encode(h, Ref(0), [], false).bytes ==
               [0x8e] + ([6, 2] + ([1, 0, 0, 0] + [0x1b]) + ([11, 0, 0, 0] + ([3] + ONE + [1, 1])))
  {
    hide IndexBytes, UpEntries, EncodeEntries, EncodeValue;
    var h := [Closure([0x1b], [Bool(true)])];
    OneUpvalue([], Numbering(map[], 1));
    assert HeapOk(h) by {
      assert EntriesOk(h, UpEntries([Bool(true)]));
    }
    ClosureAsObject(h, 0, Numbering(map[], 1));
  }

  /** A userdata that is the first constant of both sides. */
  lemma ConstantFormat()
    ensures var h := [Opaque(7)];
            && HeapOk(h)
            && Encode(h, Ref(0), [Ref(0)], false).Encoded?
            && Encode(h, Ref(0), [Ref(0)], false).bytes == [0x8e, 7, 1, 1, 0, 0, 0]
  {
    SmallLength(1);
    assert ConstantSeen([Ref(0)]) == map[0 := 1] by { assert [Ref(0)][..0] == []; }
  }

  /** A frame of the send protocol. */
  lemma FrameFormat(f: Frame)
    requires f.stage < 256 && |f.payload| < 256
    ensures Wire(f) == [28, f.stage, 0, 0, 0, |f.payload|, 0, 0, 0, 0, 0, 0, 0] + f.payload
  {
    SmallLength(f.stage);
    SmallLength(|f.payload|);
    SmallLength(0);
  }

  /** The one-byte answers, also those to something that is no event. */
  lemma AnswerFormat(c: Conn, ok: bool, memory: bool)
    ensures Enabled(c, Deliver(ok, true)) ==>
              Apply(c, Deliver(ok, true)).answers == c.answers + [if ok then 1 else 2]
    ensures Enabled(c, ReadHeader(memory)) && c.sent[c.consumed] != 28 ==>
              var d := Apply(c, ReadHeader(memory));
              d.reader == Stopped && d.answers == c.answers + [if c.sent[c.consumed] == 27 then 4 else 3]
  {
  }
}
