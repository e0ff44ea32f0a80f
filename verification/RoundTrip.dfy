/** Decoding what the encoder wrote rebuilds the same graph. */
module RoundTrip {
  import opened Bytes
  import opened Marshal
  import opened NumberingFacts

  // ----- how numbers become values on the decoder's side -----

  /** The decoder's constants, the size of its heap at the start, and the constant numbers in use. */
  datatype Link = Link(constants: seq<Val>, base: nat, used: set<nat>)

  ghost predicate LinkOk(l: Link) {
    && (forall x | x in l.used :: 1 <= x <= |l.constants| && l.constants[x - 1].Ref? && l.constants[x - 1].id < l.base)
    && (forall x, y | x in l.used && y in l.used && x != y :: l.constants[x - 1] != l.constants[y - 1])
  }

  function Name(l: Link, x: nat): Val {
    if 1 <= x <= |l.constants| then l.constants[x - 1]
    else if x > |l.constants| then Ref(l.base + x - |l.constants| - 1)
    else Nil
  }

  /** Where the object with number `x` lives in the decoder's heap. */
  function Address(l: Link, x: nat): nat
    requires x > |l.constants|
  {
    l.base + x - |l.constants| - 1
  }

  /** The decoder's SEEN table when its counter is `idx`. */
  function Names(l: Link, idx: nat): seq<Val>
    requires idx > |l.constants|
  {
    l.constants + seq(idx - 1 - |l.constants|, k requires 0 <= k => Ref(l.base + k))
  }

  lemma NamesLookup(l: Link, idx: nat, heap: Heap, x: nat)
    requires |l.constants| < idx && 1 <= x < idx
    ensures Lookup(Memory(heap, Names(l, idx)), x) == Name(l, x)
  {
  }

  lemma NamesNext(l: Link, idx: nat)
    requires |l.constants| < idx
    ensures Names(l, idx + 1) == Names(l, idx) + [Ref(Address(l, idx))]
  {
  }

  ghost predicate Linked(l: Link, n: Numbering) {
    && LinkOk(l) && Injective(n) && |l.constants| < n.idx
    && (forall a | a in n.seen :: n.seen[a] in l.used || n.seen[a] > |l.constants|)
  }

  lemma GrownLinked(h: Heap, l: Link, n: Numbering, m: Numbering)
    requires Linked(l, n) && Grown(h, n, m)
    ensures Linked(l, m)
  {
  }

  lemma LinkedMeans(l: Link, n: Numbering)
    requires Linked(l, n)
    ensures Injective(n) && |l.constants| < n.idx
  {
  }

  /** Different numbers in use name different objects. */
  lemma NameInjective(l: Link, n: Numbering, a: nat, b: nat)
    requires Linked(l, n) && a in n.seen && b in n.seen && a != b
    ensures Name(l, n.seen[a]) != Name(l, n.seen[b])
    ensures Name(l, n.seen[a]).Ref?
  {
  }

  // ----- renaming -----

  function Ren(l: Link, seen: map<nat, nat>, v: Val): Val {
    if v.Ref? && v.id in seen then Name(l, seen[v.id]) else v
  }

  function RenEntry(l: Link, seen: map<nat, nat>, e: (Val, Val)): (Val, Val) {
    (Ren(l, seen, e.0), Ren(l, seen, e.1))
  }

  function RenEntries(l: Link, seen: map<nat, nat>, entries: seq<(Val, Val)>): (r: seq<(Val, Val)>)
    ensures |r| == |entries|
    ensures forall k | 0 <= k < |entries| :: r[k] == RenEntry(l, seen, entries[k])
  {
    seq(|entries|, k requires 0 <= k < |entries| => RenEntry(l, seen, entries[k]))
  }

  function RenObj(l: Link, seen: map<nat, nat>, o: Obj): Obj {
    match o
    case Table(entries) => Table(RenEntries(l, seen, entries))
    case Closure(code, upvals) =>
      Closure(code, RenAll(l, seen, upvals))
    case Opaque(_) => o
  }

  lemma RenStable(l: Link, n: Numbering, m: Numbering, v: Val)
    requires Extends(n, m) && Covered(n.seen, v)
    ensures Ren(l, m.seen, v) == Ren(l, n.seen, v)
  {
  }

  lemma RenEntriesStable(l: Link, n: Numbering, m: Numbering, entries: seq<(Val, Val)>)
    requires Extends(n, m) && CoveredAll(n.seen, entries)
    ensures RenEntries(l, m.seen, entries) == RenEntries(l, n.seen, entries)
  {
    forall k | 0 <= k < |entries| ensures RenEntry(l, m.seen, entries[k]) == RenEntry(l, n.seen, entries[k]) {
      RenStable(l, n, m, entries[k].0);
      RenStable(l, n, m, entries[k].1);
    }
  }

  lemma RenObjStable(h: Heap, l: Link, n: Numbering, m: Numbering, id: nat)
    requires Extends(n, m) && Complete(h, n.seen, id)
    ensures RenObj(l, m.seen, h[id]) == RenObj(l, n.seen, h[id])
  {
    RenEntriesStable(l, n, m, Body(h[id]));
    if h[id].Closure? {
      var upvals := h[id].upvals;
      forall k | 0 <= k < |upvals| ensures Ren(l, m.seen, upvals[k]) == Ren(l, n.seen, upvals[k]) {
        assert Body(h[id])[k].1 == upvals[k];
        RenStable(l, n, m, upvals[k]);
      }
      assert RenAll(l, m.seen, upvals) == RenAll(l, n.seen, upvals);
    }
  }

  /** Renaming keeps keys apart, so lua_settable appends every decoded entry. */
  lemma RenKeyInjective(l: Link, n: Numbering, a: Val, b: Val)
    requires Linked(l, n) && Covered(n.seen, a) && Covered(n.seen, b) && a != b
    ensures Ren(l, n.seen, a) != Ren(l, n.seen, b)
  {
    if a.Ref? && b.Ref? {
      NameInjective(l, n, a.id, b.id);
    } else if a.Ref? {
      assert n.seen[a.id] in l.used || n.seen[a.id] > |l.constants|;
      assert Name(l, n.seen[a.id]).Ref?;
    } else if b.Ref? {
      assert n.seen[b.id] in l.used || n.seen[b.id] > |l.constants|;
      assert Name(l, n.seen[b.id]).Ref?;
    }
  }

  // ----- the decoder's heap -----

  function HeapSize(l: Link, idx: nat): nat
    requires idx > |l.constants|
  {
    Address(l, idx)
  }

  /** The decoder's heap `e`, grown from `d` while the numbering grew from `n` to `m`, holds a renamed copy
      of every object numbered in between. */
  ghost predicate Rebuilt(h: Heap, l: Link, n: Numbering, m: Numbering, d: Heap, e: Heap)
    requires n.idx > |l.constants| && m.idx > |l.constants|
  {
    && Grown(h, n, m)
    && |d| == HeapSize(l, n.idx) && |e| == HeapSize(l, m.idx) && d <= e
    && (forall a | a in m.seen && a !in n.seen ::
          m.seen[a] > |l.constants| && Address(l, m.seen[a]) < |e| &&
          e[Address(l, m.seen[a])] == RenObj(l, m.seen, h[a]))
  }

  lemma RebuiltMeans(h: Heap, l: Link, n: Numbering, m: Numbering, d: Heap, e: Heap)
    requires n.idx > |l.constants| && m.idx > |l.constants| && Rebuilt(h, l, n, m, d, e)
    ensures |e| == HeapSize(l, m.idx) && d <= e
  {
  }

  lemma RebuiltAgain(h: Heap, l: Link, a: Numbering, b: Numbering, c: Numbering, d: Heap, e: Heap, f: Heap)
    requires a.idx > |l.constants| && b.idx > |l.constants| && c.idx > |l.constants|
    requires Rebuilt(h, l, a, b, d, e) && Rebuilt(h, l, b, c, e, f)
    ensures Rebuilt(h, l, a, c, d, f)
  {
    GrownAgain(h, a, b, c);
    forall x | x in c.seen && x !in a.seen
      ensures c.seen[x] > |l.constants| && Address(l, c.seen[x]) < |f|
      ensures f[Address(l, c.seen[x])] == RenObj(l, c.seen, h[x])
    {
      if x in b.seen {
        RenObjStable(h, l, b, c, x);
        assert f[Address(l, b.seen[x])] == e[Address(l, b.seen[x])];
      }
    }
  }

  /** Storing the finished object at the place that was reserved for it. */
  lemma RebuiltObject(h: Heap, l: Link, n: Numbering, id: nat, m: Numbering, d: Heap, reserved: Obj, e: Heap)
    requires Linked(l, n) && id < |h| && id !in n.seen && |d| == HeapSize(l, n.idx)
    requires m.idx > |l.constants|
    requires Rebuilt(h, l, Enter(n, id), m, d + [reserved], e)
    requires Complete(h, m.seen, id)
    ensures Grown(h, n, m) && |d| < |e|
    ensures Ren(l, m.seen, Ref(id)) == Ref(|d|)
    ensures Rebuilt(h, l, n, m, d, e[|d| := RenObj(l, m.seen, h[id])])
  {
    GrownFromEntry(h, n, id, m);
    var f := e[|d| := RenObj(l, m.seen, h[id])];
    assert (d + [reserved])[..|d|] == d;
    assert Extends(Enter(n, id), m) && m.seen[id] == n.idx;
    forall x | x in m.seen && x !in n.seen
      ensures m.seen[x] > |l.constants| && Address(l, m.seen[x]) < |f|
      ensures f[Address(l, m.seen[x])] == RenObj(l, m.seen, h[x])
    {
      if x != id {
        assert x !in Enter(n, id).seen;
        assert m.seen[x] != m.seen[id];
      }
    }
  }

  // ----- decoding after encoding -----

  /** Reading back at position `p` gives the renamed value, stops right behind it, and leaves the decoder's
      counter and heap where the encoder's numbering says. */
  ghost predicate ReadsBack(h: Heap, v: Val, n: Numbering, r: Encoded, l: Link, buf: seq<byte>, p: nat, d: Heap)
    requires n.idx > |l.constants| && r.Encoded? && r.numbering.idx > |l.constants|
  {
    var m := r.numbering;
    var back := DecodeValue(buf, p, Memory(d, Names(l, n.idx)));
    && back.Decoded?
    && back.val == Ren(l, m.seen, v)
    && back.pos == p + |r.bytes|
    && back.memory.seen == Names(l, m.idx)
    && Rebuilt(h, l, n, m, d, back.memory.heap)
  }

  predicate At(buf: seq<byte>, p: nat, bytes: seq<byte>) {
    p + |bytes| <= |buf| && buf[p..p + |bytes|] == bytes
  }

  lemma AtParts(buf: seq<byte>, p: nat, a: seq<byte>, b: seq<byte>)
    requires At(buf, p, a + b)
    ensures At(buf, p, a) && At(buf, p + |a|, b)
  {
    assert buf[p..p + |a|] == buf[p..p + |a + b|][..|a|] == (a + b)[..|a|] == a;
    assert buf[p + |a|..p + |a + b|] == buf[p..p + |a + b|][|a|..] == (a + b)[|a|..] == b;
  }

  lemma AtSlice(buf: seq<byte>, p: nat, bytes: seq<byte>)
    requires At(buf, p, Slice(bytes)) && !TooLong(bytes)
    ensures ReadU32(buf, p) == |bytes| && At(buf, p + 4, bytes)
  {
    AtParts(buf, p, U32(|bytes|), bytes);
    ReadWithin(buf, p, |bytes|);
  }

  lemma AtHead(buf: seq<byte>, p: nat, x: byte, y: byte, rest: seq<byte>)
    requires At(buf, p, [x, y] + rest)
    ensures buf[p] == x && buf[p + 1] == y && At(buf, p + 2, rest)
  {
    AtParts(buf, p, [x, y], rest);
    assert buf[p..p + 2][0] == x && buf[p..p + 2][1] == y;
  }

  lemma SameIsRebuilt(h: Heap, l: Link, n: Numbering, d: Heap)
    requires Linked(l, n) && |d| == HeapSize(l, n.idx)
    ensures Rebuilt(h, l, n, n, d, d)
  {
  }

  lemma ScalarReadsBack(h: Heap, v: Val, n: Numbering, nowrap: bool, l: Link, buf: seq<byte>, p: nat, d: Heap)
    requires HeapOk(h) && ValOk(h, v) && Linked(l, n) && !v.Ref?
    requires EncodeValue(h, v, n, nowrap).Encoded? && At(buf, p, EncodeValue(h, v, n, nowrap).bytes)
    requires |d| == HeapSize(l, n.idx)
    ensures ReadsBack(h, v, n, EncodeValue(h, v, n, nowrap), l, buf, p, d)
  {
    hide HeapOk, Linked, Grown, Injective, Rebuilt, Names, ReadU32, U32, DecodeTable, DecodeClosure, EncodeObject;
    SameIsRebuilt(h, l, n, d);
    match v
    case Nil =>
      assert buf[p..p + 1][0] == TNIL;
    case Bool(b) =>
      var y: byte := if b then 1 else 0;
      assert [TBOOLEAN, y] == [TBOOLEAN, y] + [];
      AtHead(buf, p, TBOOLEAN, y, []);
    case Light(ptr) =>
      AtParts(buf, p, [TLIGHTUSERDATA], ptr);
      assert buf[p..p + 1][0] == TLIGHTUSERDATA;
    case Num(bits) =>
      AtParts(buf, p, [TNUMBER], bits);
      assert buf[p..p + 1][0] == TNUMBER;
    case Str(text) =>
      AtParts(buf, p, [TSTRING], Slice(text));
      assert buf[p..p + 1][0] == TSTRING;
      AtSlice(buf, p + 1, text);
  }

  lemma BackReferenceReadsBack(h: Heap, id: nat, n: Numbering, nowrap: bool, l: Link, buf: seq<byte>, p: nat, d: Heap)
    requires HeapOk(h) && id < |h| && Linked(l, n) && id in n.seen && n.idx <= INT_LIMIT
    requires At(buf, p, EncodeValue(h, Ref(id), n, nowrap).bytes)
    requires |d| == HeapSize(l, n.idx)
    ensures ReadsBack(h, Ref(id), n, EncodeValue(h, Ref(id), n, nowrap), l, buf, p, d)
  {
    SameIsRebuilt(h, l, n, d);
    assert ObjOk(h, h[id]);
    AtHead(buf, p, Kind(h[id]), TREF, U32(n.seen[id]));
    ReadWithin(buf, p + 2, n.seen[id]);
    NamesLookup(l, n.idx, d, n.seen[id]);
  }

  // ----- upvalues -----

  lemma UpvalKey(l: Link, seen: map<nat, nat>, upvals: seq<Val>, k: nat)
    requires |upvals| <= 255 && 1 <= k <= 255
    ensures var entries := RenEntries(l, seen, UpEntries(upvals));
            var j := KeyIndex(entries, Num(IndexBytes(k)));
            if k <= |upvals| then j == k - 1 && entries[j].1 == Ren(l, seen, upvals[k - 1]) else j < 0
  {
    hide IndexBytes;
    var entries := RenEntries(l, seen, UpEntries(upvals));
    var j := KeyIndex(entries, Num(IndexBytes(k)));
    if j >= 0 {
      assert entries[j] == RenEntry(l, seen, UpEntries(upvals)[j]);
      IndexBytesInjective(j + 1, k);
    }
    if k <= |upvals| {
      assert entries[k - 1] == RenEntry(l, seen, UpEntries(upvals)[k - 1]);
    }
  }

  function RenAll(l: Link, seen: map<nat, nat>, vs: seq<Val>): (r: seq<Val>)
    ensures |r| == |vs|
  {
    seq(|vs|, k requires 0 <= k < |vs| => Ren(l, seen, vs[k]))
  }

  lemma ListAt(entries: seq<(Val, Val)>, k: nat)
    requires 1 <= k <= |entries| < INDEX_LIMIT && KeyIndex(entries, Num(IndexBytes(k))) >= 0
    ensures ListFrom(entries, k) == [entries[KeyIndex(entries, Num(IndexBytes(k)))].1] + ListFrom(entries, k + 1)
  {
    hide IndexBytes, KeyIndex;
  }

  lemma {:induction false} UpvalsBack(l: Link, seen: map<nat, nat>, upvals: seq<Val>, k: nat)
    requires |upvals| <= 255 && 1 <= k <= |upvals| + 1
    ensures ListFrom(RenEntries(l, seen, UpEntries(upvals)), k) == RenAll(l, seen, upvals)[k - 1..]
    decreases |upvals| - k + 1
  {
    hide IndexBytes, KeyIndex, UpEntries;
    if k <= |upvals| {
      UpvalKey(l, seen, upvals, k);
      ListAt(RenEntries(l, seen, UpEntries(upvals)), k);
      UpvalsBack(l, seen, upvals, k + 1);
      assert RenAll(l, seen, upvals)[k - 1..] == [RenAll(l, seen, upvals)[k - 1]] + RenAll(l, seen, upvals)[k..];
    }
  }

  lemma ClosureBack(h: Heap, l: Link, seen: map<nat, nat>, id: nat)
    requires id < |h| && ObjOk(h, h[id]) && h[id].Closure?
    ensures RenObj(l, seen, h[id]) == Closure(h[id].code, ListFrom(RenEntries(l, seen, Body(h[id])), 1))
  {
    UpvalsBack(l, seen, h[id].upvals, 1);
    assert RenAll(l, seen, h[id].upvals)[0..] == RenAll(l, seen, h[id].upvals);
  }

  // ----- one unfolding of the decoder -----

  lemma TableLayout(buf: seq<byte>, p: nat, bytes: seq<byte>)
    requires At(buf, p, [TTABLE, TVAL] + Slice(bytes)) && !TooLong(bytes)
    ensures p + 6 + |bytes| <= |buf| && buf[p] == TTABLE && buf[p + 1] == TVAL
    ensures ReadU32(buf, p + 2) == |bytes| && buf[p + 6..p + 6 + |bytes|] == bytes
    ensures |[TTABLE, TVAL] + Slice(bytes)| == 6 + |bytes|
  {
    AtHead(buf, p, TTABLE, TVAL, Slice(bytes));
    AtSlice(buf, p + 2, bytes);
  }

  lemma TableDispatch(buf: seq<byte>, p: nat, m: Memory)
    requires p + 2 <= |buf| && buf[p] == TTABLE && buf[p + 1] == TVAL
    ensures DecodeValue(buf, p, m) == DecodeTable(buf, p, m)
  {
    hide DecodeTable, DecodeClosure, DecodeEntries;
  }

  lemma ClosureDispatch(buf: seq<byte>, p: nat, m: Memory)
    requires p + 2 <= |buf| && buf[p] == TFUNCTION && buf[p + 1] == TVAL
    ensures DecodeValue(buf, p, m) == DecodeClosure(buf, p, m)
  {
    hide DecodeTable, DecodeClosure, DecodeEntries;
  }

  lemma TableUnfolds(buf: seq<byte>, p: nat, m: Memory, end: nat)
    requires p + 6 <= |buf| && end == p + 6 + ReadU32(buf, p + 2) && end <= |buf|
    requires buf[p] == TTABLE && buf[p + 1] == TVAL
    requires DecodeEntries(buf[p + 6..end], 0, [], Allocate(m, Table([]))).DecodedEntries?
    ensures var inner := DecodeEntries(buf[p + 6..end], 0, [], Allocate(m, Table([])));
            DecodeTable(buf, p, m) ==
            Decoded(Ref(|m.heap|), end, inner.memory.(heap := inner.memory.heap[|m.heap| := Table(inner.entries)]))
    ensures DecodeValue(buf, p, m) == DecodeTable(buf, p, m)
  {
    hide DecodeEntries, DecodeValue, ReadU32;
    TableDispatch(buf, p, m);
  }

  lemma ClosureLayout(buf: seq<byte>, p: nat, code: seq<byte>, bytes: seq<byte>)
    requires At(buf, p, [TFUNCTION, TVAL] + Slice(code) + Slice(bytes)) && !TooLong(code) && !TooLong(bytes)
    ensures var mid := p + 6 + |code|;
            && mid + 4 + |bytes| <= |buf| && buf[p] == TFUNCTION && buf[p + 1] == TVAL
            && ReadU32(buf, p + 2) == |code| && buf[p + 6..mid] == code
            && ReadU32(buf, mid) == |bytes| && buf[mid + 4..mid + 4 + |bytes|] == bytes
    ensures |[TFUNCTION, TVAL] + Slice(code) + Slice(bytes)| == 10 + |code| + |bytes|
  {
    var tags: seq<byte> := [TFUNCTION, TVAL];
    assert tags + Slice(code) + Slice(bytes) == tags + (Slice(code) + Slice(bytes));
    AtHead(buf, p, TFUNCTION, TVAL, Slice(code) + Slice(bytes));
    AtParts(buf, p + 2, Slice(code), Slice(bytes));
    AtSlice(buf, p + 2, code);
    AtSlice(buf, p + 6 + |code|, bytes);
  }

  lemma ClosureUnfolds(buf: seq<byte>, p: nat, m: Memory, mid: nat, end: nat)
    requires p + 6 <= |buf| && mid == p + 6 + ReadU32(buf, p + 2) && mid + 4 <= |buf|
    requires end == mid + 4 + ReadU32(buf, mid) && end <= |buf|
    requires buf[p] == TFUNCTION && buf[p + 1] == TVAL
    requires DecodeEntries(buf[mid + 4..end], 0, [], Allocate(m, Closure(buf[p + 6..mid], []))).DecodedEntries?
    ensures var code := buf[p + 6..mid];
            var inner := DecodeEntries(buf[mid + 4..end], 0, [], Allocate(m, Closure(code, [])));
            DecodeClosure(buf, p, m) ==
            Decoded(Ref(|m.heap|), end,
                    inner.memory.(heap := inner.memory.heap[|m.heap| := Closure(code, ListFrom(inner.entries, 1))]))
    ensures DecodeValue(buf, p, m) == DecodeClosure(buf, p, m)
  {
    hide DecodeEntries, DecodeValue, ReadU32, ListFrom;
    ClosureDispatch(buf, p, m);
  }

  // ----- the induction -----

  lemma {:induction false} ValueReadsBack(h: Heap, v: Val, n: Numbering, nowrap: bool, l: Link, buf: seq<byte>, p: nat,
                                          d: Heap)
    requires HeapOk(h) && ValOk(h, v) && Linked(l, n)
    requires EncodeValue(h, v, n, nowrap).Encoded? && At(buf, p, EncodeValue(h, v, n, nowrap).bytes)
    requires EncodeValue(h, v, n, nowrap).numbering.idx <= INT_LIMIT
    requires |d| == HeapSize(l, n.idx)
    ensures Grown(h, n, EncodeValue(h, v, n, nowrap).numbering)
    ensures ReadsBack(h, v, n, EncodeValue(h, v, n, nowrap), l, buf, p, d)
    decreases |Unseen(h, n)|, 0
  {
    hide DecodeValue, EntriesOk, DistinctKeys, Linked, Injective, Grown, Rebuilt, Names, EncodeObject;
    LinkedMeans(l, n);
    ValueGrows(h, v, n, nowrap);
    if !v.Ref? {
      ScalarReadsBack(h, v, n, nowrap, l, buf, p, d);
    } else if v.id in n.seen {
      BackReferenceReadsBack(h, v.id, n, nowrap, l, buf, p, d);
    } else {
      EnterShrinks(h, n, v.id);
      assert ObjOk(h, h[v.id]);
      if h[v.id].Table? {
        TableReadsBack(h, v.id, n, nowrap, l, buf, p, d);
      } else if h[v.id].Opaque? {
        OpaqueFails(h, v.id, n, nowrap);
      } else {
        ClosureReadsBack(h, v.id, n, nowrap, l, buf, p, d);
      }
    }
  }

  lemma EnterLinked(l: Link, n: Numbering, id: nat)
    requires Linked(l, n) && id !in n.seen
    ensures Linked(l, Enter(n, id))
    ensures |l.constants| < n.idx && Injective(Enter(n, id))
  {
    EnterInjective(n, id);
  }

  lemma {:induction false} TableReadsBack(h: Heap, id: nat, n: Numbering, nowrap: bool, l: Link, buf: seq<byte>,
                                          p: nat, d: Heap)
    requires HeapOk(h) && id < |h| && ObjOk(h, h[id]) && Linked(l, n) && id !in n.seen && h[id].Table?
    requires |Unseen(h, Enter(n, id))| < |Unseen(h, n)|
    requires EncodeObject(h, id, n, nowrap).Encoded? && At(buf, p, EncodeObject(h, id, n, nowrap).bytes)
    requires EncodeObject(h, id, n, nowrap).numbering.idx <= INT_LIMIT
    requires |d| == HeapSize(l, n.idx)
    ensures EncodeObject(h, id, n, nowrap).numbering.idx > |l.constants|
    ensures ReadsBack(h, Ref(id), n, EncodeObject(h, id, n, nowrap), l, buf, p, d)
    decreases |Unseen(h, Enter(n, id))|, 1 + |Body(h[id])|, 2
  {
    hide DecodeValue, DecodeTable, DecodeClosure, DecodeEntries, EncodeEntries, EncodeValue, HeapOk, EntriesOk,
         DistinctKeys, Linked, Injective, Grown, Rebuilt, Complete, CoveredAll, RenEntries, Names;
    var n1 := Enter(n, id);
    var inner := EncodeEntries(h, h[id].entries, n1, nowrap);
    LinkedMeans(l, n);
    BodyReadsBack(h, id, n, nowrap, l, Table([]), d);
    TableLayout(buf, p, inner.bytes);
    TableUnfolds(buf, p, Memory(d, Names(l, n.idx)), p + 6 + |inner.bytes|);
  }

  lemma ClosureEncoding(h: Heap, id: nat, n: Numbering, nowrap: bool)
    requires HeapOk(h) && id < |h| && ObjOk(h, h[id]) && id !in n.seen && h[id].Closure?
    requires |Unseen(h, Enter(n, id))| < |Unseen(h, n)| && EncodeObject(h, id, n, nowrap).Encoded?
    ensures var code := h[id].code;
            var inner := EncodeEntries(h, Body(h[id]), Enter(n, id), nowrap);
            && inner.Encoded? && !TooLong(code) && !TooLong(inner.bytes)
            && EncodeObject(h, id, n, nowrap) ==
               Encoded([TFUNCTION, TVAL] + Slice(code) + Slice(inner.bytes), inner.numbering)
  {
    hide EncodeEntries, HeapOk, EntriesOk, DistinctKeys, Slice;
  }

  lemma {:induction false} ClosureReadsBack(h: Heap, id: nat, n: Numbering, nowrap: bool, l: Link, buf: seq<byte>,
                                            p: nat, d: Heap)
    requires HeapOk(h) && id < |h| && ObjOk(h, h[id]) && Linked(l, n) && id !in n.seen && h[id].Closure?
    requires |Unseen(h, Enter(n, id))| < |Unseen(h, n)|
    requires EncodeObject(h, id, n, nowrap).Encoded? && At(buf, p, EncodeObject(h, id, n, nowrap).bytes)
    requires EncodeObject(h, id, n, nowrap).numbering.idx <= INT_LIMIT
    requires |d| == HeapSize(l, n.idx)
    ensures EncodeObject(h, id, n, nowrap).numbering.idx > |l.constants|
    ensures ReadsBack(h, Ref(id), n, EncodeObject(h, id, n, nowrap), l, buf, p, d)
    decreases |Unseen(h, Enter(n, id))|, 1 + |Body(h[id])|, 2
  {
    hide DecodeValue, DecodeTable, DecodeClosure, DecodeEntries, EncodeEntries, EncodeValue, EncodeObject, HeapOk,
         EntriesOk, DistinctKeys, Linked, Injective, Grown, Rebuilt, Complete, CoveredAll, RenEntries, Names,
         UpEntries, ListFrom, IndexBytes, RenAll, ReadU32, U32;
    var code := h[id].code;
    var inner := EncodeEntries(h, Body(h[id]), Enter(n, id), nowrap);
    ClosureEncoding(h, id, n, nowrap);
    LinkedMeans(l, n);
    BodyReadsBack(h, id, n, nowrap, l, Closure(code, []), d);
    ClosureLayout(buf, p, code, inner.bytes);
    ClosureUnfolds(buf, p, Memory(d, Names(l, n.idx)), p + 6 + |code|, p + 10 + |code| + |inner.bytes|);
    ClosureBack(h, l, inner.numbering.seen, id);
  }

  lemma NothingDone(l: Link, seen: map<nat, nat>, body: seq<(Val, Val)>, bytes: seq<byte>)
    ensures RenEntries(l, seen, []) == [] && CoveredAll(seen, []) && [] + body == body && At(bytes, 0, bytes)
  {
  }

  lemma IsComplete(h: Heap, seen: map<nat, nat>, id: nat)
    requires id < |h| && ObjOk(h, h[id]) && !h[id].Opaque? && CoveredAll(seen, Body(h[id]))
    ensures Complete(h, seen, id)
  {
  }

  /** The body of an object, decoded behind the object that was reserved for it. */
  lemma {:induction false} BodyReadsBack(h: Heap, id: nat, n: Numbering, nowrap: bool, l: Link, reserved: Obj, d: Heap)
    requires HeapOk(h) && id < |h| && ObjOk(h, h[id]) && !h[id].Opaque? && Linked(l, n) && id !in n.seen
    requires |Unseen(h, Enter(n, id))| < |Unseen(h, n)|
    requires EncodeEntries(h, Body(h[id]), Enter(n, id), nowrap).Encoded?
    requires EncodeEntries(h, Body(h[id]), Enter(n, id), nowrap).numbering.idx <= INT_LIMIT
    requires |d| == HeapSize(l, n.idx)
    ensures var inner := EncodeEntries(h, Body(h[id]), Enter(n, id), nowrap);
            var m := inner.numbering;
            var back := DecodeEntries(inner.bytes, 0, [], Allocate(Memory(d, Names(l, n.idx)), reserved));
            && m.idx > |l.constants|
            && back.DecodedEntries?
            && back.entries == RenEntries(l, m.seen, Body(h[id]))
            && back.memory.seen == Names(l, m.idx)
            && |d| < |back.memory.heap|
            && Rebuilt(h, l, n, m, d, back.memory.heap[|d| := RenObj(l, m.seen, h[id])])
            && Ren(l, m.seen, Ref(id)) == Ref(|d|)
    decreases |Unseen(h, Enter(n, id))|, 1 + |Body(h[id])|, 1
  {
    hide DecodeValue, DecodeTable, DecodeClosure, DecodeEntries, EncodeValue, EncodeObject, EncodeEntries, HeapOk,
         EntriesOk, DistinctKeys, Linked, Injective, Grown, Rebuilt, RenEntries, Names, UpEntries, IndexBytes,
         Complete, CoveredAll, RenObj, Ren, At;
    var n1 := Enter(n, id);
    var inner := EncodeEntries(h, Body(h[id]), n1, nowrap);
    EnterLinked(l, n, id);
    NamesNext(l, n.idx);
    NothingDone(l, n1.seen, Body(h[id]), inner.bytes);
    EntriesReadBack(h, Body(h[id]), n1, nowrap, l, inner.bytes, 0, [], d + [reserved]);
    var back := DecodeEntries(inner.bytes, 0, [], Memory(d + [reserved], Names(l, n1.idx)));
    EntriesGrow(h, Body(h[id]), n1, nowrap);
    IsComplete(h, inner.numbering.seen, id);
    RebuiltObject(h, l, n, id, inner.numbering, d, reserved, back.memory.heap);
  }

  /** The next entry has a key that no earlier entry has, so it is appended. */
  lemma AppendsEntry(l: Link, n: Numbering, done: seq<(Val, Val)>, e: (Val, Val))
    requires Linked(l, n) && CoveredAll(n.seen, done) && Covered(n.seen, e.0) && Covered(n.seen, e.1)
    requires DistinctKeys(done + [e]) && !e.0.Nil? && !e.1.Nil?
    ensures !Ren(l, n.seen, e.0).Nil?
    ensures SetEntry(RenEntries(l, n.seen, done), Ren(l, n.seen, e.0), Ren(l, n.seen, e.1)) ==
            RenEntries(l, n.seen, done + [e])
  {
    var acc := RenEntries(l, n.seen, done);
    forall v | (v == e.0 || v == e.1) ensures !Ren(l, n.seen, v).Nil? {
      if v.Ref? {
        assert n.seen[v.id] in l.used || n.seen[v.id] > |l.constants|;
      }
    }
    forall j | 0 <= j < |acc| ensures acc[j].0 != Ren(l, n.seen, e.0) {
      assert (done + [e])[j] == done[j] && (done + [e])[|done|] == e;
      RenKeyInjective(l, n, done[j].0, e.0);
    }
    assert KeyIndex(acc, Ren(l, n.seen, e.0)) < 0;
    assert RenEntries(l, n.seen, done + [e]) == acc + [RenEntry(l, n.seen, e)];
  }

  /** The decoded entries `back` match the encoder's `entries`, which moved the numbering from `n` to `m`. */
  ghost predicate EntriesBack(h: Heap, entries: seq<(Val, Val)>, n: Numbering, m: Numbering, l: Link, d: Heap,
                              back: DecodedEntries)
    requires n.idx > |l.constants|
  {
    && m.idx > |l.constants|
    && back.DecodedEntries?
    && back.entries == RenEntries(l, m.seen, entries)
    && back.memory.seen == Names(l, m.idx)
    && Rebuilt(h, l, n, m, d, back.memory.heap)
  }

  lemma NumbersThroughEntry(h: Heap, e: (Val, Val), rest: seq<(Val, Val)>, n: Numbering, nowrap: bool, l: Link)
    requires HeapOk(h) && ValOk(h, e.0) && ValOk(h, e.1) && EntriesOk(h, rest) && Linked(l, n)
    requires EncodeValue(h, e.0, n, nowrap).Encoded?
    requires EncodeValue(h, e.1, EncodeValue(h, e.0, n, nowrap).numbering, nowrap).Encoded?
    requires var n1 := EncodeValue(h, e.0, n, nowrap).numbering;
             EncodeEntries(h, rest, EncodeValue(h, e.1, n1, nowrap).numbering, nowrap).Encoded?
    ensures var n1 := EncodeValue(h, e.0, n, nowrap).numbering;
            var n2 := EncodeValue(h, e.1, n1, nowrap).numbering;
            var n3 := EncodeEntries(h, rest, n2, nowrap).numbering;
            && Grown(h, n, n1) && Grown(h, n1, n2) && Linked(l, n1) && Linked(l, n2)
            && Covered(n1.seen, e.0) && Covered(n2.seen, e.1)
            && |l.constants| < n.idx <= n1.idx <= n2.idx <= n3.idx
  {
    hide EncodeValue, EncodeEntries, HeapOk, EntriesOk, Linked, Grown, Injective;
    var n1 := EncodeValue(h, e.0, n, nowrap).numbering;
    var n2 := EncodeValue(h, e.1, n1, nowrap).numbering;
    LinkedMeans(l, n);
    ValueGrows(h, e.0, n, nowrap);
    GrownMeans(h, n, n1);
    GrownLinked(h, l, n, n1);
    ValueGrows(h, e.1, n1, nowrap);
    GrownMeans(h, n1, n2);
    GrownLinked(h, l, n1, n2);
    EntriesGrow(h, rest, n2, nowrap);
    GrownMeans(h, n2, EncodeEntries(h, rest, n2, nowrap).numbering);
  }

  /** A key and a value, one behind the other. */
  lemma {:induction false} PairReadsBack(h: Heap, e: (Val, Val), n: Numbering, nowrap: bool, l: Link, buf: seq<byte>,
                                         p: nat, d: Heap)
    requires HeapOk(h) && ValOk(h, e.0) && ValOk(h, e.1) && Linked(l, n)
    requires EncodeValue(h, e.0, n, nowrap).Encoded? && Linked(l, EncodeValue(h, e.0, n, nowrap).numbering)
    requires var key := EncodeValue(h, e.0, n, nowrap);
             var value := EncodeValue(h, e.1, key.numbering, nowrap);
             && value.Encoded? && At(buf, p, key.bytes) && At(buf, p + |key.bytes|, value.bytes)
             && |l.constants| < n.idx <= key.numbering.idx <= value.numbering.idx <= INT_LIMIT
             && |Unseen(h, key.numbering)| <= |Unseen(h, n)|
    requires |d| == HeapSize(l, n.idx)
    ensures var key := EncodeValue(h, e.0, n, nowrap);
            var value := EncodeValue(h, e.1, key.numbering, nowrap);
            var k := DecodeValue(buf, p, Memory(d, Names(l, n.idx)));
            && k.Decoded? && k.val == Ren(l, key.numbering.seen, e.0)
            && Rebuilt(h, l, n, key.numbering, d, k.memory.heap)
            && var v := DecodeValue(buf, k.pos, k.memory);
               && v.Decoded? && v.val == Ren(l, value.numbering.seen, e.1)
               && Rebuilt(h, l, key.numbering, value.numbering, k.memory.heap, v.memory.heap)
               && v.pos == p + |key.bytes| + |value.bytes|
               && v.memory.seen == Names(l, value.numbering.idx)
               && |v.memory.heap| == HeapSize(l, value.numbering.idx)
    decreases |Unseen(h, n)|, 1
  {
    hide DecodeValue, EncodeValue, HeapOk, Linked, Grown, Rebuilt, Names;
    var key := EncodeValue(h, e.0, n, nowrap);
    var value := EncodeValue(h, e.1, key.numbering, nowrap);
    ValueReadsBack(h, e.0, n, nowrap, l, buf, p, d);
    var k := DecodeValue(buf, p, Memory(d, Names(l, n.idx)));
    RebuiltMeans(h, l, n, key.numbering, d, k.memory.heap);
    ValueReadsBack(h, e.1, key.numbering, nowrap, l, buf, k.pos, k.memory.heap);
    assert k.memory == Memory(k.memory.heap, Names(l, key.numbering.idx));
    var v := DecodeValue(buf, k.pos, k.memory);
    RebuiltMeans(h, l, key.numbering, value.numbering, k.memory.heap, v.memory.heap);
  }

  lemma {:induction false} EntriesReadBack(h: Heap, entries: seq<(Val, Val)>, n: Numbering, nowrap: bool, l: Link,
                                           buf: seq<byte>, p: nat, done: seq<(Val, Val)>, d: Heap)
    requires HeapOk(h) && EntriesOk(h, entries) && Linked(l, n)
    requires CoveredAll(n.seen, done) && DistinctKeys(done + entries)
    requires EncodeEntries(h, entries, n, nowrap).Encoded?
    requires At(buf, p, EncodeEntries(h, entries, n, nowrap).bytes)
    requires p + |EncodeEntries(h, entries, n, nowrap).bytes| == |buf|
    requires EncodeEntries(h, entries, n, nowrap).numbering.idx <= INT_LIMIT
    requires |d| == HeapSize(l, n.idx)
    ensures EntriesBack(h, done + entries, n, EncodeEntries(h, entries, n, nowrap).numbering, l, d,
                        DecodeEntries(buf, p, RenEntries(l, n.seen, done), Memory(d, Names(l, n.idx))))
    decreases |Unseen(h, n)|, 1 + |entries|, 0
  {
    hide DecodeValue, DecodeEntries, EncodeValue, EncodeEntries, HeapOk, EntriesOk, DistinctKeys, Linked, Grown,
         Rebuilt, RenEntries, Names, SetEntry, CoveredAll, EntriesBack;
    if entries == [] {
      assert done + entries == done;
      NoEntries(h, n, nowrap, l, buf, p, done, d);
    } else {
      var e := entries[0];
      EncodeEntriesAt(h, entries, n, nowrap);
      var key := EncodeValue(h, e.0, n, nowrap);
      var value := EncodeValue(h, e.1, key.numbering, nowrap);
      var rest := EncodeEntries(h, entries[1..], value.numbering, nowrap);
      NumbersThroughEntry(h, e, entries[1..], n, nowrap, l);
      AtThree(buf, p, key.bytes, value.bytes, rest.bytes);
      PairReadsBack(h, e, n, nowrap, l, buf, p, d);
      var k := DecodeValue(buf, p, Memory(d, Names(l, n.idx)));
      var v := DecodeValue(buf, k.pos, k.memory);
      EntryStep(h, l, n, key.numbering, value.numbering, done, e, entries);
      assert done + [e] + entries[1..] == done + entries;
      EntriesReadBack(h, entries[1..], value.numbering, nowrap, l, buf, v.pos, done + [e], v.memory.heap);
      DecodeEntriesAt(buf, p, RenEntries(l, n.seen, done), Memory(d, Names(l, n.idx)));
      assert v.memory == Memory(v.memory.heap, Names(l, value.numbering.idx));
      Chain(h, done + entries, l, n, key.numbering, value.numbering, rest.numbering, d, k.memory.heap, v.memory.heap,
            DecodeEntries(buf, v.pos, RenEntries(l, value.numbering.seen, done + [e]), v.memory));
    }
  }

  lemma NoEntries(h: Heap, n: Numbering, nowrap: bool, l: Link, buf: seq<byte>, p: nat, done: seq<(Val, Val)>, d: Heap)
    requires HeapOk(h) && Linked(l, n) && |d| == HeapSize(l, n.idx)
    requires p + |EncodeEntries(h, [], n, nowrap).bytes| == |buf|
    ensures EntriesBack(h, done, n, EncodeEntries(h, [], n, nowrap).numbering, l, d,
                        DecodeEntries(buf, p, RenEntries(l, n.seen, done), Memory(d, Names(l, n.idx))))
  {
    SameIsRebuilt(h, l, n, d);
  }

  lemma AtThree(buf: seq<byte>, p: nat, a: seq<byte>, b: seq<byte>, c: seq<byte>)
    requires At(buf, p, a + b + c)
    ensures At(buf, p, a) && At(buf, p + |a|, b) && At(buf, p + |a| + |b|, c)
  {
    AtParts(buf, p, a + b, c);
    AtParts(buf, p, a, b);
  }

  lemma DecodeEntriesAt(buf: seq<byte>, p: nat, acc: seq<(Val, Val)>, m: Memory)
    requires DecodeValue(buf, p, m).Decoded?
    requires var k := DecodeValue(buf, p, m);
             !k.val.Nil? && DecodeValue(buf, k.pos, k.memory).Decoded?
    ensures var k := DecodeValue(buf, p, m);
            var v := DecodeValue(buf, k.pos, k.memory);
            DecodeEntries(buf, p, acc, m) == DecodeEntries(buf, v.pos, SetEntry(acc, k.val, v.val), v.memory)
  {
  }

  lemma Chain(h: Heap, entries: seq<(Val, Val)>, l: Link, a: Numbering, b: Numbering, c: Numbering, e: Numbering,
              da: Heap, db: Heap, dc: Heap, back: DecodedEntries)
    requires a.idx > |l.constants| && b.idx > |l.constants| && c.idx > |l.constants|
    requires Rebuilt(h, l, a, b, da, db) && Rebuilt(h, l, b, c, db, dc)
    requires EntriesBack(h, entries, c, e, l, dc, back)
    ensures EntriesBack(h, entries, a, e, l, da, back)
  {
    RebuiltAgain(h, l, a, b, c, da, db, dc);
    RebuiltAgain(h, l, a, c, e, da, dc, back.memory.heap);
  }

  lemma DistinctPrefix(done: seq<(Val, Val)>, entries: seq<(Val, Val)>)
    requires entries != [] && DistinctKeys(done + entries)
    ensures DistinctKeys(done + [entries[0]])
  {
    var part := done + [entries[0]];
    assert forall k | 0 <= k < |part| :: part[k] == (done + entries)[k];
  }

  lemma CoveredBy(seen: map<nat, nat>, done: seq<(Val, Val)>, e: (Val, Val))
    requires CoveredAll(seen, done) && Covered(seen, e.0) && Covered(seen, e.1)
    ensures CoveredAll(seen, done + [e])
  {
  }

  lemma EntryStep(h: Heap, l: Link, n: Numbering, n1: Numbering, n2: Numbering, done: seq<(Val, Val)>, e: (Val, Val),
                  entries: seq<(Val, Val)>)
    requires Linked(l, n2) && Grown(h, n, n1) && Grown(h, n1, n2) && CoveredAll(n.seen, done)
    requires entries != [] && entries[0] == e && !e.0.Nil? && !e.1.Nil?
    requires Covered(n1.seen, e.0) && Covered(n2.seen, e.1) && DistinctKeys(done + entries)
    ensures CoveredAll(n2.seen, done + [e])
    ensures !Ren(l, n1.seen, e.0).Nil?
    ensures SetEntry(RenEntries(l, n.seen, done), Ren(l, n1.seen, e.0), Ren(l, n2.seen, e.1)) ==
            RenEntries(l, n2.seen, done + [e])
  {
    hide SetEntry, Linked, Injective, CoveredAll, DistinctKeys, RenEntries, Grown;
    GrownAgain(h, n, n1, n2);
    GrownMeans(h, n, n2);
    GrownMeans(h, n1, n2);
    CoveredMore(n, n2, done);
    RenEntriesStable(l, n, n2, done);
    RenStable(l, n1, n2, e.0);
    DistinctPrefix(done, entries);
    CoveredBy(n2.seen, done, e);
    AppendsEntry(l, n2, done, e);
  }
}
