/**
 The marshaller of src/kernel/extra/lmarshal.c on hook-free Lua values, byte for byte.

 A Lua state is a heap of objects; a value refers to an object by its index in the heap, so sharing
 and cycles are ordinary.  The encoder numbers each object the first time it meets it (in preorder,
 after the caller's constants) and writes the number at every later visit; the decoder numbers
 objects as it creates them and must arrive at the same numbers.
 */
module Marshal {
  import opened Bytes

  const TNIL: byte := 0
  const TBOOLEAN: byte := 1
  const TLIGHTUSERDATA: byte := 2
  const TNUMBER: byte := 3
  const TSTRING: byte := 4
  const TTABLE: byte := 5
  const TFUNCTION: byte := 6
  const TUSERDATA: byte := 7
  const TTHREAD: byte := 8

  const TREF: byte := 1
  const TVAL: byte := 2
  const TUSR: byte := 3

  const MAGIC: byte := 0x8e

  datatype Val =
    | Nil
    | Bool(b: bool)
    | Light(ptr: seq<byte>)
    | Num(bits: seq<byte>)
    | Str(text: seq<byte>)
    | Ref(id: nat)

  /** Table entries are in lua_next order.  `Opaque` is a C function or a userdata without hooks: it has
      no encoding of its own and can only be named as a constant. */
  datatype Obj =
    | Table(entries: seq<(Val, Val)>)
    | Closure(code: seq<byte>, upvals: seq<Val>)
    | Opaque(kind: byte)

  type Heap = seq<Obj>

  function Kind(o: Obj): byte {
    match o
    case Table(_) => TTABLE
    case Closure(_, _) => TFUNCTION
    case Opaque(kind) => kind
  }

  // ----- well-formed Lua states -----

  predicate ValOk(h: Heap, v: Val) {
    && (v.Ref? ==> v.id < |h|)
    && (v.Num? ==> |v.bits| == 8)
    && (v.Light? ==> |v.ptr| == 8)
  }

  ghost predicate EntriesOk(h: Heap, entries: seq<(Val, Val)>) {
    forall k | 0 <= k < |entries| ::
      ValOk(h, entries[k].0) && ValOk(h, entries[k].1) && !entries[k].0.Nil? && !entries[k].1.Nil?
  }

  ghost predicate DistinctKeys(entries: seq<(Val, Val)>) {
    forall j, k | 0 <= j < k < |entries| :: entries[j].0 != entries[k].0
  }

  /** The table of upvalues that stands for a closure's environment. */
  function UpEntries(upvals: seq<Val>): (r: seq<(Val, Val)>)
    requires |upvals| <= 255
    ensures |r| == |upvals|
  {
    seq(|upvals|, k requires 0 <= k < |upvals| => (Num(IndexBytes(k + 1)), upvals[k]))
  }

  /** The key is the number `n`. */
  ghost predicate IsIndex(key: Val, n: nat) {
    key.Num? && IsDouble(key.bits, n)
  }

  /** Upvalue `k`, counted from one, is stored under the number `k` and under no other. */
  lemma UpvaluesAreNumbered(upvals: seq<Val>, k: nat, n: nat)
    requires 1 <= k <= |upvals| <= 255
    ensures IsIndex(UpEntries(upvals)[k - 1].0, n) <==> n == k
    ensures UpEntries(upvals)[k - 1].1 == upvals[k - 1]
  {
    hide IndexBytes, Fields, Pow2;
    IndexIsDouble(k);
  }

  /** What the encoder iterates over for one object. */
  function Body(o: Obj): seq<(Val, Val)>
    requires o.Closure? ==> |o.upvals| <= 255
  {
    match o
    case Table(entries) => entries
    case Closure(_, upvals) => UpEntries(upvals)
    case Opaque(_) => []
  }

  ghost predicate ObjOk(h: Heap, o: Obj) {
    && (o.Closure? ==> |o.upvals| <= 255)
    && (o.Opaque? ==> o.kind == TFUNCTION || o.kind == TUSERDATA)
    && EntriesOk(h, Body(o)) && DistinctKeys(Body(o))
  }

  ghost predicate HeapOk(h: Heap) {
    forall i | 0 <= i < |h| :: ObjOk(h, h[i])
  }

  // ----- encoder -----

  /** The SEEN table and the counter `*idx`. */
  datatype Numbering = Numbering(seen: map<nat, nat>, idx: nat)

  datatype Encoded = EncodeError | Encoded(bytes: seq<byte>, numbering: Numbering)

  function Unseen(h: Heap, n: Numbering): set<nat> {
    set i | 0 <= i < |h| && i !in n.seen
  }

  function Enter(n: Numbering, id: nat): Numbering {
    Numbering(n.seen[id := n.idx], n.idx + 1)
  }

  /** A length-prefixed slice; buf_write refuses lengths that do not fit in 32 bits. */
  function Slice(bytes: seq<byte>): seq<byte> {
    U32(|bytes|) + bytes
  }

  predicate TooLong(bytes: seq<byte>) {
    |bytes| >= U32_LIMIT
  }

  lemma UnseenShrinks(h: Heap, m: Numbering, n: Numbering)
    requires m.seen.Keys <= n.seen.Keys
    ensures |Unseen(h, n)| <= |Unseen(h, m)|
  {
    assert Unseen(h, m) == Unseen(h, n) + (Unseen(h, m) - Unseen(h, n));
  }

  lemma EnterShrinks(h: Heap, n: Numbering, id: nat)
    requires id < |h| && id !in n.seen
    ensures |Unseen(h, Enter(n, id))| < |Unseen(h, n)|
  {
    assert Unseen(h, n) == Unseen(h, Enter(n, id)) + {id};
  }

  /** mar_encode_value */
  ghost function EncodeValue(h: Heap, v: Val, n: Numbering, nowrap: bool): (r: Encoded)
    requires HeapOk(h) && ValOk(h, v)
    ensures r.Encoded? ==> n.seen.Keys <= r.numbering.seen.Keys
    decreases |Unseen(h, n)|, 0
  {
    match v
    case Nil => Encoded([TNIL], n)
    case Bool(b) => Encoded([TBOOLEAN, if b then 1 else 0], n)
    case Light(ptr) => if nowrap then EncodeError else Encoded([TLIGHTUSERDATA] + ptr, n)
    case Num(bits) => Encoded([TNUMBER] + bits, n)
    case Str(text) => if TooLong(text) then EncodeError else Encoded([TSTRING] + Slice(text), n)
    case Ref(id) =>
      assert ObjOk(h, h[id]);
      if id in n.seen then Encoded([Kind(h[id]), TREF] + U32(n.seen[id]), n)
      else
        EnterShrinks(h, n, id);
        EncodeObject(h, id, n, nowrap)
  }

  /** The encoding of an object at its first visit. */
  ghost function EncodeObject(h: Heap, id: nat, n: Numbering, nowrap: bool): (r: Encoded)
    requires HeapOk(h) && id < |h| && id !in n.seen && ObjOk(h, h[id])
    requires |Unseen(h, Enter(n, id))| < |Unseen(h, n)|
    ensures r.Encoded? ==> n.seen.Keys <= r.numbering.seen.Keys
    decreases |Unseen(h, Enter(n, id))|, 1 + |Body(h[id])|, 1
  {
    match h[id]
    case Opaque(_) => EncodeError
    case Table(entries) =>
      (match EncodeEntries(h, entries, Enter(n, id), nowrap)
       case EncodeError => EncodeError
       case Encoded(bytes, m) =>
         if TooLong(bytes) then EncodeError
         else Encoded([TTABLE, TVAL] + Slice(bytes), m))
    case Closure(code, upvals) =>
      if TooLong(code) then EncodeError
      else
        match EncodeEntries(h, UpEntries(upvals), Enter(n, id), nowrap)
        case EncodeError => EncodeError
        case Encoded(bytes, m) =>
          if TooLong(bytes) then EncodeError
          else Encoded([TFUNCTION, TVAL] + Slice(code) + Slice(bytes), m)
  }

  lemma OpaqueFails(h: Heap, id: nat, n: Numbering, nowrap: bool)
    requires HeapOk(h) && id < |h| && id !in n.seen && ObjOk(h, h[id]) && h[id].Opaque?
    requires |Unseen(h, Enter(n, id))| < |Unseen(h, n)|
    ensures EncodeObject(h, id, n, nowrap).EncodeError?
  {
  }

  /** mar_encode_table */
  ghost function EncodeEntries(h: Heap, entries: seq<(Val, Val)>, n: Numbering, nowrap: bool): (r: Encoded)
    requires HeapOk(h) && EntriesOk(h, entries)
    ensures r.Encoded? ==> n.seen.Keys <= r.numbering.seen.Keys
    decreases |Unseen(h, n)|, 1 + |entries|, 0
  {
    if entries == [] then Encoded([], n)
    else
      match EncodeValue(h, entries[0].0, n, nowrap)
      case EncodeError => EncodeError
      case Encoded(key, n1) =>
        UnseenShrinks(h, n, n1);
        match EncodeValue(h, entries[0].1, n1, nowrap)
        case EncodeError => EncodeError
        case Encoded(value, n2) =>
          UnseenShrinks(h, n, n2);
          match EncodeEntries(h, entries[1..], n2, nowrap)
          case EncodeError => EncodeError
          case Encoded(rest, n3) => Encoded(key + value + rest, n3)
  }

  /** The SEEN table that mar_encode builds from the constants: a later duplicate wins. */
  function ConstantSeen(constants: seq<Val>): map<nat, nat> {
    if constants == [] then map[]
    else
      var c := constants[|constants| - 1];
      var before := ConstantSeen(constants[..|constants| - 1]);
      if c.Ref? then before[c.id := |constants|] else before
  }

  /** mar_encode */
  ghost function Encode(h: Heap, v: Val, constants: seq<Val>, nowrap: bool): Encoded
    requires HeapOk(h) && ValOk(h, v)
  {
    match EncodeValue(h, v, Numbering(ConstantSeen(constants), |constants| + 1), nowrap)
    case EncodeError => EncodeError
    case Encoded(bytes, n) => Encoded([MAGIC] + bytes, n)
  }

  // ----- decoder -----

  /** The decoder's Lua state and its SEEN table; number `k` names `seen[k - 1]`. */
  datatype Memory = Memory(heap: Heap, seen: seq<Val>)

  datatype Decoded = DecodeError | Decoded(val: Val, pos: nat, memory: Memory)
  datatype DecodedEntries = EntriesError | DecodedEntries(entries: seq<(Val, Val)>, memory: Memory)

  /** lua_rawgeti on the SEEN table: an unassigned number reads as nil. */
  function Lookup(m: Memory, ref: int): Val {
    if 1 <= ref <= |m.seen| then m.seen[ref - 1] else Nil
  }

  function Allocate(m: Memory, o: Obj): Memory {
    Memory(m.heap + [o], m.seen + [Ref(|m.heap|)])
  }

  function KeyIndex(entries: seq<(Val, Val)>, k: Val): (r: int)
    ensures -1 <= r < |entries|
    ensures r >= 0 ==> entries[r].0 == k
    ensures r < 0 ==> forall j | 0 <= j < |entries| :: entries[j].0 != k
  {
    if entries == [] then -1
    else if entries[|entries| - 1].0 == k then |entries| - 1
    else KeyIndex(entries[..|entries| - 1], k)
  }

  /** lua_settable on a plain table: add, overwrite, or remove when the value is nil. */
  function SetEntry(entries: seq<(Val, Val)>, k: Val, v: Val): seq<(Val, Val)> {
    var j := KeyIndex(entries, k);
    if j < 0 then (if v.Nil? then entries else entries + [(k, v)])
    else if v.Nil? then entries[..j] + entries[j + 1..]
    else entries[j := (k, v)]
  }

  /** The values at indices `k`, `k + 1` and so on, up to the first hole. */
  function ListFrom(entries: seq<(Val, Val)>, k: nat): seq<Val>
    requires k >= 1
    decreases |entries| - k
  {
    if k > |entries| || k >= INDEX_LIMIT then []
    else
      var j := KeyIndex(entries, Num(IndexBytes(k)));
      if j < 0 then [] else [entries[j].1] + ListFrom(entries, k + 1)
  }

  /** A reference: tag TREF followed by a number. */
  function DecodeRef(buf: seq<byte>, p: nat, m: Memory): Decoded {
    if p + 6 > |buf| then DecodeError else Decoded(Lookup(m, ReadI32(buf, p + 2)), p + 6, m)
  }

  /** mar_decode_value at position `p` of the slice `buf` */
  function DecodeValue(buf: seq<byte>, p: nat, m: Memory): (r: Decoded)
    ensures r.Decoded? ==> p < r.pos <= |buf| && |m.heap| <= |r.memory.heap|
    decreases |buf|, |buf| - p, 0
  {
    if p >= |buf| then DecodeError
    else if buf[p] == TNIL || buf[p] == TTHREAD then Decoded(Nil, p + 1, m)
    else if buf[p] == TBOOLEAN then
      if p + 2 > |buf| then DecodeError else Decoded(Bool(buf[p + 1] != 0), p + 2, m)
    else if buf[p] == TNUMBER then
      if p + 9 > |buf| then DecodeError else Decoded(Num(buf[p + 1..p + 9]), p + 9, m)
    else if buf[p] == TLIGHTUSERDATA then
      if p + 9 > |buf| then DecodeError else Decoded(Light(buf[p + 1..p + 9]), p + 9, m)
    else if buf[p] == TSTRING then
      if p + 5 > |buf| || p + 5 + ReadU32(buf, p + 1) > |buf| then DecodeError
      else
        var end := p + 5 + ReadU32(buf, p + 1);
        Decoded(Str(buf[p + 5..end]), end, m)
    else if p + 2 > |buf| then DecodeError
    else if buf[p] == TTABLE then
      if buf[p + 1] == TREF then DecodeRef(buf, p, m)
      else if buf[p + 1] == TVAL then DecodeTable(buf, p, m)
      else DecodeError
    else if buf[p] == TFUNCTION then
      if buf[p + 1] == TREF then DecodeRef(buf, p, m) else DecodeClosure(buf, p, m)
    else if buf[p] == TUSERDATA then
      if buf[p + 1] == TREF then DecodeRef(buf, p, m)
      else if buf[p + 1] == TUSR then DecodeError
      else Decoded(Nil, p + 2, m)
    else DecodeError
  }

  /** A table: it is registered under its number before its entries are decoded. */
  function DecodeTable(buf: seq<byte>, p: nat, m: Memory): (r: Decoded)
    requires p + 2 <= |buf|
    ensures r.Decoded? ==> p < r.pos <= |buf| && |m.heap| <= |r.memory.heap|
    decreases |buf|, |buf| - p - 2, 3
  {
    if p + 6 > |buf| || p + 6 + ReadU32(buf, p + 2) > |buf| then DecodeError
    else
      var end := p + 6 + ReadU32(buf, p + 2);
      match DecodeEntries(buf[p + 6..end], 0, [], Allocate(m, Table([])))
      case EntriesError => DecodeError
      case DecodedEntries(entries, m1) =>
        Decoded(Ref(|m.heap|), end, m1.(heap := m1.heap[|m.heap| := Table(entries)]))
  }

  /** A closure: code, registration, then the table of upvalues. */
  function DecodeClosure(buf: seq<byte>, p: nat, m: Memory): (r: Decoded)
    requires p + 2 <= |buf|
    ensures r.Decoded? ==> p < r.pos <= |buf| && |m.heap| <= |r.memory.heap|
    decreases |buf|, |buf| - p - 2, 3
  {
    if p + 6 > |buf| || p + 6 + ReadU32(buf, p + 2) + 4 > |buf| then DecodeError
    else
      var mid := p + 6 + ReadU32(buf, p + 2);
      if mid + 4 + ReadU32(buf, mid) > |buf| then DecodeError
      else
        var code := buf[p + 6..mid];
        var end := mid + 4 + ReadU32(buf, mid);
        match DecodeEntries(buf[mid + 4..end], 0, [], Allocate(m, Closure(code, [])))
        case EntriesError => DecodeError
        case DecodedEntries(entries, m1) =>
          Decoded(Ref(|m.heap|), end, m1.(heap := m1.heap[|m.heap| := Closure(code, ListFrom(entries, 1))]))
  }

  /** mar_decode_table from position `p` on, with the entries read so far */
  function DecodeEntries(buf: seq<byte>, p: nat, acc: seq<(Val, Val)>, m: Memory): (r: DecodedEntries)
    ensures r.DecodedEntries? ==> |m.heap| <= |r.memory.heap|
    decreases |buf|, |buf| - p, 1
  {
    if p >= |buf| then DecodedEntries(acc, m)
    else
      match DecodeValue(buf, p, m)
      case DecodeError => EntriesError
      case Decoded(k, p1, m1) =>
        match DecodeValue(buf, p1, m1)
        case DecodeError => EntriesError
        case Decoded(v, p2, m2) =>
          if k.Nil? then EntriesError
          else DecodeEntries(buf, p2, SetEntry(acc, k, v), m2)
  }

  /** mar_decode */
  function Decode(bytes: seq<byte>, constants: seq<Val>, heap: Heap): Decoded {
    if bytes == [] || bytes[0] != MAGIC then DecodeError
    else DecodeValue(bytes[1..], 0, Memory(heap, constants))
  }
}
