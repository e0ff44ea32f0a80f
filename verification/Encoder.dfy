/** mar_encode as it runs: nested buffers, the SEEN table and the counter changed in place. */
module Encoding {
  import opened Bytes
  import opened Buffers
  import M = Marshal

  class Encoder {
    const heap: M.Heap
    const nowrap: bool
    var seen: map<nat, nat>
    var idx: nat

    ghost function Now(): M.Numbering
      reads this
    {
      M.Numbering(seen, idx)
    }

    /** The SEEN table starts with the caller's constants. */
    constructor (heap: M.Heap, constants: seq<M.Val>, nowrap: bool)
      ensures this.heap == heap && this.nowrap == nowrap
      ensures Now() == M.Numbering(M.ConstantSeen(constants), |constants| + 1)
    {
      this.heap := heap;
      this.nowrap := nowrap;
      seen := map[];
      idx := 1;
      new;
      while idx <= |constants|
        invariant 1 <= idx <= |constants| + 1
        invariant seen == M.ConstantSeen(constants[..idx - 1])
      {
        var c := constants[idx - 1];
        assert constants[..idx][..idx - 1] == constants[..idx - 1];
        if c.Ref? {
          seen := seen[c.id := idx];
        }
        idx := idx + 1;
      }
      assert constants[..idx - 1] == constants;
    }

    method PutTags(kind: byte, tag: byte, buf: Buffer)
      requires buf.Valid()
      modifies buf, buf.data
      ensures buf.Valid() && (buf.data == old(buf.data) || fresh(buf.data))
      ensures buf.Contents() == old(buf.Contents()) + [kind, tag]
    {
      var ok := buf.Write([kind]);
      ok := buf.Write([tag]);
    }

    /** A length and the bytes it counts. */
    method PutSlice(bytes: seq<byte>, buf: Buffer) returns (ok: bool)
      requires buf.Valid()
      modifies buf, buf.data
      ensures buf.Valid() && (buf.data == old(buf.data) || fresh(buf.data))
      ensures ok <==> !M.TooLong(bytes)
      ensures ok ==> buf.Contents() == old(buf.Contents()) + M.Slice(bytes)
    {
      ok := buf.Write(U32(|bytes|));
      ok := buf.Write(bytes);
    }

    /** What a call has done when it returns: written `r`'s bytes and moved the numbering, or failed with `r`. */
    twostate predicate Did(ok: bool, r: M.Encoded, buf: Buffer)
      requires old(buf.Valid())
      reads this, buf, buf.data
    {
      && buf.Valid() && (buf.data == old(buf.data) || fresh(buf.data))
      && ok == r.Encoded?
      && (ok ==> Now() == r.numbering && buf.Contents() == old(buf.Contents()) + r.bytes)
    }

    /** A tag and eight bytes. */
    method PutEight(tag: byte, bits: seq<byte>, buf: Buffer)
      requires buf.Valid() && |bits| == 8
      modifies buf, buf.data
      ensures buf.Valid() && (buf.data == old(buf.data) || fresh(buf.data))
      ensures buf.Contents() == old(buf.Contents()) + ([tag] + bits)
    {
      var ok := buf.Write([tag]);
      ok := buf.Write(bits);
    }

    /** Numbers, strings and the other values that are not objects. */
    method PutScalar(v: M.Val, buf: Buffer) returns (ok: bool)
      requires M.HeapOk(heap) && M.ValOk(heap, v) && !v.Ref? && buf.Valid()
      modifies buf, buf.data
      ensures Did(ok, M.EncodeValue(heap, v, Now(), nowrap), buf)
    {
      hide M.HeapOk, U32, M.Slice;
      ok := true;
      match v {
        case Nil =>
          ok := buf.Write([M.TNIL]);
        case Bool(b) =>
          PutTags(M.TBOOLEAN, if b then 1 else 0, buf);
        case Light(ptr) =>
          if nowrap {
            return false;
          }
          PutEight(M.TLIGHTUSERDATA, ptr, buf);
        case Num(bits) =>
          PutEight(M.TNUMBER, bits, buf);
        case Str(text) =>
          ok := buf.Write([M.TSTRING]);
          ok := PutSlice(text, buf);
      }
    }

    /** An object that already has a number. */
    method PutReference(id: nat, buf: Buffer) returns (ok: bool)
      requires M.HeapOk(heap) && id < |heap| && id in seen && buf.Valid()
      modifies buf, buf.data
      ensures Did(ok, M.EncodeValue(heap, M.Ref(id), Now(), nowrap), buf)
    {
      hide M.HeapOk;
      PutTags(M.Kind(heap[id]), M.TREF, buf);
      ok := buf.Write(U32(seen[id]));
    }

    /** mar_encode_value */
    method EncodeValue(v: M.Val, buf: Buffer) returns (ok: bool)
      requires M.HeapOk(heap) && M.ValOk(heap, v) && buf.Valid()
      modifies this, buf, buf.data
      ensures Did(ok, M.EncodeValue(heap, v, old(Now()), nowrap), buf)
      decreases |M.Unseen(heap, Now())|, 0
    {
      hide M.HeapOk, M.EncodeObject, M.EntriesOk, M.DistinctKeys;
      if !v.Ref? {
        ok := PutScalar(v, buf);
      } else if v.id in seen {
        ok := PutReference(v.id, buf);
      } else {
        M.EnterShrinks(heap, Now(), v.id);
        HeapOkAt(heap, v.id);
        match heap[v.id] {
          case Table(_) => ok := EncodeTable(v.id, buf);
          case Closure(_, _) => ok := EncodeClosure(v.id, buf);
          case Opaque(_) => ok := false; M.OpaqueFails(heap, v.id, Now(), nowrap);
        }
      }
    }

    /** Numbers an object and encodes what it holds into a buffer of its own. */
    method EncodeBody(id: nat) returns (ok: bool, bytes: seq<byte>)
      requires M.HeapOk(heap) && id < |heap| && id !in seen && M.ObjOk(heap, heap[id])
      requires |M.Unseen(heap, M.Enter(Now(), id))| < |M.Unseen(heap, Now())|
      modifies this
      ensures var r := M.EncodeEntries(heap, M.Body(heap[id]), M.Enter(old(Now()), id), nowrap);
              ok == r.Encoded? && (ok ==> bytes == r.bytes && Now() == r.numbering)
      decreases |M.Unseen(heap, M.Enter(Now(), id))|, 1 + |M.Body(heap[id])|, 1
    {
      hide M.HeapOk, M.EncodeEntries, M.EntriesOk, M.DistinctKeys;
      seen, idx := seen[id := idx], idx + 1;
      var inner := new Buffer();
      ok := EncodeEntries(M.Body(heap[id]), inner);
      bytes := inner.data[..inner.head];
    }

    /** The first visit of a table. */
    method EncodeTable(id: nat, buf: Buffer) returns (ok: bool)
      requires M.HeapOk(heap) && id < |heap| && id !in seen && M.ObjOk(heap, heap[id]) && heap[id].Table? && buf.Valid()
      requires |M.Unseen(heap, M.Enter(Now(), id))| < |M.Unseen(heap, Now())|
      modifies this, buf, buf.data
      ensures Did(ok, M.EncodeObject(heap, id, old(Now()), nowrap), buf)
      decreases |M.Unseen(heap, M.Enter(Now(), id))|, 1 + |M.Body(heap[id])|, 2
    {
      hide M.HeapOk, M.EncodeEntries, M.EntriesOk, M.DistinctKeys, M.TooLong, M.Slice;
      var bytes;
      ghost var start := buf.Contents();
      ok := buf.Write([M.TTABLE]);
      ok, bytes := EncodeBody(id);
      if ok {
        ok := buf.Write([M.TVAL]);
        ok := PutSlice(bytes, buf);
        Joined(start, [M.TTABLE], [M.TVAL], M.Slice(bytes));
        assert [M.TTABLE] + [M.TVAL] == [M.TTABLE, M.TVAL];
      }
    }

    /** The first visit of a closure: its code, then its upvalues. */
    method EncodeClosure(id: nat, buf: Buffer) returns (ok: bool)
      requires M.HeapOk(heap) && id < |heap| && id !in seen && M.ObjOk(heap, heap[id]) && heap[id].Closure?
               && buf.Valid()
      requires |M.Unseen(heap, M.Enter(Now(), id))| < |M.Unseen(heap, Now())|
      modifies this, buf, buf.data
      ensures Did(ok, M.EncodeObject(heap, id, old(Now()), nowrap), buf)
      decreases |M.Unseen(heap, M.Enter(Now(), id))|, 1 + |M.Body(heap[id])|, 2
    {
      hide M.HeapOk, M.EncodeEntries, M.EntriesOk, M.DistinctKeys, M.TooLong, M.Slice;
      var bytes;
      ghost var start := buf.Contents();
      PutTags(M.TFUNCTION, M.TVAL, buf);
      ok := PutSlice(heap[id].code, buf);
      if ok {
        ok, bytes := EncodeBody(id);
        if ok {
          ok := PutSlice(bytes, buf);
          Joined(start, [M.TFUNCTION, M.TVAL], M.Slice(heap[id].code), M.Slice(bytes));
        }
      }
    }

    method EncodePair(e: (M.Val, M.Val), buf: Buffer) returns (ok: bool)
      requires M.HeapOk(heap) && M.ValOk(heap, e.0) && M.ValOk(heap, e.1) && buf.Valid()
      modifies this, buf, buf.data
      ensures Did(ok, Pair(heap, e, old(Now()), nowrap), buf)
      decreases |M.Unseen(heap, Now())|, 1
    {
      hide M.HeapOk, M.EncodeValue;
      ok := EncodeValue(e.0, buf);
      if ok {
        M.UnseenShrinks(heap, old(Now()), Now());
        ok := EncodeValue(e.1, buf);
      }
    }

    /** mar_encode_table */
    method EncodeEntries(entries: seq<(M.Val, M.Val)>, buf: Buffer) returns (ok: bool)
      requires M.HeapOk(heap) && M.EntriesOk(heap, entries) && buf.Valid()
      modifies this, buf, buf.data
      ensures Did(ok, M.EncodeEntries(heap, entries, old(Now()), nowrap), buf)
      decreases |M.Unseen(heap, Now())|, 1 + |entries|, 0
    {
      hide M.HeapOk, M.EncodeValue, M.EncodeEntries;
      var i := 0;
      ghost var written: seq<byte> := [];
      ghost var whole := M.EncodeEntries(heap, entries, Now(), nowrap);
      assert entries[0..] == entries;
      while i < |entries|
        invariant 0 <= i <= |entries|
        invariant buf.Valid() && (buf.data == old(buf.data) || fresh(buf.data))
        invariant old(Now()).seen.Keys <= Now().seen.Keys
        invariant buf.Contents() == old(buf.Contents()) + written
        invariant Behind(written, M.EncodeEntries(heap, entries[i..], Now(), nowrap)) == whole
      {
        ghost var n := Now();
        EntriesStep(heap, entries, i, n, nowrap);
        M.UnseenShrinks(heap, old(Now()), n);
        ok := EncodePair(entries[i], buf);
        if !ok {
          return;
        }
        ghost var pair := Pair(heap, entries[i], n, nowrap);
        BehindAgain(written, pair.bytes, M.EncodeEntries(heap, entries[i + 1..], Now(), nowrap));
        written := written + pair.bytes;
        i := i + 1;
      }
      NoneLeft(heap, Now(), nowrap);
      ok := true;
    }
  }

  lemma Joined(start: seq<byte>, a: seq<byte>, b: seq<byte>, c: seq<byte>)
    ensures start + a + b + c == start + (a + b + c)
  {
  }

  lemma NoneLeft(h: M.Heap, n: M.Numbering, nowrap: bool)
    requires M.HeapOk(h)
    ensures M.EncodeEntries(h, [], n, nowrap) == M.Encoded([], n)
  {
  }

  /** A key and the value that follows it. */
  ghost function Pair(h: M.Heap, e: (M.Val, M.Val), n: M.Numbering, nowrap: bool): (r: M.Encoded)
    requires M.HeapOk(h) && M.ValOk(h, e.0) && M.ValOk(h, e.1)
    ensures r.Encoded? ==> n.seen.Keys <= r.numbering.seen.Keys
  {
    var key := M.EncodeValue(h, e.0, n, nowrap);
    if key.EncodeError? then key else Behind(key.bytes, M.EncodeValue(h, e.1, key.numbering, nowrap))
  }

  /** One round of mar_encode_table. */
  lemma EntriesStep(h: M.Heap, entries: seq<(M.Val, M.Val)>, i: nat, n: M.Numbering, nowrap: bool)
    requires M.HeapOk(h) && M.EntriesOk(h, entries) && i < |entries|
    ensures var pair := Pair(h, entries[i], n, nowrap);
            M.EncodeEntries(h, entries[i..], n, nowrap) ==
            if pair.EncodeError? then pair
            else Behind(pair.bytes, M.EncodeEntries(h, entries[i + 1..], pair.numbering, nowrap))
  {
    hide M.HeapOk, M.EncodeValue;
    assert entries[i..][1..] == entries[i + 1..];
  }

  lemma HeapOkAt(h: M.Heap, id: nat)
    requires M.HeapOk(h) && id < |h|
    ensures M.ObjOk(h, h[id])
  {
  }

  /** An encoding that follows what is already written. */
  ghost function Behind(written: seq<byte>, r: M.Encoded): M.Encoded {
    if r.Encoded? then r.(bytes := written + r.bytes) else r
  }

  lemma BehindAgain(written: seq<byte>, more: seq<byte>, r: M.Encoded)
    ensures Behind(written, Behind(more, r)) == Behind(written + more, r)
  {
    if r.Encoded? {
      assert written + (more + r.bytes) == written + more + r.bytes;
    }
  }

  /** mar_encode */
  method Encode(heap: M.Heap, v: M.Val, constants: seq<M.Val>, nowrap: bool) returns (ok: bool, bytes: seq<byte>)
    requires M.HeapOk(heap) && M.ValOk(heap, v)
    ensures ok == M.Encode(heap, v, constants, nowrap).Encoded?
    ensures ok ==> bytes == M.Encode(heap, v, constants, nowrap).bytes
  {
    hide M.EncodeValue, M.HeapOk;
    var encoder := new Encoder(heap, constants, nowrap);
    var buf := new Buffer();
    ok := buf.Write([M.MAGIC]);
    ok := encoder.EncodeValue(v, buf);
    bytes := buf.data[..buf.head];
  }
}
