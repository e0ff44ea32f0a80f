/** mar_decode as it runs: objects are created, numbered and filled in place. */
module Decoding {
  import opened Bytes
  import opened DecodeFrame
  import M = Marshal

  class Decoder {
    var heap: M.Heap
    /** The SEEN table; the counter is one more than its length. */
    var seen: seq<M.Val>

    ghost function Now(): M.Memory
      reads this
    {
      M.Memory(heap, seen)
    }

    constructor (heap: M.Heap, constants: seq<M.Val>)
      ensures Now() == M.Memory(heap, constants)
    {
      this.heap := heap;
      seen := constants;
    }

    /** What reading one value has done when it returns. */
    ghost predicate Read(ok: bool, v: M.Val, next: nat, r: M.Decoded)
      reads this
    {
      ok == r.Decoded? && (ok ==> v == r.val && next == r.pos && Now() == r.memory)
    }

    /** lua_newtable or lua_load, and lua_rawseti on the SEEN table */
    method Create(o: M.Obj) returns (id: nat)
      modifies this
      ensures Now() == M.Allocate(old(Now()), o)
      ensures id == |old(heap)| < |heap| && heap[id] == o
    {
      id := |heap|;
      heap := heap + [o];
      seen := seen + [M.Ref(id)];
    }

    /** mar_decode_value: `p` is the read pointer, `next` its new position */
    method DecodeValue(buf: seq<byte>, p: nat) returns (ok: bool, v: M.Val, next: nat)
      modifies this
      ensures Read(ok, v, next, M.DecodeValue(buf, p, old(Now())))
      decreases |buf|, |buf| - p, 0
    {
      hide M.DecodeTable, M.DecodeClosure;
      ok, v, next := true, M.Nil, p + 1;
      if p >= |buf| {
        return false, M.Nil, 0;
      } else if buf[p] == M.TNIL || buf[p] == M.TTHREAD {
        return;
      } else if buf[p] == M.TBOOLEAN || buf[p] == M.TNUMBER || buf[p] == M.TLIGHTUSERDATA || buf[p] == M.TSTRING {
        ok, v, next := ReadScalar(buf, p);
      } else if p + 2 > |buf| {
        return false, M.Nil, 0;
      } else if buf[p] != M.TTABLE && buf[p] != M.TFUNCTION && buf[p] != M.TUSERDATA {
        return false, M.Nil, 0;
      } else if buf[p + 1] == M.TREF {
        if p + 6 > |buf| {
          return false, M.Nil, 0;
        }
        return true, M.Lookup(M.Memory(heap, seen), ReadI32(buf, p + 2)), p + 6;
      } else if buf[p] == M.TTABLE {
        if buf[p + 1] != M.TVAL {
          return false, M.Nil, 0;
        }
        ok, v, next := DecodeTable(buf, p);
      } else if buf[p] == M.TFUNCTION {
        ok, v, next := DecodeClosure(buf, p);
      } else if buf[p + 1] == M.TUSR {
        return false, M.Nil, 0;
      } else {
        next := p + 2;
      }
    }

    method ReadScalar(buf: seq<byte>, p: nat) returns (ok: bool, v: M.Val, next: nat)
      requires p < |buf|
      requires buf[p] == M.TBOOLEAN || buf[p] == M.TNUMBER || buf[p] == M.TLIGHTUSERDATA || buf[p] == M.TSTRING
      ensures Read(ok, v, next, M.DecodeValue(buf, p, Now()))
    {
      hide M.DecodeTable, M.DecodeClosure;
      ok, v, next := false, M.Nil, p + 1;
      if buf[p] == M.TBOOLEAN {
        if next < |buf| {
          return true, M.Bool(buf[next] != 0), next + 1;
        }
      } else if buf[p] == M.TSTRING {
        if next + 4 <= |buf| {
          var len := ReadU32(buf, next);
          next := next + 4;
          if next + len <= |buf| {
            return true, M.Str(buf[next..next + len]), next + len;
          }
        }
      } else if next + 8 <= |buf| {
        var bits := buf[next..next + 8];
        return true, if buf[p] == M.TNUMBER then M.Num(bits) else M.Light(bits), next + 8;
      }
    }

    method DecodeTable(buf: seq<byte>, p: nat) returns (ok: bool, v: M.Val, next: nat)
      requires p + 2 <= |buf|
      modifies this
      ensures Read(ok, v, next, M.DecodeTable(buf, p, old(Now())))
      decreases |buf|, |buf| - p - 2, 3
    {
      hide M.DecodeEntries;
      ok, v, next := false, M.Nil, 0;
      if p + 6 <= |buf| && p + 6 + ReadU32(buf, p + 2) <= |buf| {
        next := p + 6 + ReadU32(buf, p + 2);
        var id := Create(M.Table([]));
        ok := FillTable(buf[p + 6..next], id);
        v := M.Ref(id);
      }
    }

    method DecodeClosure(buf: seq<byte>, p: nat) returns (ok: bool, v: M.Val, next: nat)
      requires p + 2 <= |buf|
      modifies this
      ensures Read(ok, v, next, M.DecodeClosure(buf, p, old(Now())))
      decreases |buf|, |buf| - p - 2, 3
    {
      hide M.DecodeEntries, M.ListFrom;
      ok, v, next := false, M.Nil, 0;
      if p + 6 <= |buf| && p + 6 + ReadU32(buf, p + 2) + 4 <= |buf| {
        var mid := p + 6 + ReadU32(buf, p + 2);
        if mid + 4 + ReadU32(buf, mid) <= |buf| {
          next := mid + 4 + ReadU32(buf, mid);
          var id := Create(M.Closure(buf[p + 6..mid], []));
          var entries;
          ok, entries := ReadUpvalues(buf[mid + 4..next]);
          if ok {
            heap := heap[id := M.Closure(buf[p + 6..mid], M.ListFrom(entries, 1))];
          }
          v := M.Ref(id);
        }
      }
    }

    /** mar_decode_table on the table `id`, which nested values may already refer to */
    method FillTable(slice: seq<byte>, id: nat) returns (ok: bool)
      requires id < |heap| && heap[id].Table?
      modifies this
      ensures var r := M.DecodeEntries(slice, 0, old(heap[id].entries), old(Now()));
              ok == r.DecodedEntries? &&
              (ok ==> |r.memory.heap| == |heap| && Now() == r.memory.(heap := r.memory.heap[id := M.Table(r.entries)]))
      decreases |slice|, |slice|, 2
    {
      hide M.DecodeValue, M.DecodeEntries;
      var p := 0;
      ghost var whole := M.DecodeEntries(slice, 0, heap[id].entries, Now());
      while p < |slice|
        invariant id < |heap| && heap[id].Table?
        invariant SameBut(id, M.DecodeEntries(slice, p, heap[id].entries, Now()), whole)
        decreases |slice| - p
      {
        var k, v, next;
        ghost var acc := heap[id].entries;
        ghost var before := Now();
        ok, k, v, next := ReadPair(slice, p);
        EntriesAt(slice, p, acc, before);
        if !ok {
          return;
        }
        PairKeepsHeap(slice, p, before);
        assert heap[id] == M.Table(acc);
        var filled := M.SetEntry(heap[id].entries, k, v);
        StoreCommutes(slice, next, filled, Now(), id);
        heap := heap[id := M.Table(filled)];
        p := next;
      }
      EntriesDone(slice, p, heap[id].entries, Now());
      StoredAt(id, heap, M.DecodeEntries(slice, p, heap[id].entries, Now()), whole);
      ok := true;
    }

    /** mar_decode_table on a table of its own */
    method ReadUpvalues(slice: seq<byte>) returns (ok: bool, entries: seq<(M.Val, M.Val)>)
      modifies this
      ensures var r := M.DecodeEntries(slice, 0, [], old(Now()));
              ok == r.DecodedEntries? && (ok ==> entries == r.entries && Now() == r.memory)
      decreases |slice|, |slice|, 2
    {
      hide M.DecodeValue, M.DecodeEntries;
      var p := 0;
      entries := [];
      while p < |slice|
        invariant M.DecodeEntries(slice, p, entries, Now()) == M.DecodeEntries(slice, 0, [], old(Now()))
        decreases |slice| - p
      {
        var k, v, next;
        EntriesAt(slice, p, entries, Now());
        ok, k, v, next := ReadPair(slice, p);
        if !ok {
          return;
        }
        entries := M.SetEntry(entries, k, v);
        p := next;
      }
      EntriesDone(slice, p, entries, Now());
      ok := true;
    }

    /** A key and a value; a nil key is an error of lua_settable. */
    method ReadPair(slice: seq<byte>, p: nat) returns (ok: bool, k: M.Val, v: M.Val, next: nat)
      requires p < |slice|
      modifies this
      ensures var r := Pair(slice, p, old(Now()));
              ok == r.DecodedPair? && (ok ==> k == r.key && v == r.val && next == r.pos && Now() == r.memory)
      decreases |slice|, |slice| - p, 1
    {
      hide M.DecodeValue;
      v := M.Nil;
      ok, k, next := DecodeValue(slice, p);
      if ok {
        ok, v, next := DecodeValue(slice, next);
        ok := ok && !k.Nil?;
      }
    }
  }

  // ----- one round of the loop -----

  datatype DecodedPair = PairError | DecodedPair(key: M.Val, val: M.Val, pos: nat, memory: M.Memory)

  function Pair(buf: seq<byte>, p: nat, m: M.Memory): (r: DecodedPair)
    ensures r.DecodedPair? ==> p < r.pos <= |buf|
  {
    var k := M.DecodeValue(buf, p, m);
    if k.DecodeError? then PairError
    else
      var v := M.DecodeValue(buf, k.pos, k.memory);
      if v.DecodeError? || k.val.Nil? then PairError else DecodedPair(k.val, v.val, v.pos, v.memory)
  }

  lemma EntriesAt(buf: seq<byte>, p: nat, acc: seq<(M.Val, M.Val)>, m: M.Memory)
    requires p < |buf|
    ensures var r := Pair(buf, p, m);
            M.DecodeEntries(buf, p, acc, m) ==
            if r.PairError? then M.EntriesError
            else M.DecodeEntries(buf, r.pos, M.SetEntry(acc, r.key, r.val), r.memory)
  {
    hide M.DecodeValue, M.SetEntry;
  }

  lemma EntriesDone(buf: seq<byte>, p: nat, acc: seq<(M.Val, M.Val)>, m: M.Memory)
    requires p >= |buf|
    ensures M.DecodeEntries(buf, p, acc, m) == M.DecodedEntries(acc, m)
  {
  }

  lemma PairKeepsHeap(buf: seq<byte>, p: nat, m: M.Memory)
    requires Pair(buf, p, m).DecodedPair?
    ensures m.heap <= Pair(buf, p, m).memory.heap
  {
    hide M.DecodeValue;
    var k := M.DecodeValue(buf, p, m);
    ValueFrame(buf, p, m, m.heap);
    ValueFrame(buf, k.pos, k.memory, k.memory.heap);
  }

  // ----- storing early or late -----

  /** The same entries and the same memory, except for the object `id`. */
  ghost predicate SameBut(id: nat, r: M.DecodedEntries, q: M.DecodedEntries) {
    && r.DecodedEntries? == q.DecodedEntries?
    && (r.DecodedEntries? ==>
          && r.entries == q.entries && r.memory.seen == q.memory.seen
          && |r.memory.heap| == |q.memory.heap|
          && forall i | 0 <= i < |q.memory.heap| && i != id :: r.memory.heap[i] == q.memory.heap[i])
  }

  /** What is decoded next does not depend on the contents of the object `id`. */
  lemma StoreCommutes(buf: seq<byte>, p: nat, acc: seq<(M.Val, M.Val)>, m: M.Memory, id: nat)
    requires id < |m.heap|
    ensures SameBut(id, M.DecodeEntries(buf, p, acc, M.Memory(m.heap[id := M.Table(acc)], m.seen)),
                    M.DecodeEntries(buf, p, acc, m))
  {
    hide M.DecodeEntries;
    EntriesFrame(buf, p, acc, m, m.heap[id := M.Table(acc)]);
  }

  lemma StoredAt(id: nat, heap: M.Heap, r: M.DecodedEntries, whole: M.DecodedEntries)
    requires id < |heap| && r.DecodedEntries? && r.memory.heap == heap && heap[id] == M.Table(r.entries)
    requires SameBut(id, r, whole)
    ensures whole.memory.heap[id := M.Table(whole.entries)] == heap
  {
  }

  /** mar_decode */
  method Decode(bytes: seq<byte>, constants: seq<M.Val>, heap: M.Heap) returns (ok: bool, v: M.Val, after: M.Heap)
    ensures var r := M.Decode(bytes, constants, heap);
            ok == r.Decoded? && (ok ==> v == r.val && after == r.memory.heap)
  {
    hide M.DecodeValue;
    ok, v, after := false, M.Nil, heap;
    if bytes != [] && bytes[0] == M.MAGIC {
      var decoder := new Decoder(heap, constants);
      var next;
      ok, v, next := decoder.DecodeValue(bytes[1..], 0);
      after := decoder.heap;
    }
  }
}
