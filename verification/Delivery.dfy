/** The code of src/kernel/event.c that copies, keeps and restores the arguments of an event. */
module Delivery {
  import opened Bytes
  import opened Marshal
  import opened Copying
  import opened Packing
  import Encoding
  import Decoding

  /** copy_values_directly */
  method CopyValuesDirectly(h: Heap, args: seq<Val>, d: Heap) returns (r: Outcome)
    requires HeapOk(h) && AllOk(h, args)
    ensures r == CopyAll(h, args, d)
  {
    hide HeapOk, Encode, Decode, CopyAll;
    r := Arrived([], d);
    NoneCopied(h, d);
    var i := 0;
    while i < |args|
      invariant 0 <= i <= |args| && r.Arrived?
      invariant r == CopyAll(h, args[..i], d)
    {
      CopyNext(h, args, i, d);
      if args[i].Ref? {
        var ok, bytes := Encoding.Encode(h, args[i], [], false);
        if !ok {
          CopyRefused(h, args, i + 1, d);
          return Refused;
        }
        var val, heap;
        ok, val, heap := Decoding.Decode(bytes, [], r.heap);
        if !ok {
          CopyRefused(h, args, i + 1, d);
          return Refused;
        }
        r := Arrived(r.vals + [val], heap);
      } else {
        r := Arrived(r.vals + [args[i]], r.heap);
      }
      i := i + 1;
    }
    assert args[..i] == args;
  }

  lemma NoneCopied(h: Heap, d: Heap)
    requires HeapOk(h)
    ensures CopyAll(h, [], d) == Arrived([], d)
  {
  }

  lemma CopyNext(h: Heap, args: seq<Val>, i: nat, d: Heap)
    requires HeapOk(h) && AllOk(h, args) && i < |args|
    ensures var before := CopyAll(h, args[..i], d);
            CopyAll(h, args[..i + 1], d) ==
            if before.Refused? then Refused else Push(before, CopyOne(h, args[i], before.heap))
  {
    hide HeapOk, CopyOne;
    assert args[..i + 1][..i] == args[..i];
  }

  lemma {:induction false} CopyRefused(h: Heap, args: seq<Val>, i: nat, d: Heap)
    requires HeapOk(h) && AllOk(h, args) && i <= |args| && CopyAll(h, args[..i], d).Refused?
    ensures CopyAll(h, args, d).Refused?
    decreases |args| - i
  {
    hide HeapOk, CopyOne, CopyAll;
    if i < |args| {
      CopyNext(h, args, i, d);
      CopyRefused(h, args, i + 1, d);
    } else {
      assert args[..i] == args;
    }
  }

  /** extract_event_from_lua_state: fails exactly when the marshaller refuses an argument */
  method Extract(h: Heap, args: seq<Val>) returns (ok: bool, payload: seq<Element>)
    requires HeapOk(h) && AllOk(h, args)
    ensures ok <==> Marshals(h, args, false)
    ensures ok ==> HoldsAll(h, args, payload)
  {
    hide HeapOk, Encode;
    payload := [];
    var i := 0;
    while i < |args|
      invariant 0 <= i <= |args| && |payload| == i
      invariant forall j | 0 <= j < i ::
                  (args[j].Ref? ==> Encode(h, args[j], [], false).Encoded?) && payload[j] == ElementOf(h, args[j])
    {
      if args[i].Ref? {
        var bytes;
        ok, bytes := Encoding.Encode(h, args[i], [], false);
        if !ok {
          return;
        }
        payload := payload + [Coded(Kind(h[args[i].id]), bytes)];
      } else {
        payload := payload + [Scalar(args[i])];
      }
      i := i + 1;
    }
    ok := true;
  }

  lemma RestoreNext(payload: seq<Element>, i: nat, d: Heap)
    requires i < |payload|
    ensures var before := RestoreAll(payload[..i], d);
            RestoreAll(payload[..i + 1], d) ==
            if before.Refused? then Refused else Push(before, RestoreOne(payload[i], before.heap))
  {
    hide RestoreOne;
    assert payload[..i + 1][..i] == payload[..i];
  }

  lemma {:induction false} RestoreRefused(payload: seq<Element>, i: nat, d: Heap)
    requires i <= |payload| && RestoreAll(payload[..i], d).Refused?
    ensures RestoreAll(payload, d).Refused?
    decreases |payload| - i
  {
    hide RestoreOne, RestoreAll;
    if i < |payload| {
      RestoreNext(payload, i, d);
      RestoreRefused(payload, i + 1, d);
    } else {
      assert payload[..i] == payload;
    }
  }

  /** restore_event_to_lua_state, for a payload */
  method Restore(payload: seq<Element>, d: Heap) returns (r: Outcome)
    ensures r == RestoreAll(payload, d)
  {
    hide Decode;
    r := Arrived([], d);
    var i := 0;
    while i < |payload|
      invariant 0 <= i <= |payload| && r.Arrived?
      invariant r == RestoreAll(payload[..i], d)
    {
      RestoreNext(payload, i, d);
      if payload[i].Coded? {
        var ok, val, heap := Decoding.Decode(payload[i].bytes, [], r.heap);
        if !ok {
          RestoreRefused(payload, i + 1, d);
          return Refused;
        }
        r := Arrived(r.vals + [val], heap);
      } else {
        r := Arrived(r.vals + [payload[i].v], r.heap);
      }
      i := i + 1;
    }
    assert payload[..i] == payload;
  }

  /** restore_event_to_lua_state, for a packed event; `n` is the length that Lua gives the table */
  method RestorePacked(bytes: seq<byte>, d: Heap, n: nat) returns (r: Outcome)
    ensures r == Unpacked(bytes, d, n)
  {
    hide Decode;
    var ok, val, heap := Decoding.Decode(bytes, [], d);
    if !ok || !val.Ref? || val.id >= |heap| || !heap[val.id].Table? {
      return Refused;
    }
    r := Arrived(Upto(heap[val.id].entries, n), heap);
  }
}
