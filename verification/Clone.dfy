/** mar_clone: the two running halves of the marshaller, one behind the other in one Lua state. */
module Cloning {
  import opened Bytes
  import opened Marshal
  import opened Preorder
  import opened Isomorphism
  import Encoding
  import Decoding

  lemma AgreesWithItself(constants: seq<Val>, heap: Heap)
    requires forall k | 0 <= k < |constants| :: ValOk(heap, constants[k])
    ensures Agree(constants, constants, heap)
  {
  }

  /** When it succeeds, the new value is an independent copy: its graph is carried one to one from the old graph, shares
      only the constants with it, and nothing that existed has changed. */
  method Clone(heap: Heap, v: Val, constants: seq<Val>, nowrap: bool) returns (ok: bool, copy: Val, after: Heap)
    requires HeapOk(heap) && ValOk(heap, v) && |constants| + |heap| < INT_LIMIT
    requires forall k | 0 <= k < |constants| :: ValOk(heap, constants[k])
    ensures ok <==> Encode(heap, v, constants, nowrap).Encoded?
    ensures ok ==> exists f :: Carries(f, heap, v, constants, heap, constants, after, copy)
    ensures !ok ==> after == heap
  {
    hide Carries, HeapOk, Agree, Decode, Encode, WalkValue;
    var bytes;
    copy, after := Nil, heap;
    ok, bytes := Encoding.Encode(heap, v, constants, nowrap);
    if ok {
      AgreesWithItself(constants, heap);
      DecodeEncode(heap, v, constants, nowrap, heap, constants);
      ok, copy, after := Decoding.Decode(bytes, constants, heap);
    }
  }
}
