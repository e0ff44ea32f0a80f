/** When encoding succeeds: exactly when nothing on the walk is refused, as long as what the walk meets fits in 32-bit
    lengths. */
module EncodeSuccess {
  import opened Bytes
  import opened Marshal
  import opened Preorder
  import opened Reachability

  // ----- what the encoder refuses -----

  predicate CleanVal(v: Val, nowrap: bool) {
    !(nowrap && v.Light?)
  }

  ghost predicate CleanEntries(entries: seq<(Val, Val)>, nowrap: bool) {
    forall k | 0 <= k < |entries| :: CleanVal(entries[k].0, nowrap) && CleanVal(entries[k].1, nowrap)
  }

  /** Neither a C function, nor a userdata, nor a holder of light userdata where those are refused. */
  ghost predicate CleanObj(h: Heap, id: nat, nowrap: bool) {
    id < |h| && ObjOk(h, h[id]) && !h[id].Opaque? && CleanEntries(Body(h[id]), nowrap)
  }

  ghost predicate AllClean(h: Heap, from: nat, order: seq<nat>, nowrap: bool) {
    forall k | from <= k < |order| :: CleanObj(h, order[k], nowrap)
  }

  // ----- how long an encoding can get -----

  function ValWeight(v: Val): nat {
    match v
    case Nil => 1
    case Bool(_) => 2
    case Light(_) => 9
    case Num(_) => 9
    case Str(text) => 5 + |text|
    case Ref(_) => 6
  }

  function EntriesWeight(entries: seq<(Val, Val)>): nat {
    if entries == [] then 0
    else ValWeight(entries[0].0) + ValWeight(entries[0].1) + EntriesWeight(entries[1..])
  }

  ghost function ObjWeight(o: Obj): nat {
    if o.Closure? && |o.upvals| > 255 then 0
    else 10 + (if o.Closure? then |o.code| else 0) + EntriesWeight(Body(o))
  }

  /** The weight of the objects of `s` below `k`. */
  ghost function Weighs(h: Heap, k: nat, s: set<nat>): nat
    requires k <= |h|
  {
    if k == 0 then 0
    else Weighs(h, k - 1, s) + if k - 1 in s then ObjWeight(h[k - 1]) else 0
  }

  lemma {:induction false} WeighsMore(h: Heap, k: nat, s: set<nat>, t: set<nat>)
    requires k <= |h| && s <= t
    ensures Weighs(h, k, s) <= Weighs(h, k, t)
  {
    if k > 0 {
      WeighsMore(h, k - 1, s, t);
    }
  }

  lemma {:induction false} WeighsOne(h: Heap, k: nat, s: set<nat>, id: nat)
    requires k <= |h| && id < |h| && id !in s
    ensures Weighs(h, k, s + {id}) == Weighs(h, k, s) + if id < k then ObjWeight(h[id]) else 0
  {
    if k > 0 {
      WeighsOne(h, k - 1, s, id);
    }
  }

  /** What the objects met by a walk weigh. */
  ghost function Grams(h: Heap, order: seq<nat>): nat {
    Weighs(h, |h|, Elements(order))
  }

  lemma GramsGrow(h: Heap, order: seq<nat>, more: seq<nat>)
    requires order <= more
    ensures Grams(h, order) <= Grams(h, more)
  {
    assert forall x | x in order :: x in more;
    WeighsMore(h, |h|, Elements(order), Elements(more));
  }

  lemma GramsEnter(h: Heap, order: seq<nat>, id: nat)
    requires id < |h| && id !in order
    ensures Grams(h, order + [id]) == Grams(h, order) + ObjWeight(h[id])
  {
    assert Elements(order + [id]) == Elements(order) + {id};
    WeighsOne(h, |h|, Elements(order), id);
  }

  /** An outcome: success only when `clean`, and then the numbers follow the walk and the bytes written are paid for by
      the value's own weight and by the objects that got a number; and always when `clean` and all this fits. */
  ghost predicate Succeeds(h: Heap, r: Encoded, clean: bool, base: Numbering, order: seq<nat>, walk: seq<nat>,
                           weight: nat) {
    && (r.Encoded? ==>
          clean && Lists(base, walk, r.numbering) && |r.bytes| + Grams(h, order) <= weight + Grams(h, walk))
    && (clean && weight + Grams(h, walk) - Grams(h, order) < U32_LIMIT ==> r.Encoded?)
  }

  lemma {:induction false} ValueSucceeds(h: Heap, v: Val, base: Numbering, order: seq<nat>, n: Numbering, nowrap: bool)
    requires HeapOk(h) && ValOk(h, v) && Lists(base, order, n)
    ensures var walk := WalkValue(h, v, base.seen.Keys, order);
            Succeeds(h, EncodeValue(h, v, n, nowrap), CleanVal(v, nowrap) && AllClean(h, |order|, walk, nowrap),
                     base, order, walk, ValWeight(v))
    decreases |Unseen(h, n)|, 0
  {
    hide Lists, HeapOk, EncodeObject, WalkEntries, AllClean, Grams, ObjOk;
    if !v.Ref? {
      NoneMore(h, order, nowrap);
    } else {
      ListsMeans(base, order, n, v.id);
      if v.id in n.seen {
        NoneMore(h, order, nowrap);
      } else {
        EnterShrinks(h, n, v.id);
        LeftLoses(h, base.seen.Keys, order, v.id);
        ObjectOk(h, v.id);
        ObjectSucceeds(h, v.id, base, order, n, nowrap);
      }
    }
  }

  lemma NoneMore(h: Heap, order: seq<nat>, nowrap: bool)
    ensures AllClean(h, |order|, order, nowrap)
  {
  }

  lemma CleanFirst(h: Heap, from: nat, order: seq<nat>, nowrap: bool)
    requires from < |order|
    ensures AllClean(h, from, order, nowrap) <==>
            CleanObj(h, order[from], nowrap) && AllClean(h, from + 1, order, nowrap)
  {
  }

  lemma {:induction false} ObjectSucceeds(h: Heap, id: nat, base: Numbering, order: seq<nat>, n: Numbering,
                                          nowrap: bool)
    requires HeapOk(h) && id < |h| && id !in n.seen && ObjOk(h, h[id]) && Lists(base, order, n)
    requires |Unseen(h, Enter(n, id))| < |Unseen(h, n)|
    ensures var walk := WalkEntries(h, Body(h[id]), base.seen.Keys, order + [id]);
            Succeeds(h, EncodeObject(h, id, n, nowrap), AllClean(h, |order|, walk, nowrap), base, order, walk, 6)
    decreases |Unseen(h, Enter(n, id))|, 1 + |Body(h[id])|, 1
  {
    hide Lists, HeapOk, EncodeEntries, WalkEntries, AllClean, Grams, EntriesOk, DistinctKeys, CleanEntries,
         IndexBytes, U32;
    var walk := WalkEntries(h, Body(h[id]), base.seen.Keys, order + [id]);
    ListsMeans(base, order, n, id);
    ListsMore(base, order, n, id);
    GramsEnter(h, order, id);
    GramsGrow(h, order + [id], walk);
    CleanFirst(h, |order|, walk, nowrap);
    assert walk[|order|] == (order + [id])[|order|] == id;
    EntriesSucceed(h, Body(h[id]), base, order + [id], Enter(n, id), nowrap);
  }

  lemma CleanTail(entries: seq<(Val, Val)>, nowrap: bool)
    requires entries != []
    ensures CleanEntries(entries, nowrap) <==>
            CleanVal(entries[0].0, nowrap) && CleanVal(entries[0].1, nowrap) && CleanEntries(entries[1..], nowrap)
  {
    assert forall k | 1 <= k < |entries| :: entries[k] == entries[1..][k - 1];
  }

  lemma CleanSplit(h: Heap, from: nat, mid: seq<nat>, order: seq<nat>, nowrap: bool)
    requires mid <= order && from <= |mid|
    ensures AllClean(h, from, order, nowrap) <==> AllClean(h, from, mid, nowrap) && AllClean(h, |mid|, order, nowrap)
  {
    hide CleanObj;
    assert forall k | 0 <= k < |mid| :: mid[k] == order[k];
  }

  lemma {:induction false} EntriesSucceed(h: Heap, entries: seq<(Val, Val)>, base: Numbering, order: seq<nat>,
                                          n: Numbering, nowrap: bool)
    requires HeapOk(h) && EntriesOk(h, entries) && Lists(base, order, n)
    ensures var walk := WalkEntries(h, entries, base.seen.Keys, order);
            Succeeds(h, EncodeEntries(h, entries, n, nowrap),
                     CleanEntries(entries, nowrap) && AllClean(h, |order|, walk, nowrap),
                     base, order, walk, EntriesWeight(entries))
    decreases |Unseen(h, n)|, 1 + |entries|, 0
  {
    hide Lists, HeapOk, EncodeValue, WalkValue, AllClean, CleanEntries, ValWeight, Grams;
    if entries == [] {
      NoneMore(h, order, nowrap);
      assert CleanEntries(entries, nowrap) by { NoEntriesClean(nowrap); }
    } else {
      var stop := base.seen.Keys;
      var e := entries[0];
      CleanTail(entries, nowrap);
      var keys := WalkValue(h, e.0, stop, order);
      LeftShrinks(h, stop, order, keys);
      var both := WalkValue(h, e.1, stop, keys);
      LeftShrinks(h, stop, order, both);
      var all := WalkEntries(h, entries[1..], stop, both);
      CleanSplit(h, |order|, keys, all, nowrap);
      CleanSplit(h, |keys|, both, all, nowrap);
      GramsGrow(h, order, keys);
      GramsGrow(h, keys, both);
      GramsGrow(h, both, all);
      ValueSucceeds(h, e.0, base, order, n, nowrap);
      var key := EncodeValue(h, e.0, n, nowrap);
      if key.Encoded? {
        UnseenShrinks(h, n, key.numbering);
        ValueSucceeds(h, e.1, base, keys, key.numbering, nowrap);
        var value := EncodeValue(h, e.1, key.numbering, nowrap);
        if value.Encoded? {
          UnseenShrinks(h, n, value.numbering);
          EntriesSucceed(h, entries[1..], base, both, value.numbering, nowrap);
        }
      }
    }
  }

  lemma NoEntriesClean(nowrap: bool)
    ensures CleanEntries([], nowrap)
  {
  }

  /** mar_encode succeeds only when neither the value nor anything on the walk from it is refused, and if what the walk
      meets fits in 32-bit lengths, then exactly when. */
  lemma EncodeSucceedsExactly(h: Heap, v: Val, constants: seq<Val>, nowrap: bool)
    requires HeapOk(h) && ValOk(h, v)
    ensures var walk := WalkValue(h, v, ConstantSeen(constants).Keys, []);
            var clean := CleanVal(v, nowrap) && AllClean(h, 0, walk, nowrap);
            var r := Encode(h, v, constants, nowrap);
            && (r.Encoded? ==> clean && |r.bytes| <= 1 + ValWeight(v) + Grams(h, walk))
            && (ValWeight(v) + Grams(h, walk) < U32_LIMIT ==> (r.Encoded? <==> clean))
  {
    hide EncodeValue, WalkValue, HeapOk, ConstantSeen, AllClean;
    var n := Numbering(ConstantSeen(constants), |constants| + 1);
    ValueSucceeds(h, v, n, [], n, nowrap);
    assert Elements([]) == {};
    WeighsNothing(h, |h|);
  }

  lemma {:induction false} WeighsNothing(h: Heap, k: nat)
    requires k <= |h|
    ensures Weighs(h, k, {}) == 0
  {
    if k > 0 {
      WeighsNothing(h, k - 1);
    }
  }
}
