/** The encoder's numbers are the positions of a depth-first preorder walk of the graph. */
module Preorder {
  import opened Marshal
  import opened NumberingFacts

  /** Objects the walk can still add to `order`; it does not enter the objects of `stop`. */
  function Left(h: Heap, stop: set<nat>, order: seq<nat>): set<nat> {
    set i | 0 <= i < |h| && i !in stop && i !in order
  }

  lemma LeftShrinks(h: Heap, stop: set<nat>, order: seq<nat>, more: seq<nat>)
    requires order <= more
    ensures |Left(h, stop, more)| <= |Left(h, stop, order)|
  {
    assert forall x | x in order :: x in more;
    assert Left(h, stop, order) == Left(h, stop, more) + (Left(h, stop, order) - Left(h, stop, more));
  }

  lemma LeftLoses(h: Heap, stop: set<nat>, order: seq<nat>, id: nat)
    requires id in Left(h, stop, order)
    ensures |Left(h, stop, order + [id])| < |Left(h, stop, order)|
  {
    assert Left(h, stop, order) == Left(h, stop, order + [id]) + {id};
  }

  /** The objects met when the walk that has met `order` goes on with `v`: an object comes before
      everything that is first met inside it, keys before their values, entries in order. */
  ghost function WalkValue(h: Heap, v: Val, stop: set<nat>, order: seq<nat>): (r: seq<nat>)
    requires HeapOk(h) && ValOk(h, v)
    ensures order <= r
    decreases |Left(h, stop, order)|, 0
  {
    if v.Ref? && v.id !in stop && v.id !in order then
      LeftLoses(h, stop, order, v.id);
      assert ObjOk(h, h[v.id]);
      WalkEntries(h, Body(h[v.id]), stop, order + [v.id])
    else order
  }

  ghost function WalkEntries(h: Heap, entries: seq<(Val, Val)>, stop: set<nat>, order: seq<nat>): (r: seq<nat>)
    requires HeapOk(h) && EntriesOk(h, entries)
    ensures order <= r
    decreases |Left(h, stop, order)|, 1 + |entries|
  {
    if entries == [] then order
    else
      var keys := WalkValue(h, entries[0].0, stop, order);
      LeftShrinks(h, stop, order, keys);
      var both := WalkValue(h, entries[0].1, stop, keys);
      LeftShrinks(h, stop, order, both);
      WalkEntries(h, entries[1..], stop, both)
  }

  /** `n` numbers the objects of `order` consecutively behind those of `base`. */
  ghost predicate Lists(base: Numbering, order: seq<nat>, n: Numbering) {
    && n.idx == base.idx + |order|
    && n.seen.Keys == base.seen.Keys + (set k | 0 <= k < |order| :: order[k])
    && (forall k | 0 <= k < |order| :: order[k] !in base.seen && n.seen[order[k]] == base.idx + k)
    && (forall a | a in base.seen :: n.seen[a] == base.seen[a])
  }

  lemma ListsMore(base: Numbering, order: seq<nat>, n: Numbering, id: nat)
    requires Lists(base, order, n) && id !in n.seen
    ensures Lists(base, order + [id], Enter(n, id))
  {
    var more := order + [id];
    var m := Enter(n, id);
    assert forall k | 0 <= k < |order| :: order[k] in n.seen.Keys && more[k] == order[k];
    assert more[|order|] == id;
    assert id !in base.seen;
  }

  lemma ListsMeans(base: Numbering, order: seq<nat>, n: Numbering, id: nat)
    requires Lists(base, order, n)
    ensures id in n.seen <==> id in base.seen || id in order
  {
  }

  lemma {:induction false} ValueWalks(h: Heap, v: Val, base: Numbering, order: seq<nat>, n: Numbering, nowrap: bool)
    requires HeapOk(h) && ValOk(h, v) && Lists(base, order, n)
    requires EncodeValue(h, v, n, nowrap).Encoded?
    ensures Lists(base, WalkValue(h, v, base.seen.Keys, order), EncodeValue(h, v, n, nowrap).numbering)
    decreases |Unseen(h, n)|, 0
  {
    hide Lists, EntriesOk, DistinctKeys, EncodeEntries, WalkEntries;
    if v.Ref? {
      ListsMeans(base, order, n, v.id);
      if v.id !in n.seen {
        EnterShrinks(h, n, v.id);
        LeftLoses(h, base.seen.Keys, order, v.id);
        assert ObjOk(h, h[v.id]);
        ListsMore(base, order, n, v.id);
        EntriesWalk(h, Body(h[v.id]), base, order + [v.id], Enter(n, v.id), nowrap);
      }
    }
  }

  lemma {:induction false} EntriesWalk(h: Heap, entries: seq<(Val, Val)>, base: Numbering, order: seq<nat>,
                                       n: Numbering, nowrap: bool)
    requires HeapOk(h) && EntriesOk(h, entries) && Lists(base, order, n)
    requires EncodeEntries(h, entries, n, nowrap).Encoded?
    ensures Lists(base, WalkEntries(h, entries, base.seen.Keys, order), EncodeEntries(h, entries, n, nowrap).numbering)
    decreases |Unseen(h, n)|, 1 + |entries|
  {
    hide Lists, EncodeValue, WalkValue, HeapOk;
    if entries != [] {
      var stop := base.seen.Keys;
      var key := EncodeValue(h, entries[0].0, n, nowrap);
      ValueWalks(h, entries[0].0, base, order, n, nowrap);
      UnseenShrinks(h, n, key.numbering);
      var keys := WalkValue(h, entries[0].0, stop, order);
      LeftShrinks(h, stop, order, keys);
      var value := EncodeValue(h, entries[0].1, key.numbering, nowrap);
      ValueWalks(h, entries[0].1, base, keys, key.numbering, nowrap);
      UnseenShrinks(h, n, value.numbering);
      var both := WalkValue(h, entries[0].1, stop, keys);
      LeftShrinks(h, stop, order, both);
      EntriesWalk(h, entries[1..], base, both, value.numbering, nowrap);
    }
  }

  /** The numbers that encoding `v` hands out are the positions of the objects in the walk from `v`. */
  lemma NumbersArePreorder(h: Heap, v: Val, base: Numbering, nowrap: bool)
    requires HeapOk(h) && ValOk(h, v) && EncodeValue(h, v, base, nowrap).Encoded?
    ensures Lists(base, WalkValue(h, v, base.seen.Keys, []), EncodeValue(h, v, base, nowrap).numbering)
  {
    ValueWalks(h, v, base, [], base, nowrap);
  }
}
