/** What the walk of the encoder meets: all of what is reachable from a value, and nothing else. */
module Reachability {
  import opened Marshal
  import opened Preorder

  predicate RefIn(s: set<nat>, v: Val) {
    v.Ref? ==> v.id in s
  }

  ghost predicate RefsIn(s: set<nat>, entries: seq<(Val, Val)>) {
    forall k | 0 <= k < |entries| :: RefIn(s, entries[k].0) && RefIn(s, entries[k].1)
  }

  /** `s` is closed under the references of its objects, where traversal stops at `stop`. */
  ghost predicate Closed(h: Heap, s: set<nat>, stop: set<nat>)
    requires HeapOk(h)
  {
    forall id | id in s && id < |h| && id !in stop ::
      assert ObjOk(h, h[id]); RefsIn(s + stop, Body(h[id]))
  }

  function Elements(order: seq<nat>): set<nat> {
    set x | x in order
  }

  // ----- nothing else -----

  lemma {:induction false} ValueStaysInside(h: Heap, v: Val, stop: set<nat>, order: seq<nat>, s: set<nat>)
    requires HeapOk(h) && ValOk(h, v) && Closed(h, s, stop) && RefIn(s + stop, v)
    ensures Elements(WalkValue(h, v, stop, order)) <= Elements(order) + s
    decreases |Left(h, stop, order)|, 0
  {
    if v.Ref? && v.id !in stop && v.id !in order {
      LeftLoses(h, stop, order, v.id);
      assert ObjOk(h, h[v.id]);
      EntriesStayInside(h, Body(h[v.id]), stop, order + [v.id], s);
    }
  }

  lemma {:induction false} EntriesStayInside(h: Heap, entries: seq<(Val, Val)>, stop: set<nat>, order: seq<nat>,
                                             s: set<nat>)
    requires HeapOk(h) && EntriesOk(h, entries) && Closed(h, s, stop) && RefsIn(s + stop, entries)
    ensures Elements(WalkEntries(h, entries, stop, order)) <= Elements(order) + s
    decreases |Left(h, stop, order)|, 1 + |entries|
  {
    hide HeapOk, Closed, WalkValue;
    if entries != [] {
      var keys := WalkValue(h, entries[0].0, stop, order);
      ValueStaysInside(h, entries[0].0, stop, order, s);
      LeftShrinks(h, stop, order, keys);
      var both := WalkValue(h, entries[0].1, stop, keys);
      ValueStaysInside(h, entries[0].1, stop, keys, s);
      LeftShrinks(h, stop, order, both);
      EntriesStayInside(h, entries[1..], stop, both, s);
    }
  }

  // ----- all of it -----

  /** The references of every object that `walk` has met after `order` lead to what it has met. */
  ghost predicate Done(h: Heap, stop: set<nat>, order: seq<nat>, walk: seq<nat>) {
    forall x | x in walk && x !in order ::
      x < |h| && x !in stop && ObjOk(h, h[x]) && RefsIn(Elements(walk) + stop, Body(h[x]))
  }

  lemma RefsInMore(s: set<nat>, t: set<nat>, entries: seq<(Val, Val)>)
    requires RefsIn(s, entries) && s <= t
    ensures RefsIn(t, entries)
  {
  }

  lemma DoneAgain(h: Heap, stop: set<nat>, a: seq<nat>, b: seq<nat>, c: seq<nat>)
    requires a <= b <= c && Done(h, stop, a, b) && Done(h, stop, b, c)
    ensures Done(h, stop, a, c) && Elements(b) <= Elements(c)
  {
    hide RefsIn, EntriesOk, DistinctKeys;
    assert forall x | x in b :: x in c;
    forall x | x in c && x !in a
      ensures x < |h| && x !in stop && ObjOk(h, h[x]) && RefsIn(Elements(c) + stop, Body(h[x]))
    {
      if x in b {
        RefsInMore(Elements(b) + stop, Elements(c) + stop, Body(h[x]));
      } else {
        assert x !in b;
      }
    }
  }

  lemma {:induction false} ValueIsDone(h: Heap, v: Val, stop: set<nat>, order: seq<nat>)
    requires HeapOk(h) && ValOk(h, v)
    ensures var walk := WalkValue(h, v, stop, order);
            Done(h, stop, order, walk) && RefIn(Elements(walk) + stop, v)
    decreases |Left(h, stop, order)|, 0
  {
    hide HeapOk, EntriesOk, DistinctKeys, WalkEntries, RefsIn;
    if v.Ref? && v.id !in stop && v.id !in order {
      LeftLoses(h, stop, order, v.id);
      assert ObjOk(h, h[v.id]) by { ObjectOk(h, v.id); }
      var more := order + [v.id];
      EntriesAreDone(h, Body(h[v.id]), stop, more);
      var walk := WalkEntries(h, Body(h[v.id]), stop, more);
      assert walk[|order|] == more[|order|] == v.id;
    }
  }

  lemma ObjectOk(h: Heap, id: nat)
    requires HeapOk(h) && id < |h|
    ensures ObjOk(h, h[id])
  {
  }

  lemma {:induction false} EntriesAreDone(h: Heap, entries: seq<(Val, Val)>, stop: set<nat>, order: seq<nat>)
    requires HeapOk(h) && EntriesOk(h, entries)
    ensures var walk := WalkEntries(h, entries, stop, order);
            Done(h, stop, order, walk) && RefsIn(Elements(walk) + stop, entries)
    decreases |Left(h, stop, order)|, 1 + |entries|
  {
    hide HeapOk, WalkValue, Done;
    if entries == [] {
      NothingDone(h, stop, order);
    } else {
      var keys := WalkValue(h, entries[0].0, stop, order);
      ValueIsDone(h, entries[0].0, stop, order);
      LeftShrinks(h, stop, order, keys);
      var both := WalkValue(h, entries[0].1, stop, keys);
      ValueIsDone(h, entries[0].1, stop, keys);
      LeftShrinks(h, stop, order, both);
      EntriesAreDone(h, entries[1..], stop, both);
      var all := WalkEntries(h, entries[1..], stop, both);
      DoneAgain(h, stop, order, keys, both);
      DoneAgain(h, stop, order, both, all);
      RefsInFirst(Elements(all) + stop, entries);
    }
  }

  lemma NothingDone(h: Heap, stop: set<nat>, order: seq<nat>)
    ensures Done(h, stop, order, order)
  {
  }

  lemma RefsInFirst(s: set<nat>, entries: seq<(Val, Val)>)
    requires entries != [] && RefIn(s, entries[0].0) && RefIn(s, entries[0].1) && RefsIn(s, entries[1..])
    ensures RefsIn(s, entries)
  {
    assert forall k | 1 <= k < |entries| :: entries[k] == entries[1..][k - 1];
  }

  // ----- reachable objects -----

  /** The objects met on the way from `v` that stops at `stop`. */
  ghost function Reach(h: Heap, v: Val, stop: set<nat>): set<nat>
    requires HeapOk(h) && ValOk(h, v)
  {
    Elements(WalkValue(h, v, stop, []))
  }

  /** They are closed under references, and every closed set that the value points into holds them. */
  lemma ReachIsLeast(h: Heap, v: Val, stop: set<nat>)
    requires HeapOk(h) && ValOk(h, v)
    ensures var met := Reach(h, v, stop);
            && Closed(h, met, stop) && RefIn(met + stop, v)
            && (forall x | x in met :: x < |h| && x !in stop)
            && forall s: set<nat> | Closed(h, s, stop) && RefIn(s + stop, v) :: met <= s
  {
    hide HeapOk, WalkValue, RefsIn, ObjOk;
    ValueIsDone(h, v, stop, []);
    forall s: set<nat> | Closed(h, s, stop) && RefIn(s + stop, v) ensures Reach(h, v, stop) <= s {
      ValueStaysInside(h, v, stop, [], s);
    }
  }
}
