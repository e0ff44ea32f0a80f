/** What the encoder's numbering does: it terminates on cycles, numbers in preorder, and visits exactly
    what is reachable. */
module NumberingFacts {
  import opened Bytes
  import opened Marshal

  predicate Covered(seen: map<nat, nat>, v: Val) {
    v.Ref? ==> v.id in seen
  }

  ghost predicate CoveredAll(seen: map<nat, nat>, entries: seq<(Val, Val)>) {
    forall k | 0 <= k < |entries| :: Covered(seen, entries[k].0) && Covered(seen, entries[k].1)
  }

  /** Numbers are positive, below the counter, and name one object each. */
  ghost predicate Injective(n: Numbering) {
    && n.idx >= 1
    && (forall a | a in n.seen :: 1 <= n.seen[a] < n.idx)
    && (forall a, b | a in n.seen && b in n.seen && a != b :: n.seen[a] != n.seen[b])
  }

  ghost predicate Extends(n: Numbering, m: Numbering) {
    && n.idx <= m.idx
    && (forall a | a in n.seen :: a in m.seen && m.seen[a] == n.seen[a])
  }

  /** An object that has been written out in full. */
  ghost predicate Complete(h: Heap, seen: map<nat, nat>, id: nat) {
    && id < |h| && ObjOk(h, h[id]) && !h[id].Opaque?
    && CoveredAll(seen, Body(h[id]))
  }

  /** From `n` to `m` the numbering grew by completed objects only, with consecutive numbers. */
  ghost predicate Grown(h: Heap, n: Numbering, m: Numbering) {
    && Extends(n, m) && Injective(m)
    && (forall a | a in m.seen && a !in n.seen :: n.idx <= m.seen[a] && Complete(h, m.seen, a))
    && |m.seen| == |n.seen| + m.idx - n.idx
  }

  lemma CoveredMore(n: Numbering, m: Numbering, entries: seq<(Val, Val)>)
    requires Extends(n, m) && CoveredAll(n.seen, entries)
    ensures CoveredAll(m.seen, entries)
  {
  }

  lemma GrownMeans(h: Heap, n: Numbering, m: Numbering)
    requires Grown(h, n, m)
    ensures n.idx <= m.idx && Extends(n, m) && Injective(m)
  {
  }

  lemma GrownAgain(h: Heap, a: Numbering, b: Numbering, c: Numbering)
    requires Grown(h, a, b) && Grown(h, b, c)
    ensures Grown(h, a, c)
  {
    forall x | x in c.seen && x !in a.seen ensures a.idx <= c.seen[x] && Complete(h, c.seen, x) {
      if x in b.seen {
        assert Complete(h, b.seen, x);
        CoveredMore(b, c, Body(h[x]));
      }
    }
  }

  lemma EnterInjective(n: Numbering, id: nat)
    requires Injective(n) && id !in n.seen
    ensures Injective(Enter(n, id)) && Extends(n, Enter(n, id))
    ensures |Enter(n, id).seen| == |n.seen| + 1
  {
    assert Enter(n, id).seen.Keys == n.seen.Keys + {id};
  }

  /** Everything numbered on the way to `m` is complete, and so is the object entered first. */
  lemma GrownFromEntry(h: Heap, n: Numbering, id: nat, m: Numbering)
    requires Injective(n) && id !in n.seen && Grown(h, Enter(n, id), m) && Complete(h, m.seen, id)
    ensures Grown(h, n, m)
  {
    EnterInjective(n, id);
    forall x | x in m.seen && x !in n.seen ensures n.idx <= m.seen[x] && Complete(h, m.seen, x) {
      if x != id {
        assert x !in Enter(n, id).seen;
      }
    }
  }

  lemma {:induction false} ValueGrows(h: Heap, v: Val, n: Numbering, nowrap: bool)
    requires HeapOk(h) && ValOk(h, v) && Injective(n)
    ensures var r := EncodeValue(h, v, n, nowrap);
            r.Encoded? ==> Grown(h, n, r.numbering) && Covered(r.numbering.seen, v)
    decreases |Unseen(h, n)|, 0
  {
    if v.Ref? && v.id !in n.seen {
      EnterShrinks(h, n, v.id);
      assert ObjOk(h, h[v.id]);
      ObjectGrows(h, v.id, n, nowrap);
    }
  }

  lemma {:induction false} ObjectGrows(h: Heap, id: nat, n: Numbering, nowrap: bool)
    requires HeapOk(h) && id < |h| && id !in n.seen && ObjOk(h, h[id]) && Injective(n)
    requires |Unseen(h, Enter(n, id))| < |Unseen(h, n)|
    ensures var r := EncodeObject(h, id, n, nowrap);
            r.Encoded? ==> Grown(h, n, r.numbering) && id in r.numbering.seen
    decreases |Unseen(h, Enter(n, id))|, 1 + |Body(h[id])|, 1
  {
    EnterInjective(n, id);
    EntriesGrow(h, Body(h[id]), Enter(n, id), nowrap);
    var r := EncodeObject(h, id, n, nowrap);
    if r.Encoded? {
      assert Complete(h, r.numbering.seen, id);
      GrownFromEntry(h, n, id, r.numbering);
    }
  }

  /** One round of the encoder's loop over the entries. */
  lemma EncodeEntriesAt(h: Heap, entries: seq<(Val, Val)>, n: Numbering, nowrap: bool)
    requires HeapOk(h) && EntriesOk(h, entries) && entries != []
    requires EncodeEntries(h, entries, n, nowrap).Encoded?
    ensures ValOk(h, entries[0].0) && ValOk(h, entries[0].1) && !entries[0].0.Nil? && !entries[0].1.Nil?
    ensures EntriesOk(h, entries[1..])
    ensures EncodeValue(h, entries[0].0, n, nowrap).Encoded?
    ensures var n1 := EncodeValue(h, entries[0].0, n, nowrap).numbering;
            && EncodeValue(h, entries[0].1, n1, nowrap).Encoded?
            && |Unseen(h, n1)| <= |Unseen(h, n)|
            && var n2 := EncodeValue(h, entries[0].1, n1, nowrap).numbering;
               && |Unseen(h, n2)| <= |Unseen(h, n)|
               && EncodeEntries(h, entries[1..], n2, nowrap).Encoded?
               && EncodeEntries(h, entries, n, nowrap) ==
                  Encoded(EncodeValue(h, entries[0].0, n, nowrap).bytes + EncodeValue(h, entries[0].1, n1, nowrap).bytes
                          + EncodeEntries(h, entries[1..], n2, nowrap).bytes,
                          EncodeEntries(h, entries[1..], n2, nowrap).numbering)
  {
    hide EncodeValue, HeapOk;
    var n1 := EncodeValue(h, entries[0].0, n, nowrap).numbering;
    UnseenShrinks(h, n, n1);
    UnseenShrinks(h, n, EncodeValue(h, entries[0].1, n1, nowrap).numbering);
  }

  lemma CoveredLater(n: Numbering, m: Numbering, v: Val)
    requires Extends(n, m) && Covered(n.seen, v)
    ensures Covered(m.seen, v)
  {
  }

  lemma {:induction false} EntriesGrow(h: Heap, entries: seq<(Val, Val)>, n: Numbering, nowrap: bool)
    requires HeapOk(h) && EntriesOk(h, entries) && Injective(n)
    ensures var r := EncodeEntries(h, entries, n, nowrap);
            r.Encoded? ==> Grown(h, n, r.numbering) && CoveredAll(r.numbering.seen, entries)
    decreases |Unseen(h, n)|, 1 + |entries|, 0
  {
    hide HeapOk, EncodeValue, EncodeEntries, Grown, Injective, CoveredAll, Covered, Extends;
    if entries == [] {
      NoneGrown(h, n, nowrap);
    } else if EncodeEntries(h, entries, n, nowrap).Encoded? {
      EncodeEntriesAt(h, entries, n, nowrap);
      var k := EncodeValue(h, entries[0].0, n, nowrap).numbering;
      var v := EncodeValue(h, entries[0].1, k, nowrap).numbering;
      var r := EncodeEntries(h, entries[1..], v, nowrap).numbering;
      ValueGrows(h, entries[0].0, n, nowrap);
      GrownMeans(h, n, k);
      ValueGrows(h, entries[0].1, k, nowrap);
      GrownMeans(h, k, v);
      GrownAgain(h, n, k, v);
      EntriesGrow(h, entries[1..], v, nowrap);
      GrownMeans(h, v, r);
      GrownAgain(h, n, v, r);
      CoveredLater(k, v, entries[0].0);
      CoveredLater(v, r, entries[0].0);
      CoveredLater(v, r, entries[0].1);
      CoveredTail(entries, r.seen);
    }
  }

  lemma NoneGrown(h: Heap, n: Numbering, nowrap: bool)
    requires HeapOk(h) && Injective(n)
    ensures EncodeEntries(h, [], n, nowrap).numbering == n && Grown(h, n, n) && CoveredAll(n.seen, [])
  {
  }

  lemma CoveredTail(entries: seq<(Val, Val)>, seen: map<nat, nat>)
    requires entries != [] && Covered(seen, entries[0].0) && Covered(seen, entries[0].1)
    requires CoveredAll(seen, entries[1..])
    ensures CoveredAll(seen, entries)
  {
    forall k | 0 <= k < |entries| ensures Covered(seen, entries[k].0) && Covered(seen, entries[k].1) {
      if k > 0 {
        assert entries[1..][k - 1] == entries[k];
      }
    }
  }
}
