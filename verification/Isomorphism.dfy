/** mar_decode after mar_encode: a graph isomorphic to what was encoded, and nothing else. */
module Isomorphism {
  import opened Bytes
  import opened Marshal
  import opened NumberingFacts
  import opened Preorder
  import opened Reachability
  import opened RoundTrip
  import opened Sets

  // ----- correspondence of values and objects under a map of object identities -----

  predicate SameVal(f: map<nat, nat>, v: Val, w: Val) {
    if v.Ref? then w.Ref? && v.id in f && w.id == f[v.id] else w == v
  }

  ghost predicate SameEntries(f: map<nat, nat>, s: seq<(Val, Val)>, t: seq<(Val, Val)>) {
    |s| == |t| && forall k | 0 <= k < |s| :: SameVal(f, s[k].0, t[k].0) && SameVal(f, s[k].1, t[k].1)
  }

  ghost predicate SameVals(f: map<nat, nat>, s: seq<Val>, t: seq<Val>) {
    |s| == |t| && forall k | 0 <= k < |s| :: SameVal(f, s[k], t[k])
  }

  ghost predicate SameObj(f: map<nat, nat>, o: Obj, p: Obj) {
    match o
    case Table(entries) => p.Table? && SameEntries(f, entries, p.entries)
    case Closure(code, upvals) => p.Closure? && p.code == code && SameVals(f, upvals, p.upvals)
    case Opaque(_) => false
  }

  ghost predicate OneToOne(f: map<nat, nat>) {
    forall a, b | a in f && b in f && a != b :: f[a] != f[b]
  }

  /** The last position at which an object occurs among the constants. */
  ghost predicate LastAt(constants: seq<Val>, k: nat, id: nat) {
    k < |constants| && constants[k] == Ref(id) && forall j | k < j < |constants| :: constants[j] != Ref(id)
  }

  function ConstantIds(constants: seq<Val>): set<nat> {
    set k | 0 <= k < |constants| && constants[k].Ref? :: constants[k].id
  }

  /** A constant object goes to the decoder's constant at the same position (the last one, if it is repeated). */
  ghost predicate CarriesConstants(f: map<nat, nat>, constants: seq<Val>, theirs: seq<Val>) {
    && ConstantIds(constants) <= f.Keys && |theirs| == |constants|
    && forall k: nat, id | id in f && LastAt(constants, k, id) :: theirs[k] == Ref(f[id])
  }

  ghost predicate IsImage(f: map<nat, nat>, stop: set<nat>, a: nat) {
    exists id :: id in f && id !in stop && f[id] == a
  }

  /** Every other object goes to a new object with the same contents, and there are no other new objects. */
  ghost predicate CarriesObjects(f: map<nat, nat>, h: Heap, stop: set<nat>, base: nat, e: Heap) {
    && (forall id | id in f && id !in stop :: id < |h| && base <= f[id] < |e| && SameObj(f, h[id], e[f[id]]))
    && (forall a: nat | base <= a < |e| :: IsImage(f, stop, a))
  }

  /** `f` carries the graph at `v` in `h`, cut at the constants, to the graph at `w` in `e`, one to one; the decoder's
      old heap `d` is unchanged. */
  ghost predicate Carries(f: map<nat, nat>, h: Heap, v: Val, constants: seq<Val>, d: Heap, theirs: seq<Val>, e: Heap,
                          w: Val) {
    && OneToOne(f) && SameVal(f, v, w) && d <= e
    && CarriesConstants(f, constants, theirs)
    && CarriesObjects(f, h, ConstantIds(constants), |d|, e)
  }

  // ----- constants -----

  /** The number of a constant object is its last position, counted from one. */
  lemma {:induction false} ConstantNumber(constants: seq<Val>, id: nat)
    ensures id in ConstantSeen(constants) <==> id in ConstantIds(constants)
    ensures id in ConstantSeen(constants) ==>
              ConstantSeen(constants)[id] >= 1 && LastAt(constants, ConstantSeen(constants)[id] - 1, id)
  {
    if constants != [] {
      var before := constants[..|constants| - 1];
      ConstantNumber(before, id);
      if id in ConstantIds(before) {
        var k :| 0 <= k < |before| && before[k].Ref? && before[k].id == id;
        assert constants[k] == before[k];
      }
      if id in ConstantIds(constants) && constants[|before|] != Ref(id) {
        var k :| 0 <= k < |constants| && constants[k].Ref? && constants[k].id == id;
        assert constants[k] == before[k];
      }
    }
  }

  lemma ConstantKeys(constants: seq<Val>)
    ensures ConstantSeen(constants).Keys == ConstantIds(constants)
  {
    forall id: nat ensures id in ConstantSeen(constants) <==> id in ConstantIds(constants) {
      ConstantNumber(constants, id);
    }
  }

  /** What the two callers must agree on: as many constants on each side, objects opposite objects,
      different ones opposite different ones. */
  ghost predicate Agree(constants: seq<Val>, theirs: seq<Val>, d: Heap) {
    && |constants| == |theirs|
    && (forall k | 0 <= k < |constants| && constants[k].Ref? :: theirs[k].Ref? && theirs[k].id < |d|)
    && (forall j, k | 0 <= j < |constants| && 0 <= k < |constants| && constants[j].Ref? && constants[k].Ref? ::
          constants[j] != constants[k] ==> theirs[j] != theirs[k])
  }

  function Start(constants: seq<Val>): Numbering {
    Numbering(ConstantSeen(constants), |constants| + 1)
  }

  function LinkTo(constants: seq<Val>, theirs: seq<Val>, d: Heap): Link {
    Link(theirs, |d|, ConstantSeen(constants).Values)
  }

  lemma StartIsInjective(constants: seq<Val>)
    ensures Injective(Start(constants))
  {
    hide ConstantSeen;
    var n := Start(constants);
    forall a | a in n.seen ensures 1 <= n.seen[a] < n.idx && constants[n.seen[a] - 1] == Ref(a) {
      ConstantNumber(constants, a);
    }
  }

  lemma UsedNumber(constants: seq<Val>, x: nat) returns (a: nat)
    requires x in ConstantSeen(constants).Values
    ensures a in ConstantSeen(constants) && ConstantSeen(constants)[a] == x
    ensures 1 <= x <= |constants| && constants[x - 1] == Ref(a)
  {
    hide ConstantSeen;
    a :| a in ConstantSeen(constants) && ConstantSeen(constants)[a] == x;
    ConstantNumber(constants, a);
  }

  lemma StartIsLinked(constants: seq<Val>, theirs: seq<Val>, d: Heap)
    requires Agree(constants, theirs, d)
    ensures Injective(Start(constants))
    ensures Linked(LinkTo(constants, theirs, d), Start(constants))
  {
    hide ConstantSeen, Injective;
    StartIsInjective(constants);
    var l := LinkTo(constants, theirs, d);
    forall x, y | x in l.used && y in l.used && x != y
      ensures 1 <= x <= |theirs| && 1 <= y <= |theirs| && theirs[x - 1] != theirs[y - 1]
    {
      var a := UsedNumber(constants, x);
      var b := UsedNumber(constants, y);
    }
    forall x | x in l.used ensures 1 <= x <= |theirs| && theirs[x - 1].Ref? && theirs[x - 1].id < |d| {
      var a := UsedNumber(constants, x);
    }
  }

  // ----- the counter stays within an int -----

  lemma CountWithin(s: set<nat>, n: nat)
    requires forall x | x in s :: x < n
    ensures |s| <= n
    decreases n
  {
    if n > 0 {
      CountWithin(s - {n - 1}, n - 1);
      assert s <= (s - {n - 1}) + {n - 1};
      assert |s| <= |(s - {n - 1}) + {n - 1}| by {
        SubsetSize(s, (s - {n - 1}) + {n - 1});
      }
    } else {
      assert s == {};
    }
  }

  lemma CounterBound(h: Heap, n: Numbering, m: Numbering)
    requires Grown(h, n, m)
    ensures m.idx <= n.idx + |h|
  {
    var fresh' := m.seen.Keys - n.seen.Keys;
    assert m.seen.Keys == n.seen.Keys + fresh';
    forall x | x in fresh' ensures x < |h| {
      assert Complete(h, m.seen, x);
    }
    CountWithin(fresh', |h|);
  }

  // ----- the map -----

  /** Where each numbered object lives on the decoder's side. */
  function Places(l: Link, n: Numbering): map<nat, nat> {
    map a | a in n.seen && Name(l, n.seen[a]).Ref? :: Name(l, n.seen[a]).id
  }

  lemma PlacesOne(l: Link, n: Numbering, v: Val)
    requires Linked(l, n) && Covered(n.seen, v)
    ensures SameVal(Places(l, n), v, Ren(l, n.seen, v))
  {
  }

  lemma PlacesOneToOne(l: Link, n: Numbering)
    requires Linked(l, n)
    ensures OneToOne(Places(l, n)) && Places(l, n).Keys == n.seen.Keys
  {
    var f := Places(l, n);
    forall a | a in n.seen ensures a in f {
      assert n.seen[a] in l.used || n.seen[a] > |l.constants|;
    }
    forall a, b | a in f && b in f && a != b ensures f[a] != f[b] {
      NameInjective(l, n, a, b);
    }
  }

  lemma SameRenamed(h: Heap, l: Link, n: Numbering, id: nat)
    requires Linked(l, n) && Complete(h, n.seen, id)
    ensures SameObj(Places(l, n), h[id], RenObj(l, n.seen, h[id]))
  {
    hide Linked, DistinctKeys, EntriesOk;
    var body := Body(h[id]);
    forall k | 0 <= k < |body|
      ensures SameVal(Places(l, n), body[k].0, Ren(l, n.seen, body[k].0))
      ensures SameVal(Places(l, n), body[k].1, Ren(l, n.seen, body[k].1))
    {
      PlacesOne(l, n, body[k].0);
      PlacesOne(l, n, body[k].1);
    }
    if h[id].Closure? {
      forall k | 0 <= k < |h[id].upvals|
        ensures SameVal(Places(l, n), h[id].upvals[k], Ren(l, n.seen, h[id].upvals[k]))
      {
        assert body[k].1 == h[id].upvals[k];
      }
    }
  }

  lemma ConstantsCarried(constants: seq<Val>, theirs: seq<Val>, d: Heap, m: Numbering)
    requires Agree(constants, theirs, d)
    requires Linked(LinkTo(constants, theirs, d), m) && Extends(Start(constants), m)
    ensures CarriesConstants(Places(LinkTo(constants, theirs, d), m), constants, theirs)
  {
    hide ConstantSeen, Linked;
    var l := LinkTo(constants, theirs, d);
    var f := Places(l, m);
    PlacesOneToOne(l, m);
    ConstantKeys(constants);
    forall k: nat, id | id in f && LastAt(constants, k, id) ensures theirs[k] == Ref(f[id]) {
      ConstantNumber(constants, id);
      assert constants[k].Ref? && id in ConstantIds(constants);
      assert m.seen[id] == k + 1;
    }
  }

  /** The objects numbered by the encoder, seen from the decoder's rebuilt heap. */
  lemma ObjectCarried(h: Heap, l: Link, n: Numbering, m: Numbering, d: Heap, e: Heap, id: nat)
    requires |l.constants| < n.idx && |l.constants| < m.idx && |d| == l.base && n.idx == |l.constants| + 1
    requires Linked(l, m) && Rebuilt(h, l, n, m, d, e) && id in m.seen && id !in n.seen
    ensures id < |h| && id in Places(l, m) && |d| <= Places(l, m)[id] < |e|
    ensures SameObj(Places(l, m), h[id], e[Places(l, m)[id]])
  {
    hide Linked, RenObj, SameObj, Places;
    assert Complete(h, m.seen, id);
    SameRenamed(h, l, m, id);
    PlaceOf(l, m, id);
  }

  lemma ObjectsCarried(h: Heap, l: Link, n: Numbering, m: Numbering, d: Heap, order: seq<nat>, e: Heap)
    requires |l.constants| < n.idx && |l.constants| < m.idx && |d| == l.base && n.idx == |l.constants| + 1
    requires Linked(l, m) && Rebuilt(h, l, n, m, d, e) && Lists(n, order, m)
    ensures CarriesObjects(Places(l, m), h, n.seen.Keys, |d|, e)
  {
    hide Linked, Rebuilt, RenObj, SameObj, Places, Lists;
    var f := Places(l, m);
    PlacesOneToOne(l, m);
    RebuiltMeans(h, l, n, m, d, e);
    forall id | id in f && id !in n.seen.Keys ensures id < |h| && |d| <= f[id] < |e| && SameObj(f, h[id], e[f[id]]) {
      ObjectCarried(h, l, n, m, d, e, id);
    }
    forall a: nat | |d| <= a < |e| ensures IsImage(f, n.seen.Keys, a) {
      var id := ListedAt(n, order, m, a - |d|);
      PlaceOf(l, m, id);
      assert id in f && id !in n.seen.Keys && f[id] == a;
    }
  }

  lemma PlaceOf(l: Link, n: Numbering, id: nat)
    requires id in n.seen && n.seen[id] > |l.constants|
    ensures id in Places(l, n) && Places(l, n)[id] == Address(l, n.seen[id])
  {
  }

  lemma ListedAt(n: Numbering, order: seq<nat>, m: Numbering, k: nat) returns (id: nat)
    requires Lists(n, order, m) && k < m.idx - n.idx
    ensures id in m.seen && id !in n.seen && m.seen[id] == n.idx + k
  {
    id := order[k];
  }

  lemma ListsKeys(n: Numbering, order: seq<nat>, m: Numbering)
    requires Lists(n, order, m)
    ensures m.idx == n.idx + |order| && m.seen.Keys == n.seen.Keys + (set k | 0 <= k < |order| :: order[k])
  {
  }

  lemma AgreeMeans(constants: seq<Val>, theirs: seq<Val>, d: Heap)
    requires Agree(constants, theirs, d)
    ensures |theirs| == |constants|
  {
  }

  /** Decoding an encoding consumes every byte and gives a graph isomorphic to the one that was encoded:
      the objects on the way are exactly those of the preorder walk from the value that stops at constants. */
  lemma DecodeEncode(h: Heap, v: Val, constants: seq<Val>, nowrap: bool, d: Heap, theirs: seq<Val>)
    requires HeapOk(h) && ValOk(h, v) && Agree(constants, theirs, d) && |constants| + |h| < INT_LIMIT
    requires Encode(h, v, constants, nowrap).Encoded?
    ensures var r := Encode(h, v, constants, nowrap);
            var back := Decode(r.bytes, theirs, d);
            var walk := WalkValue(h, v, ConstantIds(constants), []);
            && back.Decoded? && back.pos == |r.bytes| - 1
            && |back.memory.heap| == |d| + |walk|
            && exists f :: Carries(f, h, v, constants, d, theirs, back.memory.heap, back.val)
                           && f.Keys == ConstantIds(constants) + (set k | 0 <= k < |walk| :: walk[k])
  {
    hide HeapOk, EncodeValue, DecodeValue, ConstantSeen, Rebuilt, Linked, Grown, Injective, WalkValue, Agree, Places,
         Lists, CarriesConstants, CarriesObjects, OneToOne;
    var n := Start(constants);
    var l := LinkTo(constants, theirs, d);
    var enc := EncodeValue(h, v, n, nowrap);
    var m := enc.numbering;
    StartIsLinked(constants, theirs, d);
    ConstantKeys(constants);
    ValueGrows(h, v, n, nowrap);
    CounterBound(h, n, m);
    GrownMeans(h, n, m);
    AgreeMeans(constants, theirs, d);
    var r := Encode(h, v, constants, nowrap);
    assert r.bytes[1..] == enc.bytes;
    assert Names(l, n.idx) == theirs;
    ValueReadsBack(h, v, n, nowrap, l, enc.bytes, 0, d);
    var back := Decode(r.bytes, theirs, d);
    var e := back.memory.heap;
    RebuiltMeans(h, l, n, m, d, e);
    var walk := WalkValue(h, v, n.seen.Keys, []);
    NumbersArePreorder(h, v, n, nowrap);
    ListsKeys(n, walk, m);
    GrownLinked(h, l, n, m);
    PlacesOneToOne(l, m);
    PlacesOne(l, m, v);
    ConstantsCarried(constants, theirs, d, m);
    ObjectsCarried(h, l, n, m, d, walk, e);
    assert Carries(Places(l, m), h, v, constants, d, theirs, e, back.val);
  }

  // ----- only, and all, of what is reachable -----

  /** The objects that get a number are closed under references, up to the constants, and every closed set that
      the value points into holds them: they are the reachable ones. */
  lemma NumberedIsReachable(h: Heap, v: Val, constants: seq<Val>, nowrap: bool)
    requires HeapOk(h) && ValOk(h, v) && Encode(h, v, constants, nowrap).Encoded?
    ensures var stop := ConstantIds(constants);
            var met := Encode(h, v, constants, nowrap).numbering.seen.Keys - stop;
            && Closed(h, met, stop) && RefIn(met + stop, v)
            && forall s: set<nat> | Closed(h, s, stop) && RefIn(s + stop, v) :: met <= s
  {
    hide ConstantSeen, EncodeValue, HeapOk, WalkValue, Closed, Lists;
    var n := Start(constants);
    ConstantKeys(constants);
    NumbersArePreorder(h, v, n, nowrap);
    var walk := WalkValue(h, v, n.seen.Keys, []);
    var m := EncodeValue(h, v, n, nowrap).numbering;
    ListsKeys(n, walk, m);
    ReachIsLeast(h, v, n.seen.Keys);
    assert m.seen.Keys - n.seen.Keys == Reach(h, v, n.seen.Keys);
  }
}
