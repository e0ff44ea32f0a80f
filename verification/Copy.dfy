/** What it means to copy a value between Lua states, and the two routes of src/kernel/event.c that copy arguments one
    by one: straight into an acquired instance, or kept as a payload while the event is pending. */
module Copying {
  import opened Bytes
  import opened Marshal
  import opened Preorder
  import opened Isomorphism

  // ----- isomorphic values -----

  /** `f` shows that `v` in heap `h` and `w` in heap `e` are roots of the same graph. */
  ghost predicate Matches(f: map<nat, nat>, h: Heap, v: Val, e: Heap, w: Val) {
    && OneToOne(f) && SameVal(f, v, w)
    && forall id | id in f :: id < |h| && f[id] < |e| && SameObj(f, h[id], e[f[id]])
  }

  ghost predicate Isomorphic(h: Heap, v: Val, e: Heap, w: Val) {
    exists f :: Matches(f, h, v, e, w)
  }

  /** The arguments `args` of heap `h` have become `out` in heap `e`, one by one. */
  ghost predicate Delivered(h: Heap, args: seq<Val>, e: Heap, out: seq<Val>) {
    |out| == |args| && forall i | 0 <= i < |args| :: Isomorphic(h, args[i], e, out[i])
  }

  lemma IsomorphicLater(h: Heap, v: Val, e: Heap, w: Val, later: Heap)
    requires Isomorphic(h, v, e, w) && e <= later
    ensures Isomorphic(h, v, later, w)
  {
    hide OneToOne, SameObj;
    var f :| Matches(f, h, v, e, w);
    forall id | id in f ensures id < |h| && f[id] < |later| && SameObj(f, h[id], later[f[id]]) {
      assert later[f[id]] == e[f[id]];
    }
    assert Matches(f, h, v, later, w);
  }

  // ----- two copies of one value are copies of each other -----

  ghost function Via(f: map<nat, nat>, g: map<nat, nat>): map<nat, nat>
    requires OneToOne(f)
  {
    map id | id in f && id in g :: f[id] := g[id]
  }

  lemma ViaAt(f: map<nat, nat>, g: map<nat, nat>, id: nat)
    requires OneToOne(f) && id in f && id in g
    ensures f[id] in Via(f, g) && Via(f, g)[f[id]] == g[id]
  {
  }

  lemma SameValVia(f: map<nat, nat>, g: map<nat, nat>, v: Val, w: Val, x: Val)
    requires OneToOne(f) && SameVal(f, v, w) && SameVal(g, v, x)
    ensures SameVal(Via(f, g), w, x)
  {
    if v.Ref? {
      ViaAt(f, g, v.id);
    }
  }

  lemma SameObjVia(f: map<nat, nat>, g: map<nat, nat>, o: Obj, p: Obj, q: Obj)
    requires OneToOne(f) && SameObj(f, o, p) && SameObj(g, o, q)
    ensures SameObj(Via(f, g), p, q)
  {
    hide OneToOne, SameVal, Via;
    match o
    case Table(entries) =>
      forall k | 0 <= k < |entries|
        ensures SameVal(Via(f, g), p.entries[k].0, q.entries[k].0) && SameVal(Via(f, g), p.entries[k].1, q.entries[k].1)
      {
        SameValVia(f, g, entries[k].0, p.entries[k].0, q.entries[k].0);
        SameValVia(f, g, entries[k].1, p.entries[k].1, q.entries[k].1);
      }
    case Closure(_, upvals) =>
      forall k | 0 <= k < |upvals| ensures SameVal(Via(f, g), p.upvals[k], q.upvals[k]) {
        SameValVia(f, g, upvals[k], p.upvals[k], q.upvals[k]);
      }
  }

  lemma ViaOneToOne(f: map<nat, nat>, g: map<nat, nat>)
    requires OneToOne(f) && OneToOne(g)
    ensures OneToOne(Via(f, g))
  {
    var r := Via(f, g);
    forall a, b | a in r && b in r && a != b ensures r[a] != r[b] {
      var x :| x in f && x in g && f[x] == a;
      var y :| y in f && y in g && f[y] == b;
      ViaAt(f, g, x);
      ViaAt(f, g, y);
    }
  }

  lemma CopiesMatch(h: Heap, v: Val, d: Heap, w: Val, e: Heap, x: Val)
    requires Isomorphic(h, v, d, w) && Isomorphic(h, v, e, x)
    ensures Isomorphic(d, w, e, x)
  {
    hide OneToOne, SameObj, SameVal;
    var f :| Matches(f, h, v, d, w);
    var g :| Matches(g, h, v, e, x);
    var r := Via(f, g);
    ViaOneToOne(f, g);
    SameValVia(f, g, v, w, x);
    forall a | a in r ensures a < |d| && r[a] < |e| && SameObj(r, d[a], e[r[a]]) {
      var id: nat :| id in f && id in g && f[id] == a;
      ViaAt(f, g, id);
      SameObjVia(f, g, h[id], d[a], e[g[id]]);
    }
    assert Matches(r, d, w, e, x);
  }

  // ----- one argument -----

  datatype Copied = CopyError | Copied(val: Val, heap: Heap)

  /** Scalars are pushed as they are; an object is encoded and decoded. */
  ghost function CopyOne(h: Heap, v: Val, d: Heap): Copied
    requires HeapOk(h) && ValOk(h, v)
  {
    if !v.Ref? then Copied(v, d)
    else
      var r := Encode(h, v, [], false);
      if r.EncodeError? then CopyError else Arrive(r.bytes, d)
  }

  function Arrive(bytes: seq<byte>, d: Heap): Copied {
    var back := Decode(bytes, [], d);
    if back.DecodeError? then CopyError else Copied(back.val, back.memory.heap)
  }

  /** An argument refused by the marshaller is refused by the copy, and every other one arrives as a fresh copy. */
  lemma CopyOneMatches(h: Heap, v: Val, d: Heap)
    requires HeapOk(h) && ValOk(h, v) && |h| < INT_LIMIT
    ensures var r := CopyOne(h, v, d);
            if v.Ref? && Encode(h, v, [], false).EncodeError? then r.CopyError?
            else
              && r.Copied? && d <= r.heap && Isomorphic(h, v, r.heap, r.val)
              && (if v.Ref? then r.val.Ref? && |d| <= r.val.id < |r.heap| else r == Copied(v, d))
  {
    hide HeapOk, Encode, Decode, WalkValue, OneToOne, SameObj, CarriesConstants;
    if !v.Ref? {
      NoObjects();
      assert Matches(map[], h, v, d, v);
    } else if Encode(h, v, [], false).Encoded? {
      assert Agree([], [], d);
      DecodeEncode(h, v, [], false, d, []);
      var r := CopyOne(h, v, d);
      var f :| Carries(f, h, v, [], d, [], r.heap, r.val);
      assert ConstantIds([]) == {};
      assert Matches(f, h, v, r.heap, r.val);
    }
  }

  lemma NoObjects()
    ensures OneToOne(map[])
  {
  }

  // ----- copy_values_directly -----

  datatype Outcome = Refused | Arrived(vals: seq<Val>, heap: Heap)

  ghost predicate AllOk(h: Heap, args: seq<Val>) {
    forall i | 0 <= i < |args| :: ValOk(h, args[i])
  }

  function Push(r: Outcome, c: Copied): Outcome
    requires r.Arrived?
  {
    if c.CopyError? then Refused else Arrived(r.vals + [c.val], c.heap)
  }

  ghost function CopyAll(h: Heap, args: seq<Val>, d: Heap): Outcome
    requires HeapOk(h) && AllOk(h, args)
  {
    if args == [] then Arrived([], d)
    else
      var before := CopyAll(h, args[..|args| - 1], d);
      if before.Refused? then Refused else Push(before, CopyOne(h, args[|args| - 1], before.heap))
  }

  /** No two arguments share an object afterwards, not even where they did before. */
  ghost predicate Separate(base: nat, vals: seq<Val>) {
    && (forall i | 0 <= i < |vals| && vals[i].Ref? :: vals[i].id >= base)
    && (forall i, j | 0 <= i < j < |vals| && vals[i].Ref? && vals[j].Ref? :: vals[i].id < vals[j].id)
  }

  ghost predicate Below(vals: seq<Val>, size: nat) {
    forall i | 0 <= i < |vals| && vals[i].Ref? :: vals[i].id < size
  }

  /** The direct copy succeeds exactly when the marshaller accepts every object, and then delivers. */
  lemma {:induction false} CopyAllDelivers(h: Heap, args: seq<Val>, d: Heap)
    requires HeapOk(h) && AllOk(h, args) && |h| < INT_LIMIT
    ensures var r := CopyAll(h, args, d);
            && (r.Arrived? <==> Marshals(h, args, false))
            && (r.Arrived? ==>
                  d <= r.heap && Delivered(h, args, r.heap, r.vals) && Separate(|d|, r.vals) && Below(r.vals, |r.heap|))
  {
    hide HeapOk, Encode, CopyOne, Isomorphic;
    if args != [] {
      var v := args[|args| - 1];
      var init := args[..|args| - 1];
      CopyAllDelivers(h, init, d);
      MarshalsLast(h, args, false);
      var before := CopyAll(h, init, d);
      if before.Arrived? {
        CopyOneMatches(h, v, before.heap);
        var c := CopyOne(h, v, before.heap);
        if c.Copied? {
          forall i | 0 <= i < |init| ensures Isomorphic(h, args[i], c.heap, before.vals[i]) {
            assert args[i] == init[i];
            IsomorphicLater(h, args[i], before.heap, before.vals[i], c.heap);
          }
        }
      }
    }
  }

  /** The marshaller accepts every argument that is an object. */
  ghost predicate Marshals(h: Heap, args: seq<Val>, nowrap: bool)
    requires HeapOk(h) && AllOk(h, args)
  {
    forall i | 0 <= i < |args| && args[i].Ref? :: Encode(h, args[i], [], nowrap).Encoded?
  }

  lemma MarshalsLast(h: Heap, args: seq<Val>, nowrap: bool)
    requires HeapOk(h) && AllOk(h, args) && args != []
    ensures var v := args[|args| - 1];
            Marshals(h, args, nowrap) <==>
            Marshals(h, args[..|args| - 1], nowrap) && (v.Ref? ==> Encode(h, v, [], nowrap).Encoded?)
  {
    hide HeapOk, Encode;
    var init := args[..|args| - 1];
    assert forall i | 0 <= i < |init| :: init[i] == args[i];
  }

  // ----- extract_event_from_lua_state and restore_event_to_lua_state -----

  datatype Element = Scalar(v: Val) | Coded(kind: byte, bytes: seq<byte>)

  ghost function ElementOf(h: Heap, v: Val): Element
    requires HeapOk(h) && ValOk(h, v) && (v.Ref? ==> Encode(h, v, [], false).Encoded?)
  {
    if v.Ref? then Coded(Kind(h[v.id]), Encode(h, v, [], false).bytes) else Scalar(v)
  }

  function RestoreOne(e: Element, d: Heap): Copied {
    if e.Scalar? then Copied(e.v, d) else Arrive(e.bytes, d)
  }

  function RestoreAll(payload: seq<Element>, d: Heap): Outcome {
    if payload == [] then Arrived([], d)
    else
      var before := RestoreAll(payload[..|payload| - 1], d);
      if before.Refused? then Refused else Push(before, RestoreOne(payload[|payload| - 1], before.heap))
  }

  ghost predicate HoldsAll(h: Heap, args: seq<Val>, payload: seq<Element>)
    requires HeapOk(h) && AllOk(h, args)
  {
    && |payload| == |args| && Marshals(h, args, false)
    && forall i | 0 <= i < |args| :: payload[i] == ElementOf(h, args[i])
  }

  /** A payload that is kept and restored later gives exactly what the direct copy would give at that moment. */
  lemma {:induction false} RestoreIsCopy(h: Heap, args: seq<Val>, payload: seq<Element>, d: Heap)
    requires HeapOk(h) && AllOk(h, args) && HoldsAll(h, args, payload)
    ensures RestoreAll(payload, d) == CopyAll(h, args, d)
  {
    hide HeapOk, Encode, Arrive;
    if args != [] {
      var init, shorter := args[..|args| - 1], payload[..|payload| - 1];
      MarshalsLast(h, args, false);
      assert HoldsAll(h, init, shorter) by {
        assert forall i | 0 <= i < |init| :: init[i] == args[i] && shorter[i] == payload[i];
      }
      RestoreIsCopy(h, init, shorter, d);
    }
  }
}
