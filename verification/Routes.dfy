/** Which argument lists each route takes, and that the routes agree on what they hand over. */
module Routes {
  import opened Bytes
  import opened Marshal
  import opened Preorder
  import opened Reachability
  import opened Isomorphism
  import opened EncodeSuccess
  import opened Copying
  import opened Packing

  // ----- which lists the routes take -----

  /** The objects that can be reached from the arguments. */
  ghost function ReachAll(h: Heap, args: seq<Val>): set<nat>
    requires HeapOk(h) && AllOk(h, args)
  {
    set i, x | 0 <= i < |args| && x in Reach(h, args[i], {}) :: x
  }

  /** No argument is refused, and no object reached from one is a C function, a userdata, or a holder of light userdata
      where those are refused. */
  ghost predicate Sendable(h: Heap, args: seq<Val>, nowrap: bool)
    requires HeapOk(h) && AllOk(h, args)
  {
    && (forall i | 0 <= i < |args| :: CleanVal(args[i], nowrap))
    && forall x | x in ReachAll(h, args) :: CleanObj(h, x, nowrap)
  }

  /** The table and everything reached from it fit in 32-bit lengths. */
  ghost predicate Fits(h: Heap, args: seq<Val>, entries: seq<(Val, Val)>)
    requires HeapOk(h) && AllOk(h, args)
  {
    16 + EntriesWeight(entries) + Weighs(h, |h|, ReachAll(h, args)) < U32_LIMIT
  }

  /** A set closed in the smaller heap. */
  lemma ReachAllIsClosed(h: Heap, args: seq<Val>)
    requires HeapOk(h) && AllOk(h, args)
    ensures Closed(h, ReachAll(h, args), {}) && forall x | x in ReachAll(h, args) :: x < |h|
    ensures forall i | 0 <= i < |args| ::
            Reach(h, args[i], {}) <= ReachAll(h, args) && RefIn(ReachAll(h, args), args[i])
  {
    hide HeapOk, Reach, EntriesOk, DistinctKeys, RefsIn;
    var all := ReachAll(h, args);
    forall i | 0 <= i < |args|
      ensures Reach(h, args[i], {}) <= all && RefIn(all, args[i]) && Closed(h, Reach(h, args[i], {}), {})
      ensures forall x | x in Reach(h, args[i], {}) :: x < |h|
    {
      ReachIsLeast(h, args[i], {});
      assert Reach(h, args[i], {}) + {} == Reach(h, args[i], {});
      assert forall x | x in Reach(h, args[i], {}) :: x in all;
    }
    forall id | id in all && id < |h| ensures ObjOk(h, h[id]) && RefsIn(all + {}, Body(h[id])) {
      var i :| 0 <= i < |args| && id in Reach(h, args[i], {});
      ObjectOk(h, id);
      assert RefsIn(Reach(h, args[i], {}) + {}, Body(h[id]));
      RefsInMore(Reach(h, args[i], {}) + {}, all + {}, Body(h[id]));
    }
  }

  lemma EntriesReachArgs(args: seq<Val>, entries: seq<(Val, Val)>, s: set<nat>)
    requires ArgTable(args, entries) && forall i | 0 <= i < |args| :: RefIn(s, args[i])
    ensures RefsIn(s, entries)
  {
    hide IndexBytes, Built, ArgTable;
    ArgTableHolds(args, entries);
    forall k | 0 <= k < |entries| ensures RefIn(s, entries[k].0) && RefIn(s, entries[k].1) {
      assert IsArg(args, entries[k]);
    }
  }

  lemma ArgsReachEntries(args: seq<Val>, entries: seq<(Val, Val)>, s: set<nat>)
    requires ArgTable(args, entries) && RefsIn(s, entries)
    ensures forall i | 0 <= i < |args| :: RefIn(s, args[i])
  {
    hide IndexBytes, Built, ArgTable;
    ArgTableHolds(args, entries);
    forall i | 0 <= i < |args| ensures RefIn(s, args[i]) {
      if args[i].Ref? {
        var k :| 0 <= k < |entries| && entries[k] == (Key(i), args[i]);
        assert RefIn(s, entries[k].1);
      }
    }
  }

  /** From the table one reaches the table itself and what the arguments reach. */
  lemma TableReaches(h: Heap, args: seq<Val>, entries: seq<(Val, Val)>)
    requires HeapOk(h) && AllOk(h, args) && ArgTable(args, entries) && HeapOk(WithTable(h, entries))
    ensures Reach(WithTable(h, entries), Ref(|h|), {}) == {|h|} + ReachAll(h, args)
  {
    hide HeapOk, Reach, ArgTable, ReachAll, EntriesOk, DistinctKeys, RefsIn;
    var g := WithTable(h, entries);
    var all := ReachAll(h, args);
    var met := Reach(g, Ref(|h|), {});
    ReachAllIsClosed(h, args);
    ReachIsLeast(g, Ref(|h|), {});
    EntriesReachArgs(args, entries, all);
    forall id | id in {|h|} + all && id < |g|
      ensures ObjOk(g, g[id]) && RefsIn({|h|} + all + {}, Body(g[id]))
    {
      ObjectOk(g, id);
      RefsInMore(all + {}, {|h|} + all + {}, Body(g[id])) by {
        assert all + {} == all;
        if id < |h| {
          ObjectOk(h, id);
        }
      }
    }
    assert met <= {|h|} + all;
    InnerIsClosed(h, entries, met);
    assert |h| in met by { assert met + {} == met; }
    ObjectOk(g, |h|);
    assert RefsIn(met + {}, Body(g[|h|]));
    ArgsReachEntries(args, entries, met + {});
    forall x | x in all ensures x in met {
      InArg(h, args, x);
      var i :| 0 <= i < |args| && x in Reach(h, args[i], {});
      ReachIsLeast(h, args[i], {});
      assert RefIn(met - {|h|} + {}, args[i]);
    }
  }

  lemma InArg(h: Heap, args: seq<Val>, x: nat)
    requires HeapOk(h) && AllOk(h, args) && x in ReachAll(h, args)
    ensures exists i :: 0 <= i < |args| && x in Reach(h, args[i], {})
  {
    hide Reach;
  }

  /** What is closed with the table is closed without it, since no older object refers to the table. */
  lemma InnerIsClosed(h: Heap, entries: seq<(Val, Val)>, s: set<nat>)
    requires HeapOk(h) && HeapOk(WithTable(h, entries)) && Closed(WithTable(h, entries), s, {})
    ensures Closed(h, s - {|h|}, {})
  {
    hide HeapOk, DistinctKeys;
    var g := WithTable(h, entries);
    forall id | id in s - {|h|} && id < |h| ensures ObjOk(h, h[id]) && RefsIn(s - {|h|} + {}, Body(h[id])) {
      ObjectOk(h, id);
      ObjectOk(g, id);
      assert g[id] == h[id];
      assert RefsIn(s + {}, Body(g[id]));
      var body := Body(h[id]);
      forall k | 0 <= k < |body| ensures RefIn(s - {|h|} + {}, body[k].0) && RefIn(s - {|h|} + {}, body[k].1) {
        assert ValOk(h, body[k].0) && ValOk(h, body[k].1);
        assert RefIn(s + {}, body[k].0) && RefIn(s + {}, body[k].1);
      }
    }
  }

  lemma CleanTable(h: Heap, args: seq<Val>, entries: seq<(Val, Val)>, nowrap: bool)
    requires ArgTable(args, entries)
    ensures CleanEntries(entries, nowrap) <==> forall i | 0 <= i < |args| :: CleanVal(args[i], nowrap)
  {
    hide IndexBytes, Built, ArgTable;
    ArgTableHolds(args, entries);
    if CleanEntries(entries, nowrap) {
      forall i | 0 <= i < |args| ensures CleanVal(args[i], nowrap) {
        if !args[i].Nil? {
          var k :| 0 <= k < |entries| && entries[k] == (Key(i), args[i]);
        }
      }
    }
    if forall i | 0 <= i < |args| :: CleanVal(args[i], nowrap) {
      forall k | 0 <= k < |entries| ensures CleanVal(entries[k].0, nowrap) && CleanVal(entries[k].1, nowrap) {
        assert IsArg(args, entries[k]);
      }
    }
  }

  /** The walk is clean exactly when what it reaches is. */
  lemma CleanReach(h: Heap, walk: seq<nat>, nowrap: bool)
    ensures AllClean(h, 0, walk, nowrap) <==> forall x | x in Elements(walk) :: CleanObj(h, x, nowrap)
  {
    hide CleanObj;
    assert forall k | 0 <= k < |walk| :: walk[k] in Elements(walk);
  }

  lemma {:induction false} WeighsWithTable(h: Heap, entries: seq<(Val, Val)>, k: nat, s: set<nat>)
    requires k <= |h|
    ensures Weighs(WithTable(h, entries), k, s) == Weighs(h, k, s)
  {
    if k > 0 {
      WeighsWithTable(h, entries, k - 1, s);
    }
  }

  lemma TableWeighs(h: Heap, entries: seq<(Val, Val)>, s: set<nat>)
    requires |h| !in s
    ensures Weighs(WithTable(h, entries), |h| + 1, {|h|} + s) == 10 + EntriesWeight(entries) + Weighs(h, |h|, s)
  {
    var g := WithTable(h, entries);
    WeighsOne(g, |g|, s, |h|);
    assert s + {|h|} == {|h|} + s;
    WeighsWithTable(h, entries, |h|, s);
    assert ObjWeight(g[|h|]) == 10 + EntriesWeight(entries);
  }

  lemma CleanObjInside(h: Heap, entries: seq<(Val, Val)>, x: nat, nowrap: bool)
    requires HeapOk(h) && HeapOk(WithTable(h, entries)) && x < |h|
    ensures CleanObj(WithTable(h, entries), x, nowrap) <==> CleanObj(h, x, nowrap)
  {
    hide HeapOk, EntriesOk, DistinctKeys;
    ObjectOk(h, x);
    ObjectOk(WithTable(h, entries), x);
  }

  /** The packed route takes only lists that are sendable without light userdata, and of those that fit, all. */
  lemma PackSucceedsExactly(h: Heap, args: seq<Val>, entries: seq<(Val, Val)>)
    requires HeapOk(h) && AllOk(h, args) && ArgTable(args, entries)
    ensures Pack(h, args, entries).Encoded? ==> Sendable(h, args, true)
    ensures Fits(h, args, entries) ==> (Pack(h, args, entries).Encoded? <==> Sendable(h, args, true))
  {
    hide HeapOk, Encode, WalkValue, ArgTable, ReachAll, ObjOk, CleanObj, Weighs, EntriesWeight, AllOk, AllClean;
    WithTableOk(h, args, entries);
    var g := WithTable(h, entries);
    assert ConstantSeen([]).Keys == {};
    EncodeSucceedsExactly(g, Ref(|h|), [], true);
    var walk := WalkValue(g, Ref(|h|), {}, []);
    CleanReach(g, walk, true);
    TableReaches(h, args, entries);
    ReachAllIsClosed(h, args);
    TableWeighs(h, entries, ReachAll(h, args));
    TableIsClean(h, args, entries, true);
    forall x | x in ReachAll(h, args) ensures CleanObj(g, x, true) <==> CleanObj(h, x, true) {
      CleanObjInside(h, entries, x, true);
    }
  }

  lemma TableIsClean(h: Heap, args: seq<Val>, entries: seq<(Val, Val)>, nowrap: bool)
    requires HeapOk(WithTable(h, entries)) && ArgTable(args, entries)
    ensures CleanObj(WithTable(h, entries), |h|, nowrap) <==> forall i | 0 <= i < |args| :: CleanVal(args[i], nowrap)
  {
    hide HeapOk, ArgTable, CleanEntries, EntriesOk, DistinctKeys;
    ObjectOk(WithTable(h, entries), |h|);
    CleanTable(h, args, entries, nowrap);
  }

  /** The same for the routes that marshal one argument at a time. */
  lemma MarshalsExactly(h: Heap, args: seq<Val>, entries: seq<(Val, Val)>)
    requires HeapOk(h) && AllOk(h, args) && ArgTable(args, entries)
    ensures Marshals(h, args, false) ==> Sendable(h, args, false)
    ensures Fits(h, args, entries) ==> (Marshals(h, args, false) <==> Sendable(h, args, false))
  {
    hide HeapOk, Encode, WalkValue, ArgTable, ObjOk, CleanObj, Weighs, EntriesWeight, AllClean;
    forall i | 0 <= i < |args| && args[i].Ref?
      ensures var r := Encode(h, args[i], [], false);
              var clean := forall x | x in Reach(h, args[i], {}) :: CleanObj(h, x, false);
              (r.Encoded? ==> clean) && (Fits(h, args, entries) ==> (r.Encoded? <==> clean))
    {
      assert ConstantSeen([]).Keys == {};
      EncodeSucceedsExactly(h, args[i], [], false);
      CleanReach(h, WalkValue(h, args[i], {}, []), false);
      ReachAllIsClosed(h, args);
      WeighsMore(h, |h|, Reach(h, args[i], {}), ReachAll(h, args));
    }
    forall i | 0 <= i < |args| && !args[i].Ref? ensures Reach(h, args[i], {}) == {} {
      NothingReached(h, args[i]);
    }
    assert forall i, x | 0 <= i < |args| && x in Reach(h, args[i], {}) :: x in ReachAll(h, args);
  }

  lemma NothingReached(h: Heap, v: Val)
    requires HeapOk(h) && ValOk(h, v) && !v.Ref?
    ensures Reach(h, v, {}) == {}
  {
  }

  /** Light userdata among the arguments or in an object reached from one. */
  ghost predicate HoldsLight(h: Heap, args: seq<Val>)
    requires HeapOk(h) && AllOk(h, args)
  {
    || (exists i :: 0 <= i < |args| && args[i].Light?)
    || exists x :: x in ReachAll(h, args) && x < |h| && ObjOk(h, h[x]) && !CleanEntries(Body(h[x]), true)
  }

  /** A list is refused by the packed route and taken by the other two exactly when light userdata is all that is wrong
      with it, wherever it is. */
  lemma PackedRefusesLight(h: Heap, args: seq<Val>, entries: seq<(Val, Val)>)
    requires HeapOk(h) && AllOk(h, args) && ArgTable(args, entries)
    ensures HoldsLight(h, args) ==> Pack(h, args, entries).EncodeError?
    ensures Fits(h, args, entries) ==>
              (Marshals(h, args, false) && Pack(h, args, entries).EncodeError? <==>
               Sendable(h, args, false) && HoldsLight(h, args))
  {
    hide HeapOk, Pack, Encode, ArgTable, ReachAll, Fits, ObjOk;
    PackSucceedsExactly(h, args, entries);
    MarshalsExactly(h, args, entries);
  }

  // ----- the routes against each other -----

  /** Whatever route an event takes, and whatever the handler's heap is by then, its arguments are the same up to
      isomorphism, one by one.  For every list that fits, the packed route takes it exactly when it is sendable; the
      other routes take it then too.  The three agree up to the length `n` that Lua gives the packed table, so on
      everything exactly when that is the number of arguments, which it always is when none is nil. */
  lemma RoutesAgree(h: Heap, args: seq<Val>, payload: seq<Element>, entries: seq<(Val, Val)>,
                    d1: Heap, d2: Heap, d3: Heap, n: nat)
    requires HeapOk(h) && AllOk(h, args) && ArgTable(args, entries) && |h| + 1 < INT_LIMIT && Fits(h, args, entries)
    ensures Pack(h, args, entries).Encoded? <==> Sendable(h, args, true)
    ensures Sendable(h, args, true) ==> Marshals(h, args, false)
    ensures Sendable(h, args, true) && HoldsAll(h, args, payload) && Border(Pack(h, args, entries).bytes, d3, n) ==>
              RoutesMatch(CopyAll(h, args, d1), RestoreAll(payload, d2), Unpacked(Pack(h, args, entries).bytes, d3, n),
                          |args|, n)
    ensures Sendable(h, args, true) && Border(Pack(h, args, entries).bytes, d3, n) && NoNil(args) ==> n == |args|
  {
    hide HeapOk, Encode, Pack, Unpacked, ArgTable, RoutesMatch, RestoreAll, CopyAll, ReachAll, Fits, Border;
    PackSucceedsExactly(h, args, entries);
    MarshalsExactly(h, args, entries);
    if Sendable(h, args, true) {
      assert Sendable(h, args, false);
      PackedDelivers(h, args, entries, d3, n);
      if HoldsAll(h, args, payload) && Border(Pack(h, args, entries).bytes, d3, n) {
        TakenRoutesAgree(h, args, payload, entries, d1, d2, d3, n);
      }
    }
  }

  /** The outcomes of the three routes for `count` arguments, of which the packed one hands over `n`. */
  ghost predicate RoutesMatch(direct: Outcome, kept: Outcome, packed: Outcome, count: nat, n: nat) {
    && direct.Arrived? && kept.Arrived? && packed.Arrived? && |direct.vals| == count && n <= count
    && Delivered(direct.heap, direct.vals, kept.heap, kept.vals)
    && Delivered(direct.heap, direct.vals[..n], packed.heap, packed.vals)
    && (Delivered(direct.heap, direct.vals, packed.heap, packed.vals) <==> n == count)
  }

  lemma TakenRoutesAgree(h: Heap, args: seq<Val>, payload: seq<Element>, entries: seq<(Val, Val)>,
                         d1: Heap, d2: Heap, d3: Heap, n: nat)
    requires HeapOk(h) && AllOk(h, args) && ArgTable(args, entries) && |h| + 1 < INT_LIMIT
    requires HoldsAll(h, args, payload) && Pack(h, args, entries).Encoded?
    requires Border(Pack(h, args, entries).bytes, d3, n)
    ensures RoutesMatch(CopyAll(h, args, d1), RestoreAll(payload, d2), Unpacked(Pack(h, args, entries).bytes, d3, n),
                        |args|, n)
  {
    hide HeapOk, Encode, Pack, Unpacked, ArgTable, Isomorphic, RestoreAll, CopyAll, Border;
    CopyAllDelivers(h, args, d1);
    CopyAllDelivers(h, args, d2);
    RestoreIsCopy(h, args, payload, d2);
    PackedDelivers(h, args, entries, d3, n);
    var direct := CopyAll(h, args, d1);
    var kept := RestoreAll(payload, d2);
    var packed := Unpacked(Pack(h, args, entries).bytes, d3, n);
    forall i | 0 <= i < |args| ensures Isomorphic(direct.heap, direct.vals[i], kept.heap, kept.vals[i]) {
      CopiesMatch(h, args[i], direct.heap, direct.vals[i], kept.heap, kept.vals[i]);
    }
    forall i | 0 <= i < n ensures Isomorphic(direct.heap, direct.vals[i], packed.heap, packed.vals[i]) {
      assert args[..n][i] == args[i];
      CopiesMatch(h, args[i], direct.heap, direct.vals[i], packed.heap, packed.vals[i]);
    }
    assert direct.vals[..|args|] == direct.vals;
  }
}
