/** The third route: all arguments packed into one table for another process (emmit_remote_sync in
    src/kernel/scheduler.c) and unpacked there (restore_event_to_lua_state in src/kernel/event.c). */
module Packing {
  import opened Bytes
  import opened Marshal
  import opened Preorder
  import opened Isomorphism
  import opened Copying

  // ----- the packed table of emmit_remote_sync -----

  /** The key under which an argument is stored, counted from zero. */
  function Key(i: nat): Val
    requires i + 1 < INDEX_LIMIT
  {
    Num(IndexBytes(i + 1))
  }

  /** The table that lua_rawseti fills, argument by argument. */
  function Built(args: seq<Val>): seq<(Val, Val)>
    requires |args| < INT_LIMIT
  {
    if args == [] then []
    else SetEntry(Built(args[..|args| - 1]), Key(|args| - 1), args[|args| - 1])
  }

  /** The entries of that table as lua_next gives them: in any order. */
  ghost predicate ArgTable(args: seq<Val>, entries: seq<(Val, Val)>) {
    |args| < INT_LIMIT && multiset(entries) == multiset(Built(args))
  }

  /** An entry for an argument that is not nil. */
  ghost predicate IsArg(args: seq<Val>, e: (Val, Val)) {
    exists i :: 0 <= i < |args| && !args[i].Nil? && i + 1 < INDEX_LIMIT && e == (Key(i), args[i])
  }

  ghost predicate NoNil(args: seq<Val>) {
    forall i | 0 <= i < |args| :: !args[i].Nil?
  }

  lemma KeysDiffer(i: nat, j: nat)
    requires i + 1 < INDEX_LIMIT && j + 1 < INDEX_LIMIT && Key(i) == Key(j)
    ensures i == j
  {
    hide IndexBytes;
    if i != j {
      IndexBytesInjective(i + 1, j + 1);
    }
  }

  ghost predicate AllArgs(args: seq<Val>, entries: seq<(Val, Val)>) {
    forall k | 0 <= k < |entries| :: IsArg(args, entries[k])
  }

  lemma NoKeyYet(args: seq<Val>, entries: seq<(Val, Val)>, e: (Val, Val))
    requires |args| + 1 < INDEX_LIMIT && AllArgs(args, entries) && e in entries
    ensures e.0 != Key(|args|)
  {
    hide IndexBytes;
    var k :| 0 <= k < |entries| && entries[k] == e;
    assert IsArg(args, entries[k]);
    var i :| 0 <= i < |args| && !args[i].Nil? && i + 1 < INDEX_LIMIT && e == (Key(i), args[i]);
    if e.0 == Key(|args|) {
      KeysDiffer(i, |args|);
    }
  }

  /** One round of the loop: a nil leaves no entry, anything else is added. */
  lemma BuiltNext(args: seq<Val>)
    requires 0 < |args| < INT_LIMIT && AllArgs(args[..|args| - 1], Built(args[..|args| - 1]))
    ensures var v := args[|args| - 1];
            Built(args) == Built(args[..|args| - 1]) + if v.Nil? then [] else [(Key(|args| - 1), v)]
  {
    hide IndexBytes, AllArgs;
    var init := args[..|args| - 1];
    var j := KeyIndex(Built(init), Key(|init|));
    if j >= 0 {
      NoKeyYet(init, Built(init), Built(init)[j]);
    }
  }

  /** What was built: entries for arguments that are not nil, and no other. */
  lemma {:induction false} BuiltAreArgs(args: seq<Val>)
    requires |args| < INT_LIMIT
    ensures AllArgs(args, Built(args))
  {
    hide IndexBytes, Key;
    if args != [] {
      var init := args[..|args| - 1];
      BuiltAreArgs(init);
      BuiltNext(args);
      forall k | 0 <= k < |Built(args)| ensures IsArg(args, Built(args)[k]) {
        if k < |Built(init)| {
          assert IsArg(init, Built(init)[k]);
          var i :| 0 <= i < |init| && !init[i].Nil? && i + 1 < INDEX_LIMIT && Built(init)[k] == (Key(i), init[i]);
          assert args[i] == init[i];
        }
      }
    }
  }

  ghost predicate Once(entries: seq<(Val, Val)>) {
    forall e :: multiset(entries)[e] <= 1
  }

  lemma OnceMore(entries: seq<(Val, Val)>, e: (Val, Val))
    requires Once(entries) && e !in entries
    ensures Once(entries + [e])
  {
    assert multiset(entries + [e]) == multiset(entries) + multiset{e};
    assert multiset(entries)[e] == 0;
  }

  /** Every such argument has its entry, once. */
  lemma {:induction false} BuiltHolds(args: seq<Val>)
    requires |args| < INT_LIMIT
    ensures forall i | 0 <= i < |args| && !args[i].Nil? :: (Key(i), args[i]) in Built(args)
    ensures Once(Built(args))
  {
    hide IndexBytes, Key, AllArgs, Once, Built;
    if args == [] {
      assert Once(Built(args)) by { NoneOnce(); }
    } else {
      var init := args[..|args| - 1];
      var last := (Key(|init|), args[|init|]);
      BuiltHolds(init);
      BuiltAreArgs(init);
      BuiltNext(args);
      if !args[|init|].Nil? {
        assert last !in Built(init) by {
          if last in Built(init) {
            NoKeyYet(init, Built(init), last);
          }
        }
        OnceMore(Built(init), last);
      } else {
        assert Built(init) + [] == Built(init);
      }
      forall i | 0 <= i < |args| && !args[i].Nil? ensures (Key(i), args[i]) in Built(args) {
        if i < |init| {
          assert (Key(i), init[i]) in Built(init);
        }
      }
    }
  }

  lemma NoneOnce()
    ensures Once(Built([]))
  {
  }

  lemma TwiceCounted<T>(s: seq<T>, j: nat, k: nat)
    requires j < k < |s| && s[j] == s[k]
    ensures multiset(s)[s[j]] >= 2
  {
    assert s == s[..k] + s[k..];
    assert s[..k][j] == s[j] && s[k..][0] == s[k];
    assert s[j] in multiset(s[..k]) && s[j] in multiset(s[k..]);
  }

  lemma SameEntry(args: seq<Val>, d: (Val, Val), e: (Val, Val))
    requires IsArg(args, d) && IsArg(args, e) && d.0 == e.0
    ensures d == e
  {
    hide IndexBytes;
    var a :| 0 <= a < |args| && !args[a].Nil? && a + 1 < INDEX_LIMIT && d == (Key(a), args[a]);
    var b :| 0 <= b < |args| && !args[b].Nil? && b + 1 < INDEX_LIMIT && e == (Key(b), args[b]);
    KeysDiffer(a, b);
  }

  /** The same, whatever the order. */
  lemma ArgTableHolds(args: seq<Val>, entries: seq<(Val, Val)>)
    requires ArgTable(args, entries)
    ensures |args| < INT_LIMIT && DistinctKeys(entries)
    ensures forall k | 0 <= k < |entries| :: IsArg(args, entries[k])
    ensures forall i | 0 <= i < |args| && !args[i].Nil? :: (Key(i), args[i]) in entries
  {
    hide IndexBytes, Built, IsArg, Key;
    BuiltHolds(args);
    BuiltAreArgs(args);
    forall k | 0 <= k < |entries| ensures IsArg(args, entries[k]) {
      assert entries[k] in multiset(Built(args));
    }
    forall j, k | 0 <= j < k < |entries| ensures entries[j].0 != entries[k].0 {
      if entries[j].0 == entries[k].0 {
        SameEntry(args, entries[j], entries[k]);
        TwiceCounted(entries, j, k);
      }
    }
    forall i | 0 <= i < |args| && !args[i].Nil? ensures (Key(i), args[i]) in entries {
      assert (Key(i), args[i]) in multiset(Built(args));
    }
  }

  lemma KeyIsIndex(i: nat, n: nat)
    requires i + 1 < INDEX_LIMIT
    ensures IsIndex(Key(i), n) <==> n == i + 1
  {
    hide IndexBytes, Fields, Pow2;
    IndexIsDouble(i + 1);
  }

  /** Under the number `n` the table has argument `n`, counted from one, unless that is nil, and nothing else. */
  lemma KeysAreIndices(args: seq<Val>, entries: seq<(Val, Val)>, n: nat, v: Val)
    requires ArgTable(args, entries)
    ensures (exists e :: e in entries && IsIndex(e.0, n) && e.1 == v) <==>
            1 <= n <= |args| && args[n - 1] == v && !v.Nil?
  {
    hide IndexBytes, Key, ArgTable, IsIndex;
    ArgTableHolds(args, entries);
    forall e | e in entries && IsIndex(e.0, n) && e.1 == v ensures 1 <= n <= |args| && args[n - 1] == v && !v.Nil? {
      var k :| 0 <= k < |entries| && entries[k] == e;
      assert IsArg(args, entries[k]);
      var i :| 0 <= i < |args| && !args[i].Nil? && i + 1 < INDEX_LIMIT && e == (Key(i), args[i]);
      KeyIsIndex(i, n);
    }
    if 1 <= n <= |args| && args[n - 1] == v && !v.Nil? {
      KeyIsIndex(n - 1, n);
      assert (Key(n - 1), v) in entries;
    }
  }

  /** The sender's heap with the table built. */
  function WithTable(h: Heap, entries: seq<(Val, Val)>): Heap {
    h + [Table(entries)]
  }

  lemma ArgEntriesOk(h: Heap, args: seq<Val>, entries: seq<(Val, Val)>)
    requires AllOk(h, args) && ArgTable(args, entries)
    ensures EntriesOk(WithTable(h, entries), entries)
  {
    ArgTableHolds(args, entries);
    forall k | 0 <= k < |entries|
      ensures ValOk(WithTable(h, entries), entries[k].0) && ValOk(WithTable(h, entries), entries[k].1)
      ensures !entries[k].0.Nil? && !entries[k].1.Nil?
    {
      assert IsArg(args, entries[k]);
    }
  }

  lemma ObjOkMore(h: Heap, more: Heap, o: Obj)
    requires ObjOk(h, o) && h <= more
    ensures ObjOk(more, o)
  {
    hide DistinctKeys;
    var body := Body(o);
    assert forall k | 0 <= k < |body| :: ValOk(h, body[k].0) && ValOk(h, body[k].1);
  }

  lemma WithTableOk(h: Heap, args: seq<Val>, entries: seq<(Val, Val)>)
    requires HeapOk(h) && AllOk(h, args) && ArgTable(args, entries)
    ensures HeapOk(WithTable(h, entries))
  {
    hide ObjOk, EntriesOk, DistinctKeys, ArgTable;
    var g := WithTable(h, entries);
    ArgEntriesOk(h, args, entries);
    forall i | 0 <= i < |g| ensures ObjOk(g, g[i]) {
      if i < |h| {
        ObjOkMore(h, g, h[i]);
      } else {
        NewTableOk(g, args, entries);
      }
    }
  }

  lemma NewTableOk(g: Heap, args: seq<Val>, entries: seq<(Val, Val)>)
    requires EntriesOk(g, entries) && ArgTable(args, entries)
    ensures ObjOk(g, Table(entries))
  {
    ArgTableHolds(args, entries);
  }

  // ----- unpack -----

  /** lua_rawgeti, with indices counted from zero. */
  function At(entries: seq<(Val, Val)>, i: nat): Val {
    if i + 1 >= INDEX_LIMIT then Nil
    else
      var j := KeyIndex(entries, Key(i));
      if j < 0 then Nil else entries[j].1
  }

  /** What lua_objlen may answer: any index with a value whose successor has none, or zero if the first has none. */
  predicate IsBorder(entries: seq<(Val, Val)>, n: nat) {
    (n > 0 ==> !At(entries, n - 1).Nil?) && At(entries, n).Nil?
  }

  function Upto(entries: seq<(Val, Val)>, n: nat): (r: seq<Val>)
    ensures |r| == n
  {
    seq(n, i requires 0 <= i < n => At(entries, i))
  }

  /** The table that a packed event is decoded to, if it is one. */
  datatype Opened = NoTable | Opened(entries: seq<(Val, Val)>, heap: Heap)

  function Open(bytes: seq<byte>, d: Heap): Opened {
    var back := Decode(bytes, [], d);
    if back.DecodeError? || !back.val.Ref? then NoTable
    else
      var id, heap := back.val.id, back.memory.heap;
      if id >= |heap| || !heap[id].Table? then NoTable else Opened(heap[id].entries, heap)
  }

  /** `n` is a length that Lua may give the arrived table. */
  predicate Border(bytes: seq<byte>, d: Heap, n: nat) {
    Open(bytes, d).Opened? && IsBorder(Open(bytes, d).entries, n)
  }

  /** mar_decode, then the global `unpack` of Lua, which takes the table to have length `n`. */
  function Unpacked(bytes: seq<byte>, d: Heap, n: nat): Outcome {
    match Open(bytes, d)
    case NoTable => Refused
    case Opened(entries, heap) => Arrived(Upto(entries, n), heap)
  }

  // ----- what arrives -----

  lemma IndexFound(f: map<nat, nat>, args: seq<Val>, entries: seq<(Val, Val)>, copy: seq<(Val, Val)>, i: nat)
    requires ArgTable(args, entries) && SameEntries(f, entries, copy) && i < |args| && !args[i].Nil?
    ensures i + 1 < INDEX_LIMIT
    ensures var j := KeyIndex(copy, Key(i));
            j >= 0 && SameVal(f, args[i], copy[j].1)
  {
    hide IndexBytes, Built;
    ArgTableHolds(args, entries);
    var there :| 0 <= there < |entries| && entries[there] == (Key(i), args[i]);
    assert SameVal(f, entries[there].0, copy[there].0) && SameVal(f, entries[there].1, copy[there].1);
    var j := KeyIndex(copy, Key(i));
    assert SameVal(f, entries[j].0, copy[j].0);
    assert entries[j].0 == Key(i);
    assert j == there;
  }

  /** A nil, and what lies behind the last argument, has no entry. */
  lemma IndexMissing(f: map<nat, nat>, args: seq<Val>, entries: seq<(Val, Val)>, copy: seq<(Val, Val)>, i: nat)
    requires ArgTable(args, entries) && SameEntries(f, entries, copy) && i + 1 < INDEX_LIMIT
    requires i < |args| ==> args[i].Nil?
    ensures KeyIndex(copy, Key(i)) < 0
  {
    hide IndexBytes, Built;
    ArgTableHolds(args, entries);
    var j := KeyIndex(copy, Key(i));
    if j >= 0 {
      assert SameVal(f, entries[j].0, copy[j].0);
      assert IsArg(args, entries[j]);
      var a :| 0 <= a < |args| && !args[a].Nil? && a + 1 < INDEX_LIMIT && entries[j] == (Key(a), args[a]);
      KeysDiffer(a, i);
    }
  }

  /** Every argument is found at its index, and nothing behind the last one. */
  lemma FoundAt(f: map<nat, nat>, args: seq<Val>, entries: seq<(Val, Val)>, copy: seq<(Val, Val)>, i: nat)
    requires ArgTable(args, entries) && SameEntries(f, entries, copy)
    ensures SameVal(f, if i < |args| then args[i] else Nil, At(copy, i))
    ensures At(copy, i).Nil? <==> i >= |args| || args[i].Nil?
  {
    hide IndexBytes, SameEntries, Built;
    if i < |args| && !args[i].Nil? {
      IndexFound(f, args, entries, copy, i);
    } else if i + 1 < INDEX_LIMIT {
      IndexMissing(f, args, entries, copy, i);
    }
  }

  /** The lengths that Lua may give a table of these arguments. */
  predicate ArgBorder(args: seq<Val>, n: nat) {
    n <= |args| && (n > 0 ==> !args[n - 1].Nil?) && (n < |args| ==> args[n].Nil?)
  }

  lemma BorderOfArgs(f: map<nat, nat>, args: seq<Val>, entries: seq<(Val, Val)>, copy: seq<(Val, Val)>, n: nat)
    requires ArgTable(args, entries) && SameEntries(f, entries, copy)
    ensures IsBorder(copy, n) <==> ArgBorder(args, n)
  {
    hide SameEntries, ArgTable, At, SameVal;
    FoundAt(f, args, entries, copy, n);
    if n > 0 {
      FoundAt(f, args, entries, copy, n - 1);
    }
  }

  /** The part of a match that lies in the smaller heap. */
  function Within(f: map<nat, nat>, size: nat): map<nat, nat> {
    map id | id in f && id < size :: f[id]
  }

  lemma SameObjWithin(f: map<nat, nat>, h: Heap, o: Obj, p: Obj)
    requires ObjOk(h, o) && SameObj(f, o, p)
    ensures SameObj(Within(f, |h|), o, p)
  {
    hide DistinctKeys;
    var body := Body(o);
    assert forall k | 0 <= k < |body| :: ValOk(h, body[k].0) && ValOk(h, body[k].1);
    if o.Closure? {
      assert forall k | 0 <= k < |o.upvals| :: body[k].1 == o.upvals[k];
    }
  }

  lemma MatchWithin(f: map<nat, nat>, h: Heap, entries: seq<(Val, Val)>, e: Heap, v: Val, w: Val)
    requires HeapOk(h) && ValOk(h, v) && SameVal(f, v, w) && OneToOne(f)
    requires forall id | id in f :: id < |h| + 1 && f[id] < |e| && SameObj(f, WithTable(h, entries)[id], e[f[id]])
    ensures Isomorphic(h, v, e, w)
  {
    hide SameObj, ObjOk;
    var g := Within(f, |h|);
    forall id | id in g ensures id < |h| && g[id] < |e| && SameObj(g, h[id], e[g[id]]) {
      assert WithTable(h, entries)[id] == h[id];
      SameObjWithin(f, h, h[id], e[f[id]]);
    }
    assert OneToOne(g);
    assert Matches(g, h, v, e, w);
  }

  /** Arguments are the same object afterwards exactly where they were before. */
  ghost predicate KeepsSharing(args: seq<Val>, vals: seq<Val>) {
    |vals| == |args| && forall i, j | 0 <= i < |args| && 0 <= j < |args| :: args[i] == args[j] <==> vals[i] == vals[j]
  }

  /** What emmit_remote_sync sends: the table of arguments, with light userdata refused. */
  ghost function Pack(h: Heap, args: seq<Val>, entries: seq<(Val, Val)>): Encoded
    requires HeapOk(h) && AllOk(h, args) && ArgTable(args, entries)
  {
    WithTableOk(h, args, entries);
    Encode(WithTable(h, entries), Ref(|h|), [], true)
  }

  /** The table arrives as a table, and one map carries all of it. */
  lemma PackedArrives(h: Heap, args: seq<Val>, entries: seq<(Val, Val)>, d: Heap) returns (f: map<nat, nat>)
    requires HeapOk(h) && AllOk(h, args) && ArgTable(args, entries) && |h| + 1 < INT_LIMIT
    requires Pack(h, args, entries).Encoded?
    ensures var r := Open(Pack(h, args, entries).bytes, d);
            && r.Opened? && d <= r.heap
            && OneToOne(f) && SameEntries(f, entries, r.entries)
            && forall id | id in f ::
                 id < |h| + 1 && f[id] < |r.heap| && SameObj(f, WithTable(h, entries)[id], r.heap[f[id]])
  {
    hide HeapOk, Encode, Decode, WalkValue, OneToOne, ArgTable, CarriesConstants, SameEntries, SameVal;
    WithTableOk(h, args, entries);
    var g := WithTable(h, entries);
    var bytes := Encode(g, Ref(|h|), [], true).bytes;
    assert Agree([], [], d);
    DecodeEncode(g, Ref(|h|), [], true, d, []);
    var back := Decode(bytes, [], d);
    var e := back.memory.heap;
    f :| Carries(f, g, Ref(|h|), [], d, [], e, back.val);
    assert ConstantIds([]) == {};
    RootIsTable(f, |h|, back.val);
    assert SameObj(f, Table(entries), e[back.val.id]);
  }

  /** Which lengths Lua may give the arrived table, and what it unpacks to for each: the arguments up to there, nils
      included.  Unlike the other routes it keeps sharing between them. */
  lemma PackedDelivers(h: Heap, args: seq<Val>, entries: seq<(Val, Val)>, d: Heap, n: nat)
    requires HeapOk(h) && AllOk(h, args) && ArgTable(args, entries) && |h| + 1 < INT_LIMIT
    requires Pack(h, args, entries).Encoded?
    ensures var bytes := Pack(h, args, entries).bytes;
            var r := Unpacked(bytes, d, n);
            && r.Arrived? && d <= r.heap && |r.vals| == n
            && (Border(bytes, d, n) <==> ArgBorder(args, n))
            && (n <= |args| ==> Delivered(h, args[..n], r.heap, r.vals) && KeepsSharing(args[..n], r.vals))
  {
    hide HeapOk, Pack, Open, OneToOne, ArgTable, SameObj, SameEntries, SameVal, Isomorphic, At, IsBorder, ArgBorder;
    var f := PackedArrives(h, args, entries, d);
    var bytes := Pack(h, args, entries).bytes;
    var copy := Open(bytes, d).entries;
    var r := Unpacked(bytes, d, n);
    BorderOfArgs(f, args, entries, copy, n);
    if n <= |args| {
      forall i | 0 <= i < n ensures SameVal(f, args[i], r.vals[i]) && Isomorphic(h, args[..n][i], r.heap, r.vals[i]) {
        FoundAt(f, args, entries, copy, i);
        MatchWithin(f, h, entries, r.heap, args[i], r.vals[i]);
      }
      forall i, j | 0 <= i < n && 0 <= j < n ensures args[..n][i] == args[..n][j] <==> r.vals[i] == r.vals[j] {
        SameValBothWays(f, args[i], args[j], r.vals[i], r.vals[j]);
      }
    }
  }

  // ----- nil -----

  /** How many arguments come before the first nil. */
  function FirstNil(args: seq<Val>): (n: nat)
    ensures n <= |args|
    ensures forall i | 0 <= i < n :: !args[i].Nil?
    ensures n < |args| ==> args[n].Nil?
  {
    if args == [] then 0
    else
      var n := FirstNil(args[..|args| - 1]);
      if n < |args| - 1 || args[|args| - 1].Nil? then n else |args|
  }

  /** The packed route hands over all the arguments when Lua takes the length `n`. */
  ghost predicate HandsOverAll(h: Heap, args: seq<Val>, bytes: seq<byte>, d: Heap, n: nat) {
    var r := Unpacked(bytes, d, n);
    r.Arrived? && Delivered(h, args, r.heap, r.vals)
  }

  predicate EndsInNil(args: seq<Val>) {
    args != [] && args[|args| - 1].Nil?
  }

  /** Among the lengths that Lua may take, all hand over all the arguments exactly when none of these is nil, and some
      one does exactly when the last is not nil: a trailing nil is always lost, a nil in the middle may cut the list.
      The direct copy hands over every list that it takes. */
  lemma NilIsLost(h: Heap, args: seq<Val>, entries: seq<(Val, Val)>, d: Heap)
    requires HeapOk(h) && AllOk(h, args) && ArgTable(args, entries) && |h| + 1 < INT_LIMIT
    requires Pack(h, args, entries).Encoded?
    ensures var bytes := Pack(h, args, entries).bytes;
            && (exists n: nat :: Border(bytes, d, n))
            && ((forall n: nat | Border(bytes, d, n) :: HandsOverAll(h, args, bytes, d, n)) <==> NoNil(args))
            && ((exists n: nat :: Border(bytes, d, n) && HandsOverAll(h, args, bytes, d, n)) <==> !EndsInNil(args))
    ensures var r := CopyAll(h, args, d); r.Arrived? ==> Delivered(h, args, r.heap, r.vals)
  {
    hide HeapOk, Pack, Unpacked, ArgTable, Isomorphic, CopyAll, Border;
    CopyAllDelivers(h, args, d);
    var bytes := Pack(h, args, entries).bytes;
    forall n: nat
      ensures Border(bytes, d, n) <==> ArgBorder(args, n)
      ensures ArgBorder(args, n) ==> (HandsOverAll(h, args, bytes, d, n) <==> n == |args|)
    {
      PackedDelivers(h, args, entries, d, n);
      assert args[..|args|] == args;
    }
    var first := FirstNil(args);
    assert ArgBorder(args, first);
    assert Border(bytes, d, first);
    assert ArgBorder(args, |args|) <==> !EndsInNil(args);
    assert Border(bytes, d, |args|) <==> !EndsInNil(args);
  }

  /** One list with two lengths: of three values with a nil before the last, Lua may hand over two or all four. */
  lemma TwoBorders(v: Val)
    requires !v.Nil?
    ensures var args := [v, v, Nil, v]; forall n: nat :: ArgBorder(args, n) <==> n == 2 || n == 4
  {
  }

  lemma RootIsTable(f: map<nat, nat>, id: nat, w: Val)
    requires SameVal(f, Ref(id), w)
    ensures w.Ref? && id in f && w.id == f[id]
  {
  }

  lemma SameValBothWays(f: map<nat, nat>, v: Val, v': Val, w: Val, w': Val)
    requires OneToOne(f) && SameVal(f, v, w) && SameVal(f, v', w')
    ensures v == v' <==> w == w'
  {
  }
}
