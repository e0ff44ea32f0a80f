/**
 What the decoder makes of any bytes at all, whoever wrote them.

 The grammar below says what one value and the inside of a table look like.  A key must not be nil, and a reference is
 nil when its number names nothing, so the grammar carries along, for every number given out so far, whether it names
 something (`live`).
 */
module Grammar {
  import opened Bytes
  import opened Marshal
  import opened Copying
  import opened Packing

  // ----- the grammar -----

  /** Values without parts: nil and threads, userdata written by hand, booleans, light userdata, numbers, strings. */
  predicate IsPlain(s: seq<byte>, nil: bool) {
    if nil then (|s| == 1 && (s[0] == 0 || s[0] == 8)) || (|s| == 2 && s[0] == 7 && s[1] != 1 && s[1] != 3)
    else
      || (|s| == 2 && s[0] == 1)
      || (|s| == 9 && (s[0] == 2 || s[0] == 3))
      || (|s| >= 5 && s[0] == 4 && |s| == 5 + ReadU32(s, 1))
  }

  predicate IsReference(s: seq<byte>, live: seq<bool>, nil: bool) {
    && |s| == 6 && 5 <= s[0] <= 7 && s[1] == 1
    && nil == !(1 <= ReadI32(s, 2) <= |live| && live[ReadI32(s, 2) - 1])
  }

  /** One value, from its first byte to its last. */
  ghost predicate IsValue(s: seq<byte>, live: seq<bool>, nil: bool, more: seq<bool>)
    decreases |s|, 1
  {
    || (IsPlain(s, nil) && more == live)
    || (IsReference(s, live, nil) && more == live)
    || (!nil && IsTable(s, live, more))
    || (!nil && IsClosure(s, live, more))
  }

  ghost predicate IsTable(s: seq<byte>, live: seq<bool>, more: seq<bool>)
    decreases |s|, 0
  {
    |s| >= 6 && s[0] == 5 && s[1] == 2 && |s| == 6 + ReadU32(s, 2) && IsEntries(s[6..], live + [true], more)
  }

  /** Code, then the table of upvalues; any tag but that of a reference will do. */
  ghost predicate IsClosure(s: seq<byte>, live: seq<bool>, more: seq<bool>)
    decreases |s|, 0
  {
    && |s| >= 10 && s[0] == 6 && s[1] != 1
    && var mid := 6 + ReadU32(s, 2);
       mid + 4 <= |s| == mid + 4 + ReadU32(s, mid) && IsEntries(s[mid + 4..], live + [true], more)
  }

  /** The inside of a table: keys that are not nil, each followed by a value. */
  ghost predicate IsEntries(s: seq<byte>, live: seq<bool>, more: seq<bool>)
    decreases |s|, 2
  {
    if s == [] then more == live
    else
      exists i, j, nil, mid, next ::
        && 0 < i < j <= |s|
        && IsValue(s[..i], live, false, mid) && IsValue(s[i..j], mid, nil, next) && IsEntries(s[j..], next, more)
  }

  function Named(seen: seq<Val>): seq<bool> {
    seq(|seen|, k requires 0 <= k < |seen| => !seen[k].Nil?)
  }

  // ----- what is in the grammar is read -----

  lemma {:induction false} ValueIsRead(s: seq<byte>, nil: bool, more: seq<bool>, buf: seq<byte>, p: nat, m: Memory)
    requires IsValue(s, Named(m.seen), nil, more) && p + |s| <= |buf| && buf[p..p + |s|] == s
    ensures var r := DecodeValue(buf, p, m);
            r.Decoded? && r.pos == p + |s| && r.val.Nil? == nil && Named(r.memory.seen) == more
    decreases |s|, 1
  {
    hide DecodeValue, IsPlain, IsReference, IsTable, IsClosure;
    var live := Named(m.seen);
    if IsPlain(s, nil) && more == live {
      PlainIsRead(s, nil, buf, p, m);
    } else if IsReference(s, live, nil) && more == live {
      ReferenceIsRead(s, nil, buf, p, m);
    } else if IsTable(s, live, more) {
      TableIsRead(s, more, buf, p, m);
    } else {
      ClosureIsRead(s, more, buf, p, m);
    }
  }

  lemma NamedMore(m: Memory, o: Obj)
    ensures Named(Allocate(m, o).seen) == Named(m.seen) + [true]
  {
  }

  lemma {:induction false} TableIsRead(s: seq<byte>, more: seq<bool>, buf: seq<byte>, p: nat, m: Memory)
    requires IsTable(s, Named(m.seen), more) && p + |s| <= |buf| && buf[p..p + |s|] == s
    ensures var r := DecodeValue(buf, p, m);
            r.Decoded? && r.pos == p + |s| && !r.val.Nil? && Named(r.memory.seen) == more
    decreases |s|, 0
  {
    hide IsEntries, DecodeEntries, DecodeClosure, Named, ReadU32;
    SameU32(s, buf, p, 2);
    assert buf[p] == s[0] && buf[p + 1] == s[1];
    NamedMore(m, Table([]));
    EntriesAreRead(s[6..], more, s[6..], 0, [], Allocate(m, Table([])));
    SliceOfSlice(buf, s, p, 6, |s|);
  }

  lemma {:induction false} ClosureIsRead(s: seq<byte>, more: seq<bool>, buf: seq<byte>, p: nat, m: Memory)
    requires IsClosure(s, Named(m.seen), more) && p + |s| <= |buf| && buf[p..p + |s|] == s
    ensures var r := DecodeValue(buf, p, m);
            r.Decoded? && r.pos == p + |s| && !r.val.Nil? && Named(r.memory.seen) == more
    decreases |s|, 0
  {
    hide IsEntries, DecodeEntries, DecodeTable, Named, ReadU32;
    var mid := 6 + ReadU32(s, 2);
    SameU32(s, buf, p, 2);
    SameU32(s, buf, p, mid);
    assert buf[p] == s[0] && buf[p + 1] == s[1];
    var o := Closure(buf[p + 6..p + mid], []);
    NamedMore(m, o);
    EntriesAreRead(s[mid + 4..], more, s[mid + 4..], 0, [], Allocate(m, o));
    SliceOfSlice(buf, s, p, mid + 4, |s|);
  }

  lemma {:induction false} EntriesAreRead(s: seq<byte>, more: seq<bool>, buf: seq<byte>, p: nat, acc: seq<(Val, Val)>,
                                          m: Memory)
    requires IsEntries(s, Named(m.seen), more) && p + |s| == |buf| && buf[p..] == s
    ensures var r := DecodeEntries(buf, p, acc, m); r.DecodedEntries? && Named(r.memory.seen) == more
    decreases |s|, 2
  {
    hide DecodeValue, IsValue, Named, SetEntry;
    if s != [] {
      var i, j, nil, mid, next :|
        && 0 < i < j <= |s|
        && IsValue(s[..i], Named(m.seen), false, mid) && IsValue(s[i..j], mid, nil, next)
        && IsEntries(s[j..], next, more);
      assert buf[p..p + |s|] == s;
      SliceOfSlice(buf, s, p, 0, i);
      SliceOfSlice(buf, s, p, i, j);
      SliceOfSlice(buf, s, p, j, |s|);
      ValueIsRead(s[..i], false, mid, buf, p, m);
      var k := DecodeValue(buf, p, m);
      ValueIsRead(s[i..j], nil, next, buf, p + i, k.memory);
      var v := DecodeValue(buf, p + i, k.memory);
      EntriesAreRead(s[j..], more, buf, p + j, SetEntry(acc, k.val, v.val), v.memory);
    }
  }

  lemma SameU32(s: seq<byte>, buf: seq<byte>, p: nat, k: nat)
    requires k + 4 <= |s| && p + |s| <= |buf| && buf[p..p + |s|] == s
    ensures ReadU32(buf, p + k) == ReadU32(s, k) && ReadI32(buf, p + k) == ReadI32(s, k)
  {
    assert forall i | 0 <= i < |s| :: buf[p + i] == buf[p..p + |s|][i] == s[i];
  }

  lemma PlainIsRead(s: seq<byte>, nil: bool, buf: seq<byte>, p: nat, m: Memory)
    requires IsPlain(s, nil) && p + |s| <= |buf| && buf[p..p + |s|] == s
    ensures var r := DecodeValue(buf, p, m);
            r.Decoded? && r.pos == p + |s| && r.val.Nil? == nil && r.memory == m
  {
    assert forall k | 0 <= k < |s| :: buf[p + k] == s[k];
    if |s| >= 5 {
      SameU32(s, buf, p, 1);
    }
  }

  lemma ReferenceIsRead(s: seq<byte>, nil: bool, buf: seq<byte>, p: nat, m: Memory)
    requires IsReference(s, Named(m.seen), nil) && p + |s| <= |buf| && buf[p..p + |s|] == s
    ensures var r := DecodeValue(buf, p, m);
            r.Decoded? && r.pos == p + |s| && r.val.Nil? == nil && r.memory == m
  {
    assert forall k | 0 <= k < |s| :: buf[p + k] == s[k];
    SameU32(s, buf, p, 2);
  }

  // ----- what is read is in the grammar -----

  lemma {:induction false} ReadIsValue(buf: seq<byte>, p: nat, m: Memory)
    requires DecodeValue(buf, p, m).Decoded?
    ensures var r := DecodeValue(buf, p, m); IsValue(buf[p..r.pos], Named(m.seen), r.val.Nil?, Named(r.memory.seen))
    decreases |buf|, |buf| - p, 0
  {
    hide IsPlain, IsReference, IsTable, IsClosure, Named;
    if buf[p] == TTABLE && buf[p + 1] == TVAL {
      ReadIsTable(buf, p, m);
    } else if buf[p] == TFUNCTION && buf[p + 1] != TREF {
      ReadIsClosure(buf, p, m);
    } else {
      ReadIsSimple(buf, p, m);
    }
  }

  lemma {:induction false} ReadIsTable(buf: seq<byte>, p: nat, m: Memory)
    requires DecodeValue(buf, p, m).Decoded? && buf[p] == TTABLE && buf[p + 1] == TVAL
    ensures var r := DecodeValue(buf, p, m);
            r.val.Ref? && IsTable(buf[p..r.pos], Named(m.seen), Named(r.memory.seen))
    decreases |buf|, |buf| - p - 1, 0
  {
    hide IsEntries, DecodeEntries, DecodeClosure, Named, ReadU32;
    var r := DecodeValue(buf, p, m);
    var s := buf[p..r.pos];
    SameU32(s, buf, p, 2);
    NamedMore(m, Table([]));
    SliceOfSlice(buf, s, p, 6, |s|);
    ReadAreEntries(s[6..], 0, [], Allocate(m, Table([])));
    assert s[6..][0..] == s[6..];
  }

  lemma {:induction false} ReadIsClosure(buf: seq<byte>, p: nat, m: Memory)
    requires DecodeValue(buf, p, m).Decoded? && buf[p] == TFUNCTION && buf[p + 1] != TREF
    ensures var r := DecodeValue(buf, p, m);
            r.val.Ref? && IsClosure(buf[p..r.pos], Named(m.seen), Named(r.memory.seen))
    decreases |buf|, |buf| - p - 1, 0
  {
    hide IsEntries, DecodeEntries, DecodeTable, Named, ReadU32;
    var r := DecodeValue(buf, p, m);
    var s := buf[p..r.pos];
    SameU32(s, buf, p, 2);
    var mid := 6 + ReadU32(s, 2);
    SameU32(s, buf, p, mid);
    var o := Closure(buf[p + 6..p + mid], []);
    NamedMore(m, o);
    SliceOfSlice(buf, s, p, mid + 4, |s|);
    ReadAreEntries(s[mid + 4..], 0, [], Allocate(m, o));
    assert s[mid + 4..][0..] == s[mid + 4..];
  }

  lemma ReadIsSimple(buf: seq<byte>, p: nat, m: Memory)
    requires DecodeValue(buf, p, m).Decoded?
    requires !(buf[p] == TTABLE && buf[p + 1] == TVAL) && !(buf[p] == TFUNCTION && buf[p + 1] != TREF)
    ensures var r := DecodeValue(buf, p, m);
            && r.memory == m
            && (IsPlain(buf[p..r.pos], r.val.Nil?) || IsReference(buf[p..r.pos], Named(m.seen), r.val.Nil?))
  {
    var r := DecodeValue(buf, p, m);
    var s := buf[p..r.pos];
    assert forall k | 0 <= k < |s| :: s[k] == buf[p + k];
    if buf[p] == TSTRING {
      SameU32(s, buf, p, 1);
    } else if 5 <= buf[p] <= 7 && buf[p + 1] == TREF {
      SameU32(s, buf, p, 2);
    }
  }

  lemma {:induction false} ReadAreEntries(buf: seq<byte>, p: nat, acc: seq<(Val, Val)>, m: Memory)
    requires p <= |buf| && DecodeEntries(buf, p, acc, m).DecodedEntries?
    ensures IsEntries(buf[p..], Named(m.seen), Named(DecodeEntries(buf, p, acc, m).memory.seen))
    decreases |buf|, |buf| - p, 1
  {
    hide DecodeValue, IsValue, Named, SetEntry;
    if p < |buf| {
      var k := DecodeValue(buf, p, m);
      ReadIsValue(buf, p, m);
      var v := DecodeValue(buf, k.pos, k.memory);
      ReadIsValue(buf, k.pos, k.memory);
      ReadAreEntries(buf, v.pos, SetEntry(acc, k.val, v.val), v.memory);
      var s, i, j := buf[p..], k.pos - p, v.pos - p;
      assert buf[p..p + |s|] == s;
      SliceOfSlice(buf, s, p, 0, i);
      SliceOfSlice(buf, s, p, i, j);
      SliceOfSlice(buf, s, p, j, |s|);
    }
  }

  // ----- both -----

  /** A value of the grammar stands at the beginning of the string. */
  ghost predicate StartsWithValue(s: seq<byte>, live: seq<bool>) {
    exists q, nil, more :: 0 <= q <= |s| && IsValue(s[..q], live, nil, more)
  }

  /** The decoder accepts exactly the strings that begin with the magic byte and one value of the grammar. */
  lemma DecodeAcceptsExactly(bytes: seq<byte>, constants: seq<Val>, heap: Heap)
    ensures Decode(bytes, constants, heap).Decoded? <==>
            bytes != [] && bytes[0] == 0x8e && StartsWithValue(bytes[1..], Named(constants))
  {
    hide DecodeValue, IsValue;
    var m := Memory(heap, constants);
    if Decode(bytes, constants, heap).Decoded? {
      var s := bytes[1..];
      ReadIsValue(s, 0, m);
      var q := DecodeValue(s, 0, m).pos;
      assert s[0..q] == s[..q];
    } else if bytes != [] && bytes[0] == 0x8e && StartsWithValue(bytes[1..], Named(constants)) {
      var s := bytes[1..];
      var q, nil, more :| 0 <= q <= |s| && IsValue(s[..q], Named(constants), nil, more);
      assert s[0..q] == s[..q];
      ValueIsRead(s[..q], nil, more, s, 0, m);
    }
  }

  /** No value is the beginning of another one, so where a value ends is never in doubt. */
  lemma PrefixFree(s: seq<byte>, t: seq<byte>, seen: seq<Val>, a: bool, b: bool, x: seq<bool>, y: seq<bool>)
    requires IsValue(s, Named(seen), a, x) && IsValue(t, Named(seen), b, y) && s <= t
    ensures s == t && a == b && x == y
  {
    ValueIsRead(s, a, x, t, 0, Memory([], seen));
    ValueIsRead(t, b, y, t, 0, Memory([], seen));
  }

  /** The value is a table of the decoder's heap. */
  predicate GivesTable(r: Decoded) {
    r.Decoded? && r.val.Ref? && r.val.id < |r.memory.heap| && r.memory.heap[r.val.id].Table?
  }

  /** Without constants a table can only come from a table that is written out. */
  lemma TableMakesTable(buf: seq<byte>, p: nat, heap: Heap)
    requires DecodeValue(buf, p, Memory(heap, [])).Decoded?
    ensures GivesTable(DecodeValue(buf, p, Memory(heap, []))) <==>
            p + 1 < |buf| && buf[p] == TTABLE && buf[p + 1] == TVAL
  {
    hide DecodeEntries, ReadU32;
  }

  /** A string unpacks, as an event from another process must, exactly when it begins with the magic byte and a
      table. */
  lemma UnpackAcceptsExactly(bytes: seq<byte>, d: Heap, n: nat)
    ensures Unpacked(bytes, d, n).Arrived? <==>
            && bytes != [] && bytes[0] == 0x8e
            && exists q, more :: 0 <= q < |bytes| && IsTable(bytes[1..][..q], [], more)
  {
    hide DecodeValue, IsTable, IsClosure;
    var m := Memory(d, []);
    assert Named(m.seen) == [];
    if bytes != [] && bytes[0] == 0x8e {
      var s := bytes[1..];
      if DecodeValue(s, 0, m).Decoded? {
        TableMakesTable(s, 0, d);
        if |s| >= 2 && s[0] == TTABLE && s[1] == TVAL {
          ReadIsTable(s, 0, m);
          var q := DecodeValue(s, 0, m).pos;
          assert s[0..q] == s[..q];
        }
      }
      forall q, more | 0 <= q < |bytes| && IsTable(s[..q], [], more) ensures Unpacked(bytes, d, n).Arrived? {
        assert s[0..q] == s[..q];
        TableIsRead(s[..q], more, s, 0, m);
        TableHead(s, q, more);
        TableMakesTable(s, 0, d);
      }
    }
  }

  lemma TableHead(s: seq<byte>, q: nat, more: seq<bool>)
    requires q <= |s| && IsTable(s[..q], [], more)
    ensures |s| >= 6 && s[0] == TTABLE && s[1] == TVAL
  {
    assert s[..q][0] == s[0] && s[..q][1] == s[1];
  }

  // ----- the entries of a table are a map -----

  function Get(entries: seq<(Val, Val)>, k: Val): Val {
    var j := KeyIndex(entries, k);
    if j < 0 then Nil else entries[j].1
  }

  /** An entry says what its key stands for, and a key without an entry stands for nil. */
  lemma GetIs(entries: seq<(Val, Val)>, k: Val, v: Val)
    requires DistinctKeys(entries)
    ensures (k, v) in entries ==> Get(entries, k) == v
    ensures KeyIndex(entries, k) >= 0 ==> (k, Get(entries, k)) in entries
    ensures (forall j | 0 <= j < |entries| :: entries[j].0 != k) ==> Get(entries, k) == Nil
  {
  }

  lemma SetKeepsDistinct(entries: seq<(Val, Val)>, k: Val, v: Val)
    requires DistinctKeys(entries)
    ensures var after := SetEntry(entries, k, v);
            && DistinctKeys(after)
            && (forall e: (Val, Val) | e.0 != k :: e in entries <==> e in after)
            && (if v.Nil? then forall j | 0 <= j < |after| :: after[j].0 != k else (k, v) in after)
  {
    var after, j := SetEntry(entries, k, v), KeyIndex(entries, k);
    if j >= 0 {
      forall e: (Val, Val) | e.0 != k && e in entries ensures e in after {
        var i :| 0 <= i < |entries| && entries[i] == e;
        assert after[if v.Nil? && i > j then i - 1 else i] == e;
      }
      if !v.Nil? {
        assert after[j] == (k, v);
      }
    } else if !v.Nil? {
      assert after[|entries|] == (k, v);
    }
  }

  /** Whatever the order in which keys come, and however often, the last value for a key counts, and nil removes it. */
  lemma SetEntryIsUpdate(entries: seq<(Val, Val)>, k: Val, v: Val, other: Val)
    requires DistinctKeys(entries)
    ensures DistinctKeys(SetEntry(entries, k, v))
    ensures Get(SetEntry(entries, k, v), other) == if other == k then v else Get(entries, other)
  {
    hide SetEntry, Get, KeyIndex;
    SetKeepsDistinct(entries, k, v);
    var after := SetEntry(entries, k, v);
    GetIs(after, k, v);
    GetIs(entries, other, Get(after, other));
    GetIs(after, other, Get(entries, other));
  }
}
