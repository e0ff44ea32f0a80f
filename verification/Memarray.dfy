/** Network byte order of numeric arrays (src/kernel/extra/memarray.c) on a little-endian host. */
module Memarrays {
  import opened Bytes
  import opened Buffers

  /** The value of an item as the host stores it. */
  function LittleEndian(b: seq<byte>): nat {
    if b == [] then 0 else b[0] + 256 * LittleEndian(b[1..])
  }

  /** The value of an item in network order. */
  function BigEndian(b: seq<byte>): nat {
    if b == [] then 0 else 256 * BigEndian(b[..|b| - 1]) + b[|b| - 1]
  }

  function Swapped(b: seq<byte>): (r: seq<byte>)
    ensures |r| == |b|
  {
    seq(|b|, k requires 0 <= k < |b| => b[|b| - 1 - k])
  }

  lemma {:induction false} SwappedKeepsValue(b: seq<byte>)
    ensures BigEndian(Swapped(b)) == LittleEndian(b)
    decreases |b|
  {
    if b != [] {
      SwappedKeepsValue(b[1..]);
      assert Swapped(b)[..|b| - 1] == Swapped(b[1..]);
    }
  }

  lemma SwappedTwice(b: seq<byte>)
    ensures Swapped(Swapped(b)) == b
  {
  }

  predicate Supported(item: nat) {
    item == 1 || item == 2 || item == 4 || item == 8
  }

  /** Item number `i`. */
  function Item(b: seq<byte>, item: nat, i: nat): seq<byte>
    requires item * (i + 1) <= |b|
  {
    b[item * i..item * (i + 1)]
  }

  /** The first `n` items, each swapped. */
  function SwapItems(b: seq<byte>, item: nat, n: nat): (r: seq<byte>)
    requires item * n <= |b|
    ensures |r| == item * n
  {
    if n == 0 then []
    else
      assert item * n == item * (n - 1) + item;
      SwapItems(b, item, n - 1) + Swapped(b[item * (n - 1)..item * n])
  }

  lemma Products(item: nat, i: nat, n: nat)
    requires i < n
    ensures item * (i + 1) == item * i + item <= item * n
  {
    if i + 1 < n {
      Products(item, i, n - 1);
    }
    assert item * n == item * (n - 1) + item;
  }

  lemma {:induction false} SwapItemsAt(b: seq<byte>, item: nat, n: nat, i: nat)
    requires item * n <= |b| && i < n
    ensures item * (i + 1) == item * i + item <= item * n
    ensures Item(SwapItems(b, item, n), item, i) == Swapped(Item(b, item, i))
  {
    Products(item, i, n);
    Products(item, n - 1, n);
    var before, last := SwapItems(b, item, n - 1), Swapped(b[item * (n - 1)..item * n]);
    if i < n - 1 {
      SwapItemsAt(b, item, n - 1, i);
      SliceOf(before, last, item * i, item * (i + 1));
    } else {
      assert (before + last)[|before|..] == last;
    }
  }

  lemma SliceOf(a: seq<byte>, b: seq<byte>, from: nat, to: nat)
    requires from <= to <= |a|
    ensures (a + b)[from..to] == a[from..to]
  {
  }

  /** Each item of the network string is the big-endian form of the value that the host stores. */
  lemma NetworkOrder(b: seq<byte>, item: nat, n: nat, i: nat)
    requires |b| == item * n && i < n
    ensures item * (i + 1) <= item * n
    ensures BigEndian(Item(SwapItems(b, item, n), item, i)) == LittleEndian(Item(b, item, i))
  {
    SwapItemsAt(b, item, n, i);
    SwappedKeepsValue(Item(b, item, i));
  }

  /** Converting there and back, in either direction, changes nothing. */
  lemma {:induction false} SwapItemsTwice(b: seq<byte>, item: nat, n: nat)
    requires item * n <= |b|
    ensures SwapItems(SwapItems(b, item, n), item, n) == b[..item * n]
  {
    if n > 0 {
      Products(item, n - 1, n);
      var once := SwapItems(b, item, n);
      SwapItemsTwice(b, item, n - 1);
      SwapItemsPrefix(once, SwapItems(b, item, n - 1), item, n - 1);
      var last := b[item * (n - 1)..item * n];
      assert once[item * (n - 1)..item * n] == Swapped(last);
      SwappedTwice(last);
      assert b[..item * n] == b[..item * (n - 1)] + last;
    }
  }

  lemma {:induction false} SwapItemsPrefix(b: seq<byte>, c: seq<byte>, item: nat, n: nat)
    requires item * n <= |b| && item * n <= |c| && b[..item * n] == c[..item * n]
    ensures SwapItems(b, item, n) == SwapItems(c, item, n)
  {
    if n > 0 {
      Products(item, n - 1, n);
      var m := item * (n - 1);
      assert b[..m] == b[..item * n][..m] == c[..m];
      assert b[m..item * n] == b[..item * n][m..] == c[..item * n][m..] == c[m..item * n];
      SwapItemsPrefix(b, c, item, n - 1);
    }
  }

  lemma {:induction false} OneByteItems(b: seq<byte>, n: nat)
    requires n <= |b|
    ensures SwapItems(b, 1, n) == b[..n]
  {
    if n > 0 {
      OneByteItems(b, n - 1);
      assert Swapped(b[n - 1..n]) == b[n - 1..n];
      assert b[..n] == b[..n - 1] + b[n - 1..n];
    }
  }

  class Memarray {
    const length: nat
    const item: nat
    const data: array<byte>

    ghost predicate Valid() {
      length > 0 && data.Length == item * length
    }

    constructor (length: nat, item: nat)
      requires length > 0
      ensures Valid() && this.length == length && this.item == item && fresh(data)
    {
      this.length := length;
      this.item := item;
      data := new byte[item * length];
    }

    /** Lto_netstr: fails exactly for item sizes other than 1, 2, 4 and 8 */
    method ToNetstr() returns (ok: bool, str: seq<byte>)
      requires Valid()
      ensures ok <==> Supported(item)
      ensures ok ==> str == SwapItems(data[..], item, length)
    {
      str := [];
      if item == 1 {
        OneByteItems(data[..], length);
        return true, data[..];
      } else if !Supported(item) {
        return false, [];
      }
      var i, src := 0, 0;
      while src < data.Length
        invariant 0 <= i <= length && src == item * i
        invariant str == SwapItems(data[..], item, i)
        decreases length - i
      {
        Below(item, i, length);
        Products(item, i, length);
        str := str + Swapped(data[src..src + item]);
        assert data[src..src + item] == data[..][item * i..item * (i + 1)];
        src := src + item;
        i := i + 1;
      }
      Reached(item, i, length);
      ok := true;
    }

    /** Lfrom_netstr: fails for a string of another size, and then for item sizes that are not supported */
    method FromNetstr(str: seq<byte>) returns (ok: bool)
      requires Valid()
      modifies data
      ensures ok <==> |str| == data.Length && Supported(item)
      ensures data[..] == if ok then SwapItems(str, item, length) else old(data[..])
    {
      if |str| != data.Length {
        return false;
      } else if item == 1 {
        OneByteItems(str, length);
        CopyIn(data, 0, str);
        return true;
      } else if !Supported(item) {
        return false;
      }
      var i, src := 0, 0;
      while src < |str|
        invariant 0 <= i <= length && src == item * i
        invariant src <= data.Length && data[..src] == SwapItems(str, item, i)
        decreases length - i
      {
        Below(item, i, length);
        Products(item, i, length);
        CopyIn(data, src, Swapped(str[src..src + item]));
        src := src + item;
        i := i + 1;
      }
      Reached(item, i, length);
      ok := true;
    }
  }

  lemma Below(item: nat, i: nat, n: nat)
    requires i <= n && item * i < item * n
    ensures i < n
  {
  }

  lemma Reached(item: nat, i: nat, n: nat)
    requires i <= n && item * i >= item * n && item > 0
    ensures i == n
  {
    if i < n {
      Products(item, i, n);
    }
  }

  /** from_netstr after to_netstr, and to_netstr after from_netstr. */
  method ThereAndBack(m: Memarray, str: seq<byte>) returns (ok: bool, there: seq<byte>, back: seq<byte>)
    requires m.Valid() && Supported(m.item) && |str| == m.data.Length
    modifies m.data
    ensures back == str && m.data[..] == old(m.data[..])
  {
    var done;
    ok, there := m.ToNetstr();
    ghost var before := m.data[..];
    done := m.FromNetstr(str);
    ok, back := m.ToNetstr();
    SwapItemsTwice(str, m.item, m.length);
    assert str[..m.item * m.length] == str;
    done := m.FromNetstr(there);
    SwapItemsTwice(before, m.item, m.length);
    assert before[..m.item * m.length] == before;
  }
}
