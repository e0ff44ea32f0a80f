/** The growing byte buffer of lmarshal.c. */
module Buffers {
  import opened Bytes

  const START: nat := 128

  /** A size the buffer can have. */
  ghost predicate Doubled(size: nat) {
    exists k: nat :: size == START * Pow2(k)
  }

  lemma DoubleAgain(size: nat)
    requires Doubled(size)
    ensures Doubled(2 * size)
  {
    var k: nat :| size == START * Pow2(k);
    assert Pow2(k + 1) == 2 * Pow2(k);
  }

  /** What buf_write holds after a list of writes. */
  function Concat(writes: seq<seq<byte>>): seq<byte> {
    if writes == [] then [] else Concat(writes[..|writes| - 1]) + writes[|writes| - 1]
  }

  /** The growth loop: the first doubling of `size`, after at least one, that leaves more than `len` bytes free. */
  method NewSize(size: nat, head: nat, len: nat) returns (newSize: nat)
    requires Doubled(size) && head <= size && size - head < len
    ensures Doubled(newSize) && head + len < newSize <= 2 * (head + len)
  {
    newSize := 2 * size;
    DoubleAgain(size);
    while newSize - head <= len
      invariant size < newSize <= 2 * (head + len) && Doubled(newSize)
      decreases head + len + 1 - newSize
    {
      DoubleAgain(newSize);
      newSize := 2 * newSize;
    }
  }

  /** memcpy */
  method CopyIn(data: array<byte>, at: nat, bytes: seq<byte>)
    requires at + |bytes| <= data.Length
    modifies data
    ensures data[..at + |bytes|] == old(data[..at]) + bytes
  {
    var i := 0;
    while i < |bytes|
      invariant 0 <= i <= |bytes|
      invariant data[..at + i] == old(data[..at]) + bytes[..i]
    {
      data[at + i] := bytes[i];
      i := i + 1;
    }
    assert bytes[..i] == bytes;
  }

  class Buffer {
    var data: array<byte>
    var size: nat
    var head: nat

    ghost predicate Valid()
      reads this
    {
      && data.Length == size && head <= size
      && Doubled(size)
      && (size == START || size <= 2 * head)
    }

    ghost function Contents(): seq<byte>
      requires Valid()
      reads this, data
    {
      data[..head]
    }

    /** buf_init */
    constructor ()
      ensures Valid() && fresh(data) && Contents() == [] && size == 128
    {
      assert Pow2(0) == 1 && Doubled(START);
      data := new byte[START];
      size := START;
      head := 0;
    }

    /** realloc */
    method Grow(len: nat)
      requires Valid() && size - head < len
      modifies this
      ensures data.Length == size && Doubled(size) && fresh(data)
      ensures head == old(head) && head + len < size <= 2 * (head + len)
      ensures data[..head] == old(data[..head])
    {
      var newSize := NewSize(size, head, len);
      var bigger := new byte[newSize];
      forall i | 0 <= i < head {
        bigger[i] := data[i];
      }
      assert bigger[..head] == data[..head];
      data := bigger;
      size := newSize;
    }

    /** buf_write: false when the length does not fit in 32 bits */
    method Write(bytes: seq<byte>) returns (ok: bool)
      requires Valid()
      modifies this, data
      ensures Valid() && (data == old(data) || fresh(data))
      ensures ok <==> |bytes| < U32_LIMIT
      ensures Contents() == old(Contents()) + if ok then bytes else []
    {
      if |bytes| >= U32_LIMIT {
        return false;
      }
      if size - head < |bytes| {
        Grow(|bytes|);
      }
      CopyIn(data, head, bytes);
      head := head + |bytes|;
      return true;
    }
  }

  /** Any list of writes leaves their concatenation, in a buffer of bounded size. */
  method WriteAll(writes: seq<seq<byte>>) returns (contents: seq<byte>, size: nat)
    requires forall k | 0 <= k < |writes| :: |writes[k]| < U32_LIMIT
    ensures contents == Concat(writes)
    ensures Doubled(size) && |contents| <= size && (size == START || size <= 2 * |contents|)
  {
    var b := new Buffer();
    var i := 0;
    while i < |writes|
      invariant 0 <= i <= |writes| && b.Valid() && fresh(b) && fresh(b.data)
      invariant b.Contents() == Concat(writes[..i])
    {
      assert writes[..i + 1][..i] == writes[..i];
      var ok := b.Write(writes[i]);
      i := i + 1;
    }
    assert writes[..i] == writes;
    contents := b.data[..b.head];
    size := b.size;
  }
}
