/** Bytes, and numbers as the byte strings that memcpy leaves in a buffer on a little-endian host. */
module Bytes {

  type byte = x: int | 0 <= x < 256

  const U32_LIMIT: int := 0x1_0000_0000
  const INT_LIMIT: int := 0x8000_0000

  /** The low four bytes of an integer. */
  function U32(n: nat): (b: seq<byte>)
    ensures |b| == 4
  {
    var q1 := n / 256;
    var q2 := q1 / 256;
    var q3 := q2 / 256;
    [n % 256, q1 % 256, q2 % 256, q3 % 256]
  }

  function ReadU32(b: seq<byte>, p: nat): nat
    requires p + 4 <= |b|
  {
    var b0: int, b1: int, b2: int, b3: int := b[p], b[p + 1], b[p + 2], b[p + 3];
    b0 + 256 * (b1 + 256 * (b2 + 256 * b3))
  }

  /** The same four bytes read as a signed C int. */
  function ReadI32(b: seq<byte>, p: nat): int
    requires p + 4 <= |b|
  {
    var n := ReadU32(b, p);
    if n >= INT_LIMIT then n - U32_LIMIT else n
  }

  lemma U32RoundTrip(n: nat)
    requires n < U32_LIMIT
    ensures ReadU32(U32(n), 0) == n
  {
    var q1 := n / 256;
    var q2 := q1 / 256;
    var q3 := q2 / 256;
    assert n == 256 * q1 + n % 256;
    assert q1 == 256 * q2 + q1 % 256;
    assert q2 == 256 * q3 + q2 % 256;
    assert q3 < 256;
  }

  /** Reading from inside a larger buffer. */
  lemma ReadWithin(buf: seq<byte>, p: nat, n: nat)
    requires p + 4 <= |buf| && buf[p..p + 4] == U32(n) && n < U32_LIMIT
    ensures ReadU32(buf, p) == n
  {
    U32RoundTrip(n);
    var w := buf[p..p + 4];
    assert buf[p] == w[0] && buf[p + 1] == w[1] && buf[p + 2] == w[2] && buf[p + 3] == w[3];
  }

  /** A slice of a slice. */
  lemma SliceOfSlice(buf: seq<byte>, s: seq<byte>, p: nat, i: nat, j: nat)
    requires i <= j <= |s| && p + |s| <= |buf| && buf[p..p + |s|] == s
    ensures buf[p + i..p + j] == s[i..j]
  {
    assert |buf[p + i..p + j]| == |s[i..j]|;
    forall k | 0 <= k < j - i ensures buf[p + i..p + j][k] == s[i..j][k] {
      assert s[i + k] == buf[p..p + |s|][i + k];
    }
  }

  /** Two adjacent slices, behind something else. */
  lemma Adjoin(before: seq<byte>, buf: seq<byte>, i: nat, j: nat, k: nat)
    requires i <= j <= k <= |buf|
    ensures before + buf[i..j] + buf[j..k] == before + buf[i..k]
  {
    assert buf[i..j] + buf[j..k] == buf[i..k];
  }

  // ----- table indices as IEEE 754 doubles -----

  function Pow2(k: nat): (r: nat)
    ensures r >= 1
  {
    if k == 0 then 1 else 2 * Pow2(k - 1)
  }

  lemma {:induction false} Pow2Sum(a: nat, b: nat)
    ensures Pow2(a + b) == Pow2(a) * Pow2(b)
  {
    if a > 0 {
      Pow2Sum(a - 1, b);
      assert Pow2(a) * Pow2(b) == 2 * (Pow2(a - 1) * Pow2(b));
    }
  }

  const INDEX_LIMIT: int := 0x20_0000_0000_0000
  const IMPLIED: int := 0x10_0000_0000_0000

  lemma IndexLimits()
    ensures Pow2(52) == IMPLIED && Pow2(53) == INDEX_LIMIT
  {
    assert Pow2(13) == 8192;
    Pow2Sum(13, 13);
    Pow2Sum(26, 26);
  }

  /** The exponent of a positive integer. */
  function Exponent(n: nat): (e: nat)
    requires n >= 1
    ensures Pow2(e) <= n < 2 * Pow2(e)
  {
    if n == 1 then 0 else 1 + Exponent(n / 2)
  }

  lemma {:induction false} Pow2Grows(a: nat, b: nat)
    requires a < b
    ensures 2 * Pow2(a) <= Pow2(b)
  {
    if a + 1 < b {
      Pow2Grows(a, b - 1);
    }
  }

  lemma ExponentBound(n: nat)
    requires 1 <= n < INDEX_LIMIT
    ensures Exponent(n) <= 52
  {
    IndexLimits();
    if Exponent(n) > 52 {
      Pow2Grows(52, Exponent(n));
    }
  }

  /** The fraction field: what follows the leading bit, moved up to fifty-two bits. */
  function Fraction(n: nat): (f: nat)
    requires 1 <= n < INDEX_LIMIT
    ensures f < IMPLIED
  {
    ExponentBound(n);
    FractionBound(n);
    (n - Pow2(Exponent(n))) * Pow2(52 - Exponent(n))
  }

  lemma FractionBound(n: nat)
    requires 1 <= n < INDEX_LIMIT && Exponent(n) <= 52
    ensures 0 <= (n - Pow2(Exponent(n))) * Pow2(52 - Exponent(n)) < IMPLIED
  {
    hide Pow2, Exponent;
    IndexLimits();
    var e := Exponent(n);
    Pow2Sum(e, 52 - e);
    Scale(n - Pow2(e), Pow2(e), Pow2(52 - e));
  }

  lemma Scale(a: nat, b: nat, c: nat)
    requires a < b && c >= 1
    ensures 0 <= a * c < b * c
  {
  }

  /** The sixty-four bits of the double whose value is the index `n`. */
  function IndexBits(n: nat): (r: nat)
    requires 1 <= n < INDEX_LIMIT
    ensures r < U32_LIMIT * U32_LIMIT
  {
    ExponentBound(n);
    (1023 + Exponent(n)) * IMPLIED + Fraction(n)
  }

  /** Their eight bytes. */
  function IndexBytes(n: nat): (b: seq<byte>)
    requires 1 <= n < INDEX_LIMIT
    ensures |b| == 8
  {
    U32(IndexBits(n) % U32_LIMIT) + U32(IndexBits(n) / U32_LIMIT)
  }

  // ----- what those bytes mean -----

  /** The fields of an IEEE 754 double stored in little-endian order. */
  datatype Double = Double(sign: nat, exponent: nat, fraction: nat)

  function Fields(b: seq<byte>): Double
    requires |b| == 8
  {
    var w := ReadU32(b, 0) + U32_LIMIT * ReadU32(b, 4);
    Double(w / (2048 * IMPLIED), w / IMPLIED % 2048, w % IMPLIED)
  }

  /** The bytes are a double whose value is `n`: a positive normal one, where `n` is
      (1 + fraction / 2^52) * 2^(exponent - 1023). */
  ghost predicate IsDouble(b: seq<byte>, n: nat) {
    && |b| == 8
    && var d := Fields(b);
       && d.sign == 0 && 1023 <= d.exponent < 2047
       && (IMPLIED + d.fraction) * Pow2(d.exponent - 1023) == n * IMPLIED
  }

  lemma WordReadsBack(w: nat)
    requires w < U32_LIMIT * U32_LIMIT
    ensures var b := U32(w % U32_LIMIT) + U32(w / U32_LIMIT); ReadU32(b, 0) + U32_LIMIT * ReadU32(b, 4) == w
  {
    hide U32, ReadU32;
    var b := U32(w % U32_LIMIT) + U32(w / U32_LIMIT);
    assert b[0..4] == U32(w % U32_LIMIT) && b[4..8] == U32(w / U32_LIMIT);
    ReadWithin(b, 0, w % U32_LIMIT);
    ReadWithin(b, 4, w / U32_LIMIT);
  }

  lemma Shifted(n: nat, low: nat, high: nat)
    requires low <= n
    ensures (low * high + (n - low) * high) * low == n * (low * high)
  {
    assert low * high + (n - low) * high == n * high;
  }

  /** A table index is written as the double of that value. */
  lemma IndexIsDouble(n: nat)
    requires 1 <= n < INDEX_LIMIT
    ensures IsDouble(IndexBytes(n), n)
  {
    hide U32, ReadU32, Pow2, Exponent;
    ExponentBound(n);
    var e := Exponent(n);
    WordReadsBack(IndexBits(n));
    IndexLimits();
    Pow2Sum(e, 52 - e);
    Shifted(n, Pow2(e), Pow2(52 - e));
  }

  /** So different indices are different numbers on the wire. */
  lemma IndexBytesInjective(m: nat, n: nat)
    requires 1 <= m < INDEX_LIMIT && 1 <= n < INDEX_LIMIT && IndexBytes(m) == IndexBytes(n)
    ensures m == n
  {
    hide IndexBytes, Pow2, Fields;
    IndexIsDouble(m);
    IndexIsDouble(n);
  }
}
