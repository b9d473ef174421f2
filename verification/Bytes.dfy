/** Raw bytes: overwriting a stretch of a buffer, little-endian words, and bitmap bits. */
module Bytes {
  import opened Arith

  type byte = x: int | 0 <= x < 0x100
  type u16 = x: int | 0 <= x < 0x1_0000
  type u32 = x: int | 0 <= x < 0x1_0000_0000

  /** The buffer s with b written over the bytes from `at` on. */
  function Splice<T>(s: seq<T>, at: nat, b: seq<T>): (r: seq<T>)
    requires at + |b| <= |s|
    ensures |r| == |s|
    ensures forall i :: 0 <= i < |s| ==> r[i] == if at <= i < at + |b| then b[i - at] else s[i]
  {
    s[..at] + b + s[at + |b|..]
  }

  function U16(s: seq<byte>, at: nat): u16
    requires at + 2 <= |s|
  {
    s[at] as int + s[at + 1] as int * 0x100
  }

  function U32(s: seq<byte>, at: nat): u32
    requires at + 4 <= |s|
  {
    s[at] as int + s[at + 1] as int * 0x100 + s[at + 2] as int * 0x1_0000 + s[at + 3] as int * 0x100_0000
  }

  function Put32(v: u32): (b: seq<byte>)
    ensures |b| == 4 && U32(b, 0) == v
  {
    var second: nat := v / 0x100;
    var third: nat := second / 0x100;
    [v % 0x100, second % 0x100, third % 0x100, third / 0x100]
  }

  /** The lowest byte comes first. */
  lemma ByteOrder(s: seq<byte>, at: nat)
    requires at + 4 <= |s|
    ensures U32(s, at) % 0x100 == s[at] && U32(s, at) / 0x100 % 0x100 == s[at + 1]
    ensures U32(s, at) / 0x1_0000 % 0x100 == s[at + 2] && U32(s, at) / 0x100_0000 == s[at + 3]
    ensures U16(s, at) % 0x100 == s[at] && U16(s, at) / 0x100 == s[at + 1]
    ensures U16(s, at) == U32(s, at) % 0x1_0000 && U16(s, at + 2) == U32(s, at) / 0x1_0000
  {
    var lo: nat, hi: nat := U16(s, at), U16(s, at + 2);
    assert U32(s, at) as int == lo + 0x1_0000 * hi;
    ByteDigits(s[at], s[at + 1], hi);
    ByteDigits(s[at + 2], s[at + 3], 0);
    assert lo % 0x100 == s[at] && lo / 0x100 == s[at + 1];
  }

  lemma ByteDigits(a: byte, b: byte, hi: nat)
    ensures var lo := a as int + 0x100 * b as int;
            && lo % 0x100 == a && lo / 0x100 == b && (lo + 0x1_0000 * hi) % 0x100 == a
            && (lo + 0x1_0000 * hi) / 0x100 % 0x100 == b && (lo + 0x1_0000 * hi) / 0x1_0000 == hi
            && (lo + 0x1_0000 * hi) % 0x1_0000 == lo && (lo + 0x1_0000 * hi) / 0x100_0000 == hi / 0x100
  {
    var lo, rest := a as int + 0x100 * b as int, b as int + 0x100 * hi;
    assert lo + 0x1_0000 * hi == a as int + 0x100 * rest;
  }

  // ---- bits -------------------------------------------------------------

  /** (b >> k) & 1 */
  predicate Bit(b: nat, k: nat)
  {
    if k == 0 then b % 2 == 1 else Bit(b / 2, k - 1)
  }

  /** Bit k is the one of weight 2^k. */
  lemma {:induction false} BitIs(b: nat, k: nat)
    ensures Bit(b, k) <==> b / Pow(2, k) % 2 == 1
  {
    if k > 0 {
      BitIs(b / 2, k - 1);
      HalfFirst(b, Pow(2, k - 1));
    }
  }

  lemma HalfFirst(b: nat, m: nat)
    requires m > 0
    ensures b / (2 * m) == b / 2 / m
  {
    var q := b / 2 / m;
    var r := b / 2 % m;
    assert b / 2 == q * m + r;
    assert b == (2 * m) * q + (2 * r + b % 2) by { assert 2 * (q * m) == (2 * m) * q; }
    QuotientIs(b, 2 * m, q, 2 * r + b % 2);
  }

  lemma QuotientIs(x: nat, n: nat, q: nat, r: nat)
    requires r < n && x == n * q + r
    ensures x / n == q && x % n == r
  {
    AsProduct(q, n);
    Euclid(x, n);
    Unique(n, q, r, x / n, x % n);
  }

  /** b | (1 << k) when `on`, b & ~(1 << k) otherwise. */
  function WithBit(b: nat, k: nat, on: bool): nat
  {
    if k == 0 then b / 2 * 2 + (if on then 1 else 0) else WithBit(b / 2, k - 1, on) * 2 + b % 2
  }

  lemma {:induction false} WithBitAt(b: nat, k: nat, on: bool, j: nat)
    ensures Bit(WithBit(b, k, on), j) == if j == k then on else Bit(b, j)
  {
    if k > 0 && j > 0 {
      WithBitAt(b / 2, k - 1, on, j - 1);
    }
  }

  lemma {:induction false} WithBitBound(b: nat, k: nat, on: bool, n: nat)
    requires k < n && b < Pow(2, n)
    ensures WithBit(b, k, on) < Pow(2, n)
  {
    var half, m := b / 2, Pow(2, n - 1);
    assert b == 2 * half + b % 2 && half < m;
    if k > 0 {
      WithBitBound(half, k - 1, on, n - 1);
      var r := WithBit(half, k - 1, on);
      assert r + 1 <= m;
    }
  }

  function ByteWithBit(b: byte, k: nat, on: bool): (r: byte)
    requires k < 8
    ensures forall j :: 0 <= j < 8 ==> Bit(r, j) == if j == k then on else Bit(b, j)
  {
    assert Pow(2, 8) == 0x100;
    WithBitBound(b, k, on, 8);
    assert forall j :: 0 <= j < 8 ==> Bit(WithBit(b, k, on), j) == if j == k then on else Bit(b, j) by {
      forall j | 0 <= j < 8 { WithBitAt(b, k, on, j); }
    }
    WithBit(b, k, on)
  }
}
