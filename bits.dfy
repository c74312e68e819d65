/**
 * Bitwise AND on non-negative integers, defined one bit at a time, and the
 * two masks the vectorised variants apply to their column counters.
 */
module Bits {

  function Pow2(n: nat): (p: nat)
    ensures p >= 1
  {
    if n == 0 then 1 else 2 * Pow2(n - 1)
  }

  /** a & b: bit k of the result is set when bit k is set in both. */
  function BitAnd(a: nat, b: nat): (r: nat)
    ensures r <= a && r <= b
    decreases b
  {
    if a == 0 || b == 0 then 0
    else 2 * BitAnd(a / 2, b / 2) + (if a % 2 == 1 && b % 2 == 1 then 1 else 0)
  }

  lemma MulAtLeast(x: int, d: int)
    requires x >= 1 && d > 0
    ensures x * d >= d
  {
  }

  /** Quotient and remainder are determined by a == k * d + r with 0 <= r < d. */
  lemma DivModUnique(a: int, d: int, k: int, r: int)
    requires d > 0 && 0 <= r < d && a == k * d + r
    ensures a / d == k && a % d == r
  {
    var q := a / d;
    assert a == q * d + a % d;
    if q < k {
      MulAtLeast(k - q, d);
    } else if q > k {
      MulAtLeast(q - k, d);
    }
  }

  /** The remainder modulo 2p, from the remainder of a / 2 modulo p and the low bit of a. */
  lemma ModOfDouble(a: nat, p: nat, d: nat)
    requires p >= 1 && d == 2 * p
    ensures a % d == 2 * ((a / 2) % p) + a % 2
  {
    var q := a / 2;
    var k := q / p;
    assert q == k * p + q % p;
    assert a == k * d + (2 * (q % p) + a % 2);
    DivModUnique(a, d, k, 2 * (q % p) + a % 2);
  }

  /** One step of BitAnd against an odd mask: the low bit of a survives. */
  lemma BitAndOddStep(a: nat, m: nat)
    requires a > 0 && m % 2 == 1
    ensures BitAnd(a, m) == 2 * BitAnd(a / 2, m / 2) + a % 2
  {
  }

  /** 2p - 1 halves to p - 1 with remainder 1. */
  lemma HalfOfOddMask(m: nat, p: nat)
    requires p >= 1 && m == 2 * p - 1
    ensures m / 2 == p - 1 && m % 2 == 1
  {
    DivModUnique(m, 2, p - 1, 1);
  }

  /** A mask of n low one-bits (m = 2^n - 1) keeps the remainder modulo 2^n. */
  lemma {:induction false} BitAndLowMask(a: nat, n: nat, m: nat)
    requires m + 1 == Pow2(n)
    ensures BitAnd(a, m) == a % (m + 1)
  {
    if n == 0 {
    } else if a == 0 {
    } else {
      var p := Pow2(n - 1);
      HalfOfOddMask(m, p);
      BitAndOddStep(a, m);
      BitAndLowMask(a / 2, n - 1, p - 1);
      ModOfDouble(a, p, m + 1);
    }
  }

  /** A mask whose lowest bit is clear drops the lowest bit of the other operand. */
  lemma {:induction false} BitAndClearsLowBit(a: nat, m: nat)
    ensures BitAnd(a, 2 * m) == 2 * BitAnd(a / 2, m)
  {
    if a == 0 || m == 0 {
    } else {
      assert (2 * m) / 2 == m && (2 * m) % 2 == 0;
    }
  }

  /**
   * i & 0xFC keeps bits 2 to 7 of i: the low byte rounded down to a multiple
   * of 4.
   */
  lemma MaskFC(i: nat)
    ensures BitAnd(i, 0xFC) == i % 256 - i % 4
    ensures BitAnd(i, 0xFC) % 4 == 0
  {
    BitAndClearsLowBit(i, 0x7E);
    BitAndClearsLowBit(i / 2, 0x3F);
    assert Pow2(6) == 64;
    BitAndLowMask(i / 2 / 2, 6, 0x3F);
    assert i / 2 / 2 == i / 4;
    var q := i / 4;
    assert BitAnd(i, 0xFC) == 4 * (q % 64);
    DivModUnique(i, 256, q / 64, 4 * (q % 64) + i % 4);
    DivModUnique(4 * (q % 64), 4, q % 64, 0);
  }

  /** b & 0xF0 keeps bits 4 to 7 of b: the low byte rounded down to a multiple of 16. */
  lemma MaskF0(b: nat)
    ensures BitAnd(b, 0xF0) == b % 256 - b % 16
  {
    BitAndClearsLowBit(b, 0x78);
    BitAndClearsLowBit(b / 2, 0x3C);
    BitAndClearsLowBit(b / 2 / 2, 0x1E);
    BitAndClearsLowBit(b / 2 / 2 / 2, 0x0F);
    assert Pow2(4) == 16;
    BitAndLowMask(b / 2 / 2 / 2 / 2, 4, 0x0F);
    assert b / 2 / 2 / 2 / 2 == b / 16;
    var q := b / 16;
    DivModUnique(b, 256, q / 16, 16 * (q % 16) + b % 16);
  }
}
