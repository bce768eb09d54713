/**
 The division helpers of `linux/kernel.h`: scaling by a fraction and rounding to the closest integer,
 on unsigned words and on signed ints.
 */
module Fractions {
  import opened Bits
  import opened Ints

  // ----- quotients -----

  lemma QuotientGrows(x: nat, y: nat, d: nat)
    requires 0 < d && x + d <= y
    ensures y / d > x / d
  {
    var e := x / d - y / d;
    assert e * d == (x - x % d) - (y - y % d);
    NonzeroMultiple(e, d);
  }

  /** x / d < n when x < n * d. */
  lemma QuotientBelow(x: nat, d: nat, n: nat)
    requires d > 0 && x < n * d
    ensures x / d < n
  {
    var e := n - x / d;
    assert e * d == n * d - (x - x % d);
    NonzeroMultiple(e, d);
  }

  lemma Regroup(q: nat, r: nat, n: nat, d: nat, e: nat, f: nat)
    requires r * n == e * d + f
    ensures (q * d + r) * n == (q * n + e) * d + f
  {
    assert (q * d + r) * n == (q * d) * n + r * n;
    assert (q * d) * n == (q * n) * d;
    assert (q * n + e) * d == (q * n) * d + e * d;
  }

  /** Splitting off the quotient loses nothing. */
  lemma SplitQuotient(x: nat, n: nat, d: nat)
    requires d > 0
    ensures x / d * n + x % d * n / d == x * n / d
  {
    var q, r := x / d, x % d;
    assert x == q * d + r;
    var m := r * n;
    var e, f := m / d, m % d;
    Regroup(q, r, n, d, e, f);
    DivModUnique(x * n, d, q * n + e, f);
  }

  // ----- mult_frac on unsigned words -----

  /** `mult_frac(x, numer, denom)` */
  function MultFrac(x: Word, numer: Word, denom: Word): Word
    requires denom > 0
  {
    var quot, rem := x / denom, x % denom;
    Wrap(Wrap(quot * numer) + Wrap(rem * numer) / denom)
  }

  /**
   The scaled value is exact, also where x * numer does not fit a word: precisely when the result
   and the product with the remainder do.
   */
  lemma MultFracIsExact(x: Word, numer: Word, denom: Word)
    requires denom > 0
    ensures MultFrac(x, numer, denom) == x * numer / denom
       <==> x % denom * numer < WORD_SIZE && x * numer / denom < WORD_SIZE
  {
    SplitQuotient(x, numer, denom);
    SumOfParts(x / denom * numer, x % denom * numer, denom);
  }

  /** With the parts cut to words, the sum is still right only if neither was cut. */
  lemma SumOfParts(p: nat, m: nat, d: nat)
    requires 0 < d < WORD_SIZE
    ensures Wrap(Wrap(p) + Wrap(m) / d) == p + m / d <==> m < WORD_SIZE && p + m / d < WORD_SIZE
  {
    var w: nat, e, v := Wrap(m), Wrap(m) / d, m / d;
    QuotientAtMost(w, d);
    if m >= WORD_SIZE {
      QuotientGrows(w, m, d);
      assert e < v;
    } else {
      assert e == v;
    }
    CutSum(p, e);
  }

  lemma CutSum(p: nat, v: nat)
    ensures Wrap(Wrap(p) + v) <= p + v
    ensures Wrap(Wrap(p) + v) == Wrap(p + v)
  {
  }

  // ----- mult_frac on ints -----

  /** `mult_frac(x, numer, denom)` on ints */
  function MultFracSigned(x: Int32, numer: Int32, denom: Int32): Int32
    requires denom != 0
  {
    var quot := WrapInt(TruncDiv(x, denom));
    var rem := TruncMod(x, denom);
    WrapInt(WrapInt(quot * numer) + WrapInt(TruncDiv(WrapInt(rem * numer), denom)))
  }

  predicate NegativeFraction(x: int, n: int, d: int) {
    DifferInSign(x, n) != (d < 0)
  }

  /** The product with the quotient, by sign and magnitude. */
  lemma QuotientPart(x: int, n: int, d: int) returns (p: nat)
    requires d != 0
    ensures p == Abs(x) / Abs(d) * Abs(n)
    ensures TruncDiv(x, d) * n == WithSign(NegativeFraction(x, n, d), p)
  {
    var q := TruncDiv(x, d);
    QuotientAtMost(Abs(x), Abs(d));
    SignedProduct(q, n);
    p := Abs(q) * Abs(n);
    if q == 0 || n == 0 {
      assert p == 0;
    }
  }

  /** The quotient of the product with the remainder. */
  lemma RemainderPart(x: int, n: int, d: int) returns (p: nat)
    requires d != 0
    ensures p == Abs(x) % Abs(d) * Abs(n) / Abs(d)
    ensures p < Abs(n) || p == 0
    ensures TruncDiv(TruncMod(x, d) * n, d) == WithSign(NegativeFraction(x, n, d), p)
  {
    var m := RemainderProduct(x, n, d);
    SignedQuotient(DifferInSign(x, n), m, d);
    QuotientAtMost(m, Abs(d));
    p := m / Abs(d);
    if n != 0 {
      QuotientBelow(m, Abs(d), Abs(n));
    }
  }

  lemma RemainderProduct(x: int, n: int, d: int) returns (m: nat)
    requires d != 0
    ensures m == Abs(x) % Abs(d) * Abs(n)
    ensures n != 0 ==> m < Abs(n) * Abs(d)
    ensures n == 0 ==> m == 0
    ensures TruncMod(x, d) * n == WithSign(DifferInSign(x, n), m)
  {
    var r := TruncMod(x, d);
    SignedProduct(r, n);
    m := Abs(r) * Abs(n);
    SmallerFactor(Abs(r), Abs(d), Abs(n));
    if r == 0 || n == 0 {
      assert m == 0;
    }
  }

  lemma SmallerFactor(r: nat, d: nat, n: nat)
    requires r < d
    ensures n > 0 ==> r * n < n * d
  {
    assert (d - r) * n == n * d - r * n;
    assert n > 0 ==> (d - r) * n >= n by { NonzeroMultiple(d - r, if n > 0 then n else 1); }
  }

  lemma WholePart(x: int, n: int, d: int)
    requires d != 0
    ensures TruncDiv(x * n, d) == WithSign(NegativeFraction(x, n, d), Abs(x) * Abs(n) / Abs(d))
  {
    SignedProduct(x, n);
    SignedQuotient(DifferInSign(x, n), Abs(x) * Abs(n), d);
  }

  /** For operands and divisors of any sign the split loses nothing, and its parts have one sign. */
  lemma SignedSplit(x: int, n: int, d: int)
    requires d != 0
    ensures TruncDiv(x, d) * n + TruncDiv(TruncMod(x, d) * n, d) == TruncDiv(x * n, d)
    ensures Abs(TruncDiv(x, d) * n) <= Abs(TruncDiv(x * n, d))
    ensures TruncDiv(x, d) * n < 0 ==> TruncDiv(x * n, d) < 0
  {
    var p := QuotientPart(x, n, d);
    var v := RemainderPart(x, n, d);
    WholePart(x, n, d);
    SplitQuotient(Abs(x), Abs(n), Abs(d));
    SumWithSign(NegativeFraction(x, n, d), p, v);
  }

  lemma SumWithSign(b: bool, p: nat, v: nat)
    ensures WithSign(b, p) + WithSign(b, v) == WithSign(b, p + v)
    ensures Abs(WithSign(b, p)) + Abs(WithSign(b, v)) == Abs(WithSign(b, p + v))
    ensures WithSign(b, p) < 0 || WithSign(b, v) < 0 ==> WithSign(b, p + v) < 0
  {
  }

  /** A cut product has a different quotient. */
  lemma CutQuotient(m: int, d: Int32)
    requires d != 0 && !IsInt(m)
    ensures TruncDiv(WrapInt(m), d) != TruncDiv(m, d)
  {
    var w := WrapInt(m);
    var k := Turns(m);
    QuotientGrows(0, Abs(m), Abs(d));
    QuotientAtMost(0, Abs(d));
    QuotientAtMost(Abs(w), Abs(d));
    if (w < 0) == (m < 0) {
      QuotientGrows(Abs(w), Abs(m), Abs(d));
    }
  }

  lemma IntQuotient(w: Int32, d: int)
    requires d != 0
    ensures -0x8000_0000 <= TruncDiv(w, d) <= 0x8000_0000
  {
    QuotientAtMost(Abs(w), Abs(d));
  }

  lemma SmallQuotient(x: int, n: Int32, d: int, m: int)
    requires d != 0 && m == TruncMod(x, d) * n
    ensures -0x8000_0000 < TruncDiv(m, d) < 0x8000_0000
  {
    var p := RemainderPart(x, n, d);
  }

  /** No step of the expression overflows. */
  predicate StepsFit(x: Int32, n: Int32, d: Int32)
    requires d != 0
  {
    var q, m := TruncDiv(x, d), TruncMod(x, d) * n;
    IsInt(q) && IsInt(q * n) && IsInt(m) && IsInt(TruncDiv(m, d)) && IsInt(q * n + TruncDiv(m, d))
  }

  /**
   On ints too the scaled value is exact precisely when the result and the product with the
   remainder are ints.  No other step can overflow then, except the quotient of INT_MIN by -1.
   */
  lemma SignedMultFracIsExact(x: Int32, n: Int32, d: Int32)
    requires d != 0
    ensures MultFracSigned(x, n, d) == TruncDiv(x * n, d)
       <==> IsInt(TruncMod(x, d) * n) && IsInt(TruncDiv(x * n, d))
    ensures StepsFit(x, n, d)
       <==> IsInt(TruncMod(x, d) * n) && IsInt(TruncDiv(x * n, d)) && IsInt(TruncDiv(x, d))
  {
    SignedSplit(x, n, d);
    var q, m := TruncDiv(x, d), TruncMod(x, d) * n;
    SmallQuotient(x, n, d, m);
    WrapIntProduct(q, n);
    CutParts(q * n, m, d);
  }

  lemma CutParts(p: int, m: int, d: Int32)
    requires d != 0 && -0x8000_0000 < TruncDiv(m, d) < 0x8000_0000
    ensures WrapInt(WrapInt(p) + WrapInt(TruncDiv(WrapInt(m), d))) == p + TruncDiv(m, d)
       <==> IsInt(m) && IsInt(p + TruncDiv(m, d))
  {
    var t := TruncDiv(WrapInt(m), d);
    WrapIntSum(p, t);
    IntQuotient(WrapInt(m), d);
    if !IsInt(m) {
      CutQuotient(m, d);
      SmallDifference(p, t, TruncDiv(m, d));
    }
  }

  lemma SmallDifference(p: int, t: int, v: int)
    requires -0x8000_0000 <= t <= 0x8000_0000 && -0x8000_0000 < v < 0x8000_0000 && t != v
    ensures WrapInt(p + t) != p + v
  {
    var k := Turns(p + t);
  }

  /** In general: the whole words of the remainder's product are lost, and the result is cut to a word. */
  lemma MultFracLoses(x: Word, numer: Word, denom: Word)
    requires denom > 0
    ensures var lost := x % denom * numer / WORD_SIZE * WORD_SIZE;
            MultFrac(x, numer, denom) == Wrap((x * numer - lost) / denom)
  {
    var q, r := x / denom, x % denom;
    QuotientAtMost(x, denom);
    LossOf(x, q, r, numer, denom);
  }

  lemma LossOf(x: nat, q: nat, r: nat, n: nat, d: nat)
    requires d > 0 && x == q * d + r
    ensures Wrap(Wrap(q * n) + Wrap(r * n) / d) == Wrap((x * n - r * n / WORD_SIZE * WORD_SIZE) / d)
  {
    var p: nat, m: nat := q * n, r * n;
    var h, w := m / WORD_SIZE, Wrap(m);
    var e, f := w / d, w % d;
    LessLost(q, r, n, d, m, h * WORD_SIZE, w, e, f, x);
    DivModUnique(x * n - h * WORD_SIZE, d, p + e, f);
    QuotientAtMost(w, d);
    CutSum(p, e);
  }

  lemma LessLost(q: int, r: int, n: int, d: int, m: int, lost: int, w: int, e: int, f: int, x: int)
    requires x == q * d + r && m == r * n && m == lost + w && w == e * d + f
    ensures x * n - lost == (q * n + e) * d + f
  {
    Expand(q, r, n, d, m);
    Collect(q * n, e, d, f, x * n - lost);
  }

  lemma Expand(q: int, r: int, n: int, d: int, m: int)
    requires m == r * n
    ensures (q * d + r) * n == (q * n) * d + m
  {
    assert (q * d + r) * n == (q * d) * n + r * n;
    assert (q * d) * n == (q * n) * d;
  }

  lemma Collect(p: int, e: int, d: int, f: int, total: int)
    requires total == p * d + e * d + f
    ensures total == (p + e) * d + f
  {
    assert (p + e) * d == p * d + e * d;
  }

  /** A product that does not fit: 2^16 times 2^16 / 2^17 is 2^15, and both forms give 0. */
  lemma MultFracWraps()
    ensures MultFrac(0x1_0000, 0x1_0000, 0x2_0000) == 0 && 0x1_0000 * 0x1_0000 / 0x2_0000 == 0x8000
    ensures MultFracSigned(0x1_0000, 0x1_0000, 0x2_0000) == 0
  {
  }

  // ----- DIV_ROUND_CLOSEST -----

  /** No multiple of d is closer to x than r * d. */
  predicate IsClosest(r: int, x: int, d: int) {
    -d <= 2 * (x - r * d) <= d
  }

  /** `DIV_ROUND_CLOSEST` when either type is unsigned */
  function DivRoundClosest(x: Word, d: Word): nat
    requires d > 0
  {
    QuotientAtMost(Add32(x, d / 2), d);
    Add32(x, d / 2) / d
  }

  /** `DIV_ROUND_CLOSEST` on signed types; the divisor must be positive */
  function DivRoundClosestSigned(x: Int32, d: Int32): int
    requires d > 0
  {
    if x > 0 then TruncDiv(WrapInt(x + TruncDiv(d, 2)), d) else TruncDiv(WrapInt(x - TruncDiv(d, 2)), d)
  }

  /** The sum that is divided is an int. */
  predicate ClosestFits(x: Int32, d: Int32) {
    IsInt(if x > 0 then x + d / 2 else x - d / 2)
  }

  lemma ClosestQuotient(x: nat, d: nat)
    requires d > 0
    ensures IsClosest((x + d / 2) / d, x, d)
    ensures 2 * (x - (x + d / 2) / d * d) < d
  {
    var s := x + d / 2;
    assert s == s / d * d + s % d;
  }

  /**
   The unsigned form is the closest integer, with ties upwards, exactly when the sum with half the
   divisor is a word; otherwise it is 0.
   */
  lemma ClosestUnsigned(x: Word, d: Word)
    requires d > 0
    ensures var r := DivRoundClosest(x, d);
            && (IsClosest(r, x, d) <==> x + d / 2 < WORD_SIZE)
            && (IsClosest(r, x, d) ==> 2 * (x - r * d) < d)
            && (!IsClosest(r, x, d) ==> r == 0)
  {
    if x + d / 2 < WORD_SIZE {
      ClosestQuotient(x, d);
    } else {
      DivModUnique(Add32(x, d / 2), d, 0, Add32(x, d / 2));
    }
  }

  /** Halves of odd numbers are rounded up. */
  lemma ClosestOfHalves()
    ensures DivRoundClosest(5, 2) == 3 && DivRoundClosest(1, 2) == 1
  {
  }

  /** The signed form is the closest integer exactly when its sum is an int; ties go away from zero. */
  lemma ClosestSigned(x: Int32, d: Int32)
    requires d > 0
    ensures var r := DivRoundClosestSigned(x, d);
            && (IsClosest(r, x, d) <==> ClosestFits(x, d))
            && (IsClosest(r, x, d) && 2 * (x - r * d) == d ==> x < 0)
            && (IsClosest(r, x, d) && 2 * (r * d - x) == d ==> x > 0)
  {
    if ClosestFits(x, d) {
      SignedClosest(x, d);
      ClosestQuotient(Abs(x), d);
      NegatedProduct((Abs(x) + d / 2) / d, d);
    } else {
      FarFromClosest(x, d, DivRoundClosestSigned(x, d));
    }
  }

  lemma NegatedProduct(q: int, d: int)
    ensures (-q) * d == -(q * d)
  {
  }

  /** The sum wraps: the half of INT_MAX comes out as -2^30. */
  lemma ClosestOfIntMax()
    ensures DivRoundClosestSigned(INT_MAX, 2) == -0x4000_0000 && !IsClosest(-0x4000_0000, INT_MAX, 2)
  {
    assert WrapInt(INT_MAX + TruncDiv(2, 2)) == -0x8000_0000;
  }

  /** It is odd in x. */
  lemma ClosestIsOdd(x: Int32, d: Int32)
    requires d > 0 && x > -0x8000_0000 && ClosestFits(x, d) && ClosestFits(-x, d)
    ensures DivRoundClosestSigned(-x, d) == -DivRoundClosestSigned(x, d)
  {
    SignedClosest(x, d);
    SignedClosest(-x, d);
    assert Abs(-x) == Abs(x);
  }

  lemma SignedClosest(x: Int32, d: Int32)
    requires d > 0 && ClosestFits(x, d)
    ensures DivRoundClosestSigned(x, d) == WithSign(x < 0, (Abs(x) + d / 2) / d)
    ensures x == 0 ==> DivRoundClosestSigned(x, d) == 0
  {
    assert TruncDiv(d, 2) == d / 2;
    SignedQuotient(x < 0, Abs(x) + d / 2, d);
    if x == 0 {
      DivModUnique(d / 2, d, 0, d / 2);
    }
  }

  /** A wrapped sum has the wrong sign, and so has the quotient. */
  lemma FarFromClosest(x: Int32, d: Int32, r: int)
    requires d > 0 && !ClosestFits(x, d) && r == DivRoundClosestSigned(x, d)
    ensures !IsClosest(r, x, d)
  {
    assert TruncDiv(d, 2) == d / 2;
    var s := if x > 0 then x + d / 2 else x - d / 2;
    var k := Turns(s);
    assert r == TruncDiv(WrapInt(s), d);
    QuotientSign(WrapInt(s), d);
    NotClosest(r, x, d);
  }

  lemma NotClosest(r: int, x: int, d: int)
    requires d > 0
    requires (r <= 0 && 2 * x > d) || (r >= 0 && 2 * x < -d)
    ensures !IsClosest(r, x, d)
  {
    NonzeroMultiple(r, d);
  }
}
