/**
 Unsigned machine words as natural numbers.

 `And`, `Or`, `Not`, `Shr` and `Bit` are C's operators on unsigned values of any width, defined
 bit by bit.  The lemmas relate the mask and shift idioms of the sources to plain division, for
 every exponent, so that the other modules reason in ordinary arithmetic.
 */
module Bits {

  /** A 32-bit unsigned word: `unsigned long`, `unsigned int` and `size_t` on the target. */
  type Word = x: nat | x < 0x1_0000_0000

  /** An `unsigned char`. */
  type Byte = x: nat | x < 0x100

  const WORD_SIZE: nat := 0x1_0000_0000

  /** Unsigned 32-bit arithmetic drops whatever does not fit. */
  function Wrap(x: int): Word {
    x % 0x1_0000_0000
  }

  lemma WrapIsIdentity(c: nat)
    requires c < WORD_SIZE
    ensures Wrap(c) == c
  {
  }

  function Add32(x: Word, y: Word): (r: Word)
    ensures r == if x + y < 0x1_0000_0000 then x + y else x + y - 0x1_0000_0000
  {
    Wrap(x as int + y as int)
  }

  function Mul32(x: Word, y: Word): (r: Word)
    ensures 0 <= x * y < 0x1_0000_0000 ==> r == x * y
  {
    Wrap(x as int * y as int)
  }

  function Pow2(n: nat): (r: nat)
    ensures r > 0
  {
    if n == 0 then 1 else 2 * Pow2(n - 1)
  }

  /** `x & y` */
  function And(x: nat, y: nat): nat
    decreases x, y
  {
    if x == 0 || y == 0 then 0
    else 2 * And(x / 2, y / 2) + if x % 2 == 1 && y % 2 == 1 then 1 else 0
  }

  /** `x | y` */
  function Or(x: nat, y: nat): nat
    decreases x, y
  {
    if x == 0 then y
    else if y == 0 then x
    else 2 * Or(x / 2, y / 2) + if x % 2 == 1 || y % 2 == 1 then 1 else 0
  }

  /** `~x` on a value of `n` bits */
  function Not(x: nat, n: nat): nat
    requires x < Pow2(n)
  {
    Pow2(n) - 1 - x
  }

  /** `x >> k` */
  function Shr(x: nat, k: nat): nat {
    if k == 0 then x else Shr(x / 2, k - 1)
  }

  /** The low `k` bits of `x`. */
  function Low(x: nat, k: nat): nat {
    if k == 0 then 0 else 2 * Low(x / 2, k - 1) + x % 2
  }

  predicate Bit(x: nat, k: nat) {
    Shr(x, k) % 2 == 1
  }

  // ----- shifts and remainders are division by a power of two -----

  lemma NonzeroMultiple(e: int, d: int)
    requires d > 0
    ensures e >= 1 ==> e * d >= d
    ensures e <= -1 ==> e * d <= -d
  {
    if e >= 1 {
      assert (e - 1) * d >= 0;
    } else if e <= -1 {
      assert (-e - 1) * d >= 0;
    }
  }

  lemma DivModUnique(x: int, d: int, q: int, r: int)
    requires 0 <= r < d
    requires x == q * d + r
    ensures x / d == q && x % d == r
  {
    var e := q - x / d;
    assert e * d == x % d - r by {
      assert x == (x / d) * d + x % d;
    }
    NonzeroMultiple(e, d);
  }

  lemma QuotientRange(x: nat, d: int, q: int, r: int)
    requires 0 <= r < d && x == q * d + r
    ensures 0 <= q <= x
  {
    NonzeroMultiple(q, d);
    if q > 0 {
      NonzeroMultiple(d, q);
      assert d * q == q * d;
    }
  }

  lemma QuotientAtMost(x: nat, d: nat)
    requires d > 0
    ensures 0 <= x / d <= x
  {
    QuotientRange(x, d, x / d, x % d);
  }

  lemma RemainderAtMost(x: nat, d: nat)
    requires d > 0
    ensures 0 <= x % d <= x
  {
    QuotientAtMost(x, d);
    assert x == x / d * d + x % d;
    assert x / d * d >= 0;
  }

  /** `Shr` and `Low` are the quotient and the remainder. */
  lemma {:induction false} ShrLow(x: nat, k: nat)
    ensures x == Shr(x, k) * Pow2(k) + Low(x, k)
    ensures Low(x, k) < Pow2(k)
  {
    if k == 0 {
    } else {
      ShrLow(x / 2, k - 1);
      var q, m := Shr(x / 2, k - 1), Pow2(k - 1);
      assert q * (2 * m) == 2 * (q * m);
    }
  }

  lemma ShrLowIsDivMod(x: nat, k: nat)
    ensures Shr(x, k) == x / Pow2(k)
    ensures Low(x, k) == x % Pow2(k)
  {
    ShrLow(x, k);
    DivModUnique(x, Pow2(k), Shr(x, k), Low(x, k));
  }

  lemma {:induction false} ShrSmall(x: nat, k: nat)
    requires x < Pow2(k)
    ensures Shr(x, k) == 0 && Low(x, k) == x
  {
    if k == 0 {
    } else {
      ShrSmall(x / 2, k - 1);
    }
  }

  lemma {:induction false} Pow2Add(a: nat, b: nat)
    ensures Pow2(a + b) == Pow2(a) * Pow2(b)
  {
    if a == 0 {
    } else {
      Pow2Add(a - 1, b);
      assert Pow2(a + b) == 2 * (Pow2(a - 1) * Pow2(b));
      assert 2 * (Pow2(a - 1) * Pow2(b)) == (2 * Pow2(a - 1)) * Pow2(b);
    }
  }

  lemma {:induction false} Pow2Monotonic(a: nat, b: nat)
    requires a <= b
    ensures Pow2(a) <= Pow2(b)
  {
    if a == b {
    } else {
      Pow2Monotonic(a, b - 1);
    }
  }

  lemma Pow2Values()
    ensures Pow2(5) == 0x20 && Pow2(7) == 0x80 && Pow2(8) == 0x100
    ensures Pow2(16) == 0x1_0000 && Pow2(20) == 0x10_0000
    ensures Pow2(24) == 0x100_0000 && Pow2(32) == 0x1_0000_0000
  {
    assert Pow2(4) == 16;
    assert Pow2(8) == 256;
    Pow2Add(8, 8);
    Pow2Add(16, 4);
    Pow2Add(16, 8);
    Pow2Add(16, 16);
  }

  // ----- masks -----

  lemma AndStep(x: nat, y: nat)
    ensures And(x, y) == 2 * And(x / 2, y / 2) + if x % 2 == 1 && y % 2 == 1 then 1 else 0
  {
  }

  lemma OrStep(x: nat, y: nat)
    ensures Or(x, y) == 2 * Or(x / 2, y / 2) + if x % 2 == 1 || y % 2 == 1 then 1 else 0
  {
  }

  /** Masking with `2^k - 1` keeps the low `k` bits. */
  lemma {:induction false} AndLowMask(x: nat, k: nat)
    ensures And(x, Pow2(k) - 1) == Low(x, k)
  {
    if k == 0 {
    } else {
      AndStep(x, Pow2(k) - 1);
      assert (Pow2(k) - 1) / 2 == Pow2(k - 1) - 1;
      AndLowMask(x / 2, k - 1);
    }
  }

  /** Masking with the bits k up to n keeps that field in place. */
  lemma {:induction false} AndField(x: nat, k: nat, n: nat)
    requires k <= n
    ensures Pow2(k) <= Pow2(n)
    ensures And(x, Pow2(n) - Pow2(k)) == Low(x, n) - Low(x, k)
  {
    Pow2Monotonic(k, n);
    if k == 0 {
      AndLowMask(x, n);
    } else {
      var y := Pow2(n) - Pow2(k);
      AndField(x / 2, k - 1, n - 1);
      assert y / 2 == Pow2(n - 1) - Pow2(k - 1) && y % 2 == 0;
      AndStep(x, y);
      assert And(x, y) == 2 * (Low(x / 2, n - 1) - Low(x / 2, k - 1));
    }
  }

  /** Masking with all but the low `k` bits of an `n`-bit word clears these `k` bits. */
  lemma AndHighMask(x: nat, k: nat, n: nat)
    requires k <= n && x < Pow2(n)
    ensures Pow2(k) <= Pow2(n)
    ensures And(x, Pow2(n) - Pow2(k)) == x - Low(x, k)
  {
    AndField(x, k, n);
    ShrSmall(x, n);
  }

  /** Setting the low `k` bits. */
  lemma {:induction false} OrLowMask(x: nat, k: nat)
    ensures Or(x, Pow2(k) - 1) == x - Low(x, k) + Pow2(k) - 1
  {
    if k == 0 {
    } else {
      OrStep(x, Pow2(k) - 1);
      assert (Pow2(k) - 1) / 2 == Pow2(k - 1) - 1;
      OrLowMask(x / 2, k - 1);
    }
  }

  /** On values without common bits, `|` is addition. */
  lemma {:induction false} OrDisjoint(x: nat, y: nat, k: nat)
    requires y < Pow2(k) && Low(x, k) == 0
    ensures Or(x, y) == x + y
  {
    if k == 0 {
    } else {
      OrStep(x, y);
      OrDisjoint(x / 2, y / 2, k - 1);
    }
  }

  /** The high part of an `|` is the `|` of the high parts, and so for the low parts. */
  lemma {:induction false} OrShr(x: nat, y: nat, k: nat)
    ensures Shr(Or(x, y), k) == Or(Shr(x, k), Shr(y, k))
  {
    if k == 0 {
    } else {
      OrStep(x, y);
      OrShr(x / 2, y / 2, k - 1);
    }
  }

  lemma {:induction false} OrLow(x: nat, y: nat, k: nat)
    ensures Low(Or(x, y), k) == Or(Low(x, k), Low(y, k))
  {
    if k == 0 {
    } else {
      var x', y', b, c := Low(x / 2, k - 1), Low(y / 2, k - 1), x % 2, y % 2;
      calc {
        Low(Or(x, y), k);
        { OrHalves(x, y); }
        2 * Low(Or(x / 2, y / 2), k - 1) + if b == 1 || c == 1 then 1 else 0;
        { OrLow(x / 2, y / 2, k - 1); }
        2 * Or(x', y') + if b == 1 || c == 1 then 1 else 0;
        { OrDoubled(x', b, y', c); }
        Or(2 * x' + b, 2 * y' + c);
      }
    }
  }

  lemma OrHalves(x: nat, y: nat)
    ensures Or(x, y) / 2 == Or(x / 2, y / 2)
    ensures Or(x, y) % 2 == if x % 2 == 1 || y % 2 == 1 then 1 else 0
  {
    OrStep(x, y);
  }

  lemma OrDoubled(x: nat, b: nat, y: nat, c: nat)
    requires b < 2 && c < 2
    ensures Or(2 * x + b, 2 * y + c) == 2 * Or(x, y) + if b == 1 || c == 1 then 1 else 0
  {
    OrStep(2 * x + b, 2 * y + c);
  }

  lemma {:induction false} OrAtLeast(x: nat, y: nat)
    ensures Or(x, y) >= x && Or(x, y) >= y
  {
    if x == 0 || y == 0 {
    } else {
      OrAtLeast(x / 2, y / 2);
    }
  }

  lemma {:induction false} OrBound(x: nat, y: nat, n: nat)
    requires x < Pow2(n) && y < Pow2(n)
    ensures Or(x, y) < Pow2(n)
  {
    if n == 0 || x == 0 || y == 0 {
    } else {
      OrBound(x / 2, y / 2, n - 1);
    }
  }

  lemma {:induction false} AndAtMost(x: nat, y: nat)
    ensures And(x, y) <= x && And(x, y) <= y
  {
    if x == 0 || y == 0 {
    } else {
      AndAtMost(x / 2, y / 2);
    }
  }

  // ----- single bits -----

  lemma {:induction false} BitOr(x: nat, y: nat, k: nat)
    ensures Bit(Or(x, y), k) <==> Bit(x, k) || Bit(y, k)
  {
    OrStep(x, y);
    if k == 0 {
    } else {
      BitOr(x / 2, y / 2, k - 1);
    }
  }

  lemma {:induction false} BitAnd(x: nat, y: nat, k: nat)
    ensures Bit(And(x, y), k) <==> Bit(x, k) && Bit(y, k)
  {
    AndStep(x, y);
    if k == 0 {
    } else {
      BitAnd(x / 2, y / 2, k - 1);
    }
  }

  lemma {:induction false} BitPow2(j: nat, k: nat)
    ensures Bit(Pow2(j), k) <==> j == k
  {
    if k == 0 {
    } else if j == 0 {
      BitZero(k - 1);
    } else {
      BitPow2(j - 1, k - 1);
    }
  }

  lemma {:induction false} BitZero(k: nat)
    ensures !Bit(0, k)
  {
    if k == 0 {
    } else {
      BitZero(k - 1);
    }
  }

  lemma {:induction false} BitNot(x: nat, n: nat, k: nat)
    requires k < n && x < Pow2(n)
    ensures Bit(Not(x, n), k) <==> !Bit(x, k)
  {
    if k == 0 {
    } else {
      BitNot(x / 2, n - 1, k - 1);
      assert Not(x, n) / 2 == Not(x / 2, n - 1);
    }
  }

  lemma {:induction false} BitOfLow(x: nat, k: nat, n: nat)
    requires k < n
    ensures Bit(Low(x, n), k) <==> Bit(x, k)
  {
    if k == 0 {
    } else {
      BitOfLow(x / 2, k - 1, n - 1);
    }
  }

  /** Testing one bit: `x & (1 << k)`. */
  lemma {:induction false} AndOneBit(x: nat, k: nat)
    ensures And(x, Pow2(k)) == if Bit(x, k) then Pow2(k) else 0
  {
    AndStep(x, Pow2(k));
    if k == 0 {
    } else {
      AndOneBit(x / 2, k - 1);
    }
  }

  /** Setting one bit: `x | (1 << k)`. */
  lemma {:induction false} OrOneBit(x: nat, k: nat)
    ensures Or(x, Pow2(k)) == if Bit(x, k) then x else x + Pow2(k)
  {
    OrStep(x, Pow2(k));
    if k == 0 {
    } else {
      OrOneBit(x / 2, k - 1);
    }
  }

  lemma {:induction false} OrComm(x: nat, y: nat)
    ensures Or(x, y) == Or(y, x)
  {
    if x == 0 || y == 0 {
    } else {
      OrComm(x / 2, y / 2);
    }
  }

  /** A mask and its complement split a value. */
  lemma {:induction false} AndComplement(x: nat, y: nat, n: nat)
    requires x < Pow2(n) && y < Pow2(n)
    ensures And(x, Not(y, n)) + And(x, y) == x
  {
    if n == 0 {
    } else {
      var z := Not(y, n);
      assert z / 2 == Not(y / 2, n - 1) && z % 2 == 1 - y % 2;
      AndStep(x, y);
      AndStep(x, z);
      AndComplement(x / 2, y / 2, n - 1);
    }
  }

  /** Clearing one bit of an `n`-bit value: `x & ~(1 << k)`. */
  lemma AndClearBit(x: nat, k: nat, n: nat)
    requires k < n && x < Pow2(n)
    ensures Pow2(k) < Pow2(n)
    ensures And(x, Not(Pow2(k), n)) == x - And(x, Pow2(k))
  {
    Pow2Monotonic(k + 1, n);
    AndComplement(x, Pow2(k), n);
  }
}
