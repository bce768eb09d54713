/**
 The single-word steps of the big-number library (`bn_lcl.h`), with 32-bit words.

 The header writes each step four times: with a double-width integer, with an instruction that
 yields both halves of a product, with one that yields the high half, and with half words and
 hand-made carries.  A macro that assigns its arguments becomes a method whose out-parameters are
 their new values; every method keeps the macro's assignments in order, each reduced modulo 2^32.
 Variants of one macro carry the same contract, which fixes both results (`StepIsUnique`).
 */
module BnWord {
  import opened Bits

  const BN_MASK2: Word := 0xffff_ffff
  const BN_MASK2l: Word := 0xffff
  const BN_MASK2h1: Word := 0xffff_8000

  type Half = x: nat | x < 0x1_0000

  // ----- masks and shifts -----

  /** `x & BN_MASK2` on a word. */
  function Mask2(x: Word): (r: Word)
    ensures r == x
  {
    Pow2Values();
    AndLowMask(x, 32);
    ShrSmall(x, 32);
    And(x, BN_MASK2)
  }

  /** `LBITS` */
  function LBits(a: Word): (r: Half)
    ensures r == a % 0x1_0000
  {
    Pow2Values();
    AndLowMask(a, 16);
    ShrLowIsDivMod(a, 16);
    And(a, BN_MASK2l)
  }

  /** `HBITS` */
  function HBits(a: Word): (r: Half)
    ensures r == a / 0x1_0000
  {
    Pow2Values();
    ShrLowIsDivMod(a, 16);
    AndLowMask(Shr(a, 16), 16);
    ShrSmall(Shr(a, 16), 16);
    And(Shr(a, 16), BN_MASK2l)
  }

  /** `L2HBITS` */
  function L2HBits(a: Word): (r: Word)
    ensures r == (a % 0x1_0000) * 0x1_0000
  {
    Mask2(Wrap(a * 0x1_0000))
  }

  /** `Lw`: the low word of a double-width value */
  function Lw(t: nat): (r: Word)
    ensures r == t % WORD_SIZE
  {
    Mask2(Wrap(t))
  }

  /** `Hw`: the high word of a double-width value */
  function Hw(t: nat): (r: Word)
    requires t < WORD_SIZE * WORD_SIZE
    ensures r == t / WORD_SIZE
  {
    Pow2Values();
    ShrLowIsDivMod(t, 32);
    Mask2(Wrap(Shr(t, 32)))
  }

  /** Arithmetic of the 64-bit type `BN_ULLONG`. */
  function Wrap64(x: nat): (r: nat)
    ensures x < WORD_SIZE * WORD_SIZE ==> r == x
  {
    x % (WORD_SIZE * WORD_SIZE)
  }

  // ----- the two results of a step -----

  lemma ProductMonotonic(x: nat, y: nat, x': nat, y': nat)
    requires x <= x' && y <= y'
    ensures x * y <= x' * y'
  {
    assert x * y <= x * y';
    assert x * y' <= x' * y';
  }

  lemma ProductBound(x: nat, y: nat, max: nat)
    requires x <= max && y <= max
    ensures 0 <= x * y <= max * max
  {
    ProductMonotonic(x, y, max, max);
  }

  /** The equation that every step establishes has one solution in words. */
  lemma StepIsUnique(total: nat, lo: Word, hi: Word, lo': Word, hi': Word)
    requires hi * WORD_SIZE + lo == total
    requires hi' * WORD_SIZE + lo' == total
    ensures lo == lo' && hi == hi'
    ensures lo == total % WORD_SIZE && hi == total / WORD_SIZE
  {
  }

  /** No product with two added words exceeds a double word, and one of them reaches its maximum. */
  lemma StepFits(a: Word, w: Word, r: Word, c: Word)
    ensures a * w + r + c < WORD_SIZE * WORD_SIZE
    ensures a * w + r + c == WORD_SIZE * WORD_SIZE - 1
       <==> a == BN_MASK2 && w == BN_MASK2 && r == BN_MASK2 && c == BN_MASK2
  {
    ProductBound(a, w, BN_MASK2);
    if a < BN_MASK2 {
      ProductMonotonic(a, w, BN_MASK2 - 1, BN_MASK2);
    } else if w < BN_MASK2 {
      ProductMonotonic(a, w, BN_MASK2, BN_MASK2 - 1);
    }
  }

  /** `BN_UMULT_LOHI` and `BN_UMULT_HIGH`: the two halves of a product */
  function UmultLow(a: Word, b: Word): Word {
    Mul32(a, b)
  }

  function UmultHigh(a: Word, b: Word): (r: Word)
    ensures r * WORD_SIZE + UmultLow(a, b) == a * b
    ensures r <= BN_MASK2 - 1
  {
    ProductBound(a, b, BN_MASK2);
    HighWord(a * b);
    a * b / WORD_SIZE
  }

  lemma HighWord(p: nat)
    requires p <= BN_MASK2 * BN_MASK2
    ensures 0 <= p / WORD_SIZE <= BN_MASK2 - 1
    ensures p / WORD_SIZE * WORD_SIZE + Wrap(p) == p
  {
  }

  // ----- using the long long type -----

  method MulAddWide(r: Word, a: Word, w: Word, c: Word) returns (r': Word, c': Word)
    ensures c' * WORD_SIZE + r' == a * w + r + c
  {
    StepFits(a, w, r, c);
    var t := Wrap64(w * a + r + c);
    r' := Lw(t);
    c' := Hw(t);
  }

  method MulWide(a: Word, w: Word, c: Word) returns (r': Word, c': Word)
    ensures c' * WORD_SIZE + r' == a * w + c
  {
    StepFits(a, w, 0, c);
    var t := Wrap64(w * a + c);
    assert t == a * w + c;
    r' := Lw(t);
    c' := Hw(t);
  }

  method SqrWide(a: Word) returns (r0: Word, r1: Word)
    ensures r1 * WORD_SIZE + r0 == a * a
  {
    StepFits(a, a, 0, 0);
    var t := Wrap64(a * a);
    r0 := Lw(t);
    r1 := Hw(t);
  }

  // ----- using both halves of a product -----

  method MulAddLoHi(r: Word, a: Word, w: Word, c: Word) returns (r': Word, c': Word)
    ensures c' * WORD_SIZE + r' == a * w + r + c
  {
    StepFits(a, w, r, c);
    var tmp, ret := a, r;
    var low, high := UmultLow(w, tmp), UmultHigh(w, tmp);
    ret := Add32(ret, c);
    c' := if ret < c then 1 else 0;
    c' := Add32(c', high);
    ret := Add32(ret, low);
    c' := Add32(c', if ret < low then 1 else 0);
    r' := ret;
  }

  method MulLoHi(a: Word, w: Word, c: Word) returns (r': Word, c': Word)
    ensures c' * WORD_SIZE + r' == a * w + c
  {
    StepFits(a, w, 0, c);
    var ta := a;
    var low, high := UmultLow(w, ta), UmultHigh(w, ta);
    var ret := Add32(low, c);
    c' := high;
    c' := Add32(c', if ret < low then 1 else 0);
    r' := ret;
  }

  method SqrLoHi(a: Word) returns (r0: Word, r1: Word)
    ensures r1 * WORD_SIZE + r0 == a * a
  {
    var tmp := a;
    r0, r1 := UmultLow(tmp, tmp), UmultHigh(tmp, tmp);
  }

  // ----- using the high half of a product -----

  method MulAddHigh(r: Word, a: Word, w: Word, c: Word) returns (r': Word, c': Word)
    ensures c' * WORD_SIZE + r' == a * w + r + c
  {
    StepFits(a, w, r, c);
    var tmp, ret := a, r;
    var high := UmultHigh(w, tmp);
    ret := Add32(ret, c);
    var low := Mul32(w, tmp);
    c' := if ret < c then 1 else 0;
    c' := Add32(c', high);
    ret := Add32(ret, low);
    c' := Add32(c', if ret < low then 1 else 0);
    r' := ret;
  }

  method MulHigh(a: Word, w: Word, c: Word) returns (r': Word, c': Word)
    ensures c' * WORD_SIZE + r' == a * w + c
  {
    StepFits(a, w, 0, c);
    var ta := a;
    var low := Mul32(w, ta);
    var high := UmultHigh(w, ta);
    var ret := Add32(low, c);
    c' := high;
    c' := Add32(c', if ret < low then 1 else 0);
    r' := ret;
  }

  method SqrHigh(a: Word) returns (r0: Word, r1: Word)
    ensures r1 * WORD_SIZE + r0 == a * a
  {
    var tmp := a;
    r0 := Mul32(tmp, tmp);
    r1 := UmultHigh(tmp, tmp);
  }

  // ----- no double-width type: half words -----

  /** The word with low half `l` and high half `h`. */
  function FromHalves(l: Half, h: Half): Word {
    h * 0x1_0000 + l
  }

  /** Schoolbook multiplication of two-digit numbers; no partial product wraps. */
  lemma HalfProduct(l: Half, h: Half, bl: Half, bh: Half)
    ensures FromHalves(l, h) * FromHalves(bl, bh)
         == Mul32(bh, h) * WORD_SIZE + (Mul32(bh, l) + Mul32(bl, h)) * 0x1_0000 + Mul32(bl, l)
    ensures Mul32(bh, h) <= 0xfffe_0001
    ensures FromHalves(l, h) * FromHalves(bl, bh) < WORD_SIZE * WORD_SIZE
  {
    PartialProduct(bh, h);
    PartialProduct(bh, l);
    PartialProduct(bl, h);
    PartialProduct(bl, l);
    StepFits(FromHalves(l, h), FromHalves(bl, bh), 0, 0);
    calc {
      FromHalves(l, h) * FromHalves(bl, bh);
      (h * 0x1_0000 + l) * (bh * 0x1_0000 + bl);
      (h * 0x1_0000) * (bh * 0x1_0000 + bl) + l * (bh * 0x1_0000 + bl);
      (bh * h) * WORD_SIZE + (bh * l + bl * h) * 0x1_0000 + bl * l;
    }
  }

  lemma PartialProduct(x: Half, y: Half)
    ensures Mul32(x, y) == x * y <= 0xfffe_0001
  {
    ProductBound(x, y, 0xffff);
  }

  /**
   The two middle products are added modulo 2^32 with their carry counted at bit 48; adding
   the halves of that sum to the outer products then carries at most once more.
   */
  lemma Mul64Carries(p0: Word, p1: Word, p2: Word, p3: Word, m: Word)
    requires p3 <= 0xfffe_0001
    requires p3 * WORD_SIZE + (p1 + p2) * 0x1_0000 + p0 < WORD_SIZE * WORD_SIZE
    requires m == Add32(p1, p2)
    ensures var ht := p3 + if m < p2 then 0x1_0000 else 0;
            var m1 := L2HBits(m);
            var lt := Add32(p0, m1);
            && ht < WORD_SIZE
            && var h' := ht + HBits(m) + if lt < m1 then 1 else 0;
               && h' < WORD_SIZE
               && h' * WORD_SIZE + lt == p3 * WORD_SIZE + (p1 + p2) * 0x1_0000 + p0
  {
  }

  /** `mul64`: (l, h) are the halves of one operand on entry and the two product words on exit. */
  method Mul64(l: Half, h: Half, bl: Half, bh: Half) returns (l': Word, h': Word)
    ensures h' * WORD_SIZE + l' == FromHalves(l, h) * FromHalves(bl, bh)
  {
    HalfProduct(l, h, bl, bh);
    var m := Mul32(bh, l);
    var lt := Mul32(bl, l);
    var m1 := Mul32(bl, h);
    var ht := Mul32(bh, h);
    Mul64Carries(lt, m, m1, ht, Add32(m, m1));
    m := Mask2(Add32(m, m1));
    if m < m1 {
      ht := Add32(ht, L2HBits(1));
    }
    ht := Add32(ht, HBits(m));
    m1 := L2HBits(m);
    lt := Mask2(Add32(lt, m1));
    if lt < m1 {
      ht := Add32(ht, 1);
    }
    l' := lt;
    h' := ht;
  }

  /** `sqr64` */
  method Sqr64(a: Word) returns (lo: Word, ho: Word)
    ensures ho * WORD_SIZE + lo == a * a
  {
    var h: Word := a;
    var l: Word := LBits(h);
    h := HBits(h);
    assert a == FromHalves(l, h);
    SquareParts(l, h);
    var m := Mul32(l, h);
    l := Mul32(l, l);
    h := Mul32(h, h);
    SquareCarries(l, m, h);
    CrossTerm(m);
    h := Add32(h, Shr(And(m, BN_MASK2h1), 15));
    m := Wrap(And(m, BN_MASK2l) * 0x2_0000);
    l := Mask2(Add32(l, m));
    if l < m {
      h := Add32(h, 1);
    }
    lo := l;
    ho := h;
  }

  lemma SquareParts(l: Half, h: Half)
    ensures FromHalves(l, h) * FromHalves(l, h)
         == Mul32(h, h) * WORD_SIZE + 2 * Mul32(l, h) * 0x1_0000 + Mul32(l, l)
    ensures FromHalves(l, h) * FromHalves(l, h) < WORD_SIZE * WORD_SIZE
  {
    HalfProduct(l, h, l, h);
    PartialProduct(h, l);
    PartialProduct(l, h);
    assert l * h == h * l;
  }

  /**
   The doubled cross term 2 * m * 2^16 splits at bit 32: its high word is the top 17 bits of m,
   and shifting the low half of m by 17 drops the bit that went there.
   */
  lemma CrossTerm(m: Word)
    ensures Shr(And(m, BN_MASK2h1), 15) == m / 0x8000
    ensures Wrap(And(m, BN_MASK2l) * 0x2_0000) == (m % 0x8000) * 0x2_0000
  {
    CrossTermHigh(m);
    CrossTermLow(m);
  }

  lemma CrossTermHigh(m: Word)
    ensures Shr(And(m, BN_MASK2h1), 15) == m / 0x8000
  {
    Pow2Values();
    assert Pow2(15) == 0x8000 by { assert Pow2(16) == 2 * Pow2(15); }
    AndHighMask(m, 15, 32);
    ShrLowIsDivMod(m, 15);
    var top := m - m % 0x8000;
    assert And(m, BN_MASK2h1) == top;
    ShrLowIsDivMod(top, 15);
  }

  lemma CrossTermLow(m: Word)
    ensures Wrap(And(m, BN_MASK2l) * 0x2_0000) == (m % 0x8000) * 0x2_0000
  {
    Pow2Values();
    AndLowMask(m, 16);
    ShrLowIsDivMod(m, 16);
    ShiftedLow(m, And(m, BN_MASK2l));
  }

  /** Bit 15 of the low half moves past bit 31 and is dropped. */
  lemma ShiftedLow(m: Word, low: nat)
    requires low == m % 0x1_0000
    ensures Wrap(low * 0x2_0000) == (m % 0x8000) * 0x2_0000
  {
    Low15(m, low);
    ShiftOut(low / 0x8000, low % 0x8000, low);
  }

  lemma Low15(m: Word, low: nat)
    requires low == m % 0x1_0000
    ensures low % 0x8000 == m % 0x8000
  {
    var n := m / 0x1_0000;
    DivModUnique(m, 0x8000, 2 * n + low / 0x8000, low % 0x8000);
  }

  lemma ShiftOut(e: int, t: int, low: int)
    requires low == e * 0x8000 + t && 0 <= t < 0x8000
    ensures Wrap(low * 0x2_0000) == t * 0x2_0000
  {
    DivModUnique(low * 0x2_0000, WORD_SIZE, e, t * 0x2_0000);
  }

  lemma SquareCarries(l: Word, m: Word, h: Word)
    requires h * WORD_SIZE + 2 * m * 0x1_0000 + l < WORD_SIZE * WORD_SIZE
    ensures var m' := (m % 0x8000) * 0x2_0000;
            var l' := Add32(l, m');
            var h' := h + m / 0x8000 + if l' < m' then 1 else 0;
            && h' < WORD_SIZE
            && h' * WORD_SIZE + l' == h * WORD_SIZE + 2 * m * 0x1_0000 + l
  {
  }

  /** `mul_add` with the multiplier given by its halves */
  method MulAddHalves(r: Word, a: Word, bl: Half, bh: Half, c: Word) returns (r': Word, c': Word)
    ensures c' * WORD_SIZE + r' == a * FromHalves(bl, bh) + r + c
  {
    var h: Word := a;
    var l: Word := LBits(h);
    h := HBits(h);
    l, h := Mul64(l, h, bl, bh);
    StepFits(a, FromHalves(bl, bh), r, c);
    l := Mask2(Add32(l, c));
    if l < c {
      h := Add32(h, 1);
    }
    c' := r;
    l := Mask2(Add32(l, c'));
    if l < c' {
      h := Add32(h, 1);
    }
    c' := Mask2(h);
    r' := l;
  }

  /** `mul` with the multiplier given by its halves */
  method MulHalves(a: Word, bl: Half, bh: Half, c: Word) returns (r': Word, c': Word)
    ensures c' * WORD_SIZE + r' == a * FromHalves(bl, bh) + c
  {
    var h: Word := a;
    var l: Word := LBits(h);
    h := HBits(h);
    l, h := Mul64(l, h, bl, bh);
    StepFits(a, FromHalves(bl, bh), 0, c);
    l := Add32(l, c);
    if Mask2(l) < c {
      h := Add32(h, 1);
    }
    c' := Mask2(h);
    r' := Mask2(l);
  }

  // ----- the forms agree -----

  /** All four `mul_add` forms on the same operands */
  method MulAddFormsAgree(r: Word, a: Word, w: Word, c: Word)
    returns (wide: (Word, Word), loHi: (Word, Word), high: (Word, Word), halves: (Word, Word))
    ensures wide == loHi == high == halves
    ensures wide.1 * WORD_SIZE + wide.0 == a * w + r + c
  {
    var r0, c0 := MulAddWide(r, a, w, c);
    var r1, c1 := MulAddLoHi(r, a, w, c);
    var r2, c2 := MulAddHigh(r, a, w, c);
    assert w == FromHalves(LBits(w), HBits(w));
    var r3, c3 := MulAddHalves(r, a, LBits(w), HBits(w), c);
    StepIsUnique(a * w + r + c, r0, c0, r1, c1);
    StepIsUnique(a * w + r + c, r0, c0, r2, c2);
    StepIsUnique(a * w + r + c, r0, c0, r3, c3);
    return (r0, c0), (r1, c1), (r2, c2), (r3, c3);
  }

  /** All four `mul` forms on the same operands */
  method MulFormsAgree(a: Word, w: Word, c: Word)
    returns (wide: (Word, Word), loHi: (Word, Word), high: (Word, Word), halves: (Word, Word))
    ensures wide == loHi == high == halves
    ensures wide.1 * WORD_SIZE + wide.0 == a * w + c
  {
    var r0, c0 := MulWide(a, w, c);
    var r1, c1 := MulLoHi(a, w, c);
    var r2, c2 := MulHigh(a, w, c);
    assert w == FromHalves(LBits(w), HBits(w));
    var r3, c3 := MulHalves(a, LBits(w), HBits(w), c);
    StepIsUnique(a * w + c, r0, c0, r1, c1);
    StepIsUnique(a * w + c, r0, c0, r2, c2);
    StepIsUnique(a * w + c, r0, c0, r3, c3);
    return (r0, c0), (r1, c1), (r2, c2), (r3, c3);
  }

  /** The three `sqr` macros, `sqr64`, and `mul64` on equal operands */
  method SqrFormsAgree(a: Word)
    returns (wide: (Word, Word), loHi: (Word, Word), high: (Word, Word), portable: (Word, Word), product: (Word, Word))
    ensures wide == loHi == high == portable == product
    ensures wide.1 * WORD_SIZE + wide.0 == a * a
  {
    var lo0, hi0 := SqrWide(a);
    var lo1, hi1 := SqrLoHi(a);
    var lo2, hi2 := SqrHigh(a);
    var lo3, hi3 := Sqr64(a);
    assert a == FromHalves(LBits(a), HBits(a));
    var lo4, hi4 := Mul64(LBits(a), HBits(a), LBits(a), HBits(a));
    StepIsUnique(a * a, lo0, hi0, lo1, hi1);
    StepIsUnique(a * a, lo0, hi0, lo2, hi2);
    StepIsUnique(a * a, lo0, hi0, lo3, hi3);
    StepIsUnique(a * a, lo0, hi0, lo4, hi4);
    return (lo0, hi0), (lo1, hi1), (lo2, hi2), (lo3, hi3), (lo4, hi4);
  }
}
