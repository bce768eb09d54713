/**
 The rounding idioms of `linux/kernel.h` and `cache_align.h` in unsigned 32-bit arithmetic, for
 every power of two, and the placement of an aligned buffer on the stack.
 */
module Align {
  import opened Bits

  // ----- the macros -----

  /** `ROUND(a, b)`: `((a) + (b) - 1) & ~((b) - 1)` */
  function Round(a: Word, b: Word): nat
    requires b > 0
  {
    And(Sub32(Add32(a, b), 1), Not32(Sub32(b, 1)))
  }

  /** `ALIGN(x, a)`: `(x + mask) & ~mask` with mask `a - 1` */
  function AlignUp(x: Word, a: Word): nat
    requires a > 0
  {
    And(Add32(x, Sub32(a, 1)), Not32(Sub32(a, 1)))
  }

  /** `round_up(x, y)`: `((x - 1) | (y - 1)) + 1` */
  function RoundUpMask(x: Word, y: Word): Word
    requires y > 0
  {
    OrIsWord(Sub32(x, 1), Sub32(y, 1));
    Add32(Or(Sub32(x, 1), Sub32(y, 1)), 1)
  }

  /** `round_down(x, y)`: `x & ~(y - 1)` */
  function RoundDownMask(x: Word, y: Word): nat
    requires y > 0
  {
    And(x, Not32(Sub32(y, 1)))
  }

  /** `DIV_ROUND_UP(n, d)`: `(n + d - 1) / d` */
  function DivRoundUp(n: Word, d: Word): int
    requires d > 0
  {
    Sub32(Add32(n, d), 1) / d
  }

  /** `roundup(x, y)`: `((x + (y - 1)) / y) * y` */
  function RoundUp(x: Word, y: Word): Word
    requires y > 0
  {
    Wrap(Add32(x, Sub32(y, 1)) / y * y)
  }

  /** `rounddown(x, y)`: `x - x % y` */
  function RoundDown(x: Word, y: Word): Word
    requires y > 0
  {
    Sub32(x, x % y)
  }

  // ----- 32-bit operators -----

  function Sub32(x: Word, y: Word): (r: Word)
    ensures r == if y <= x then x - y else x - y + 0x1_0000_0000
  {
    Wrap(x as int - y as int)
  }

  function Not32(x: Word): Word {
    Pow2Values();
    Not(x, 32)
  }

  lemma OrIsWord(x: Word, y: Word)
    ensures Or(x, y) < WORD_SIZE
  {
    Pow2Values();
    OrBound(x, y, 32);
  }

  // ----- what rounding means -----

  predicate IsMultiple(x: nat, y: nat)
    requires y > 0
  {
    x % y == 0
  }

  /** r is the least multiple of y that is not below x. */
  ghost predicate IsRoundedUp(r: nat, x: nat, y: nat)
    requires y > 0
  {
    && IsMultiple(r, y) && x <= r
    && forall m: nat :: IsMultiple(m, y) && x <= m ==> r <= m
  }

  /** r is the greatest multiple of y that is not above x. */
  ghost predicate IsRoundedDown(r: nat, x: nat, y: nat)
    requires y > 0
  {
    && IsMultiple(r, y) && r <= x
    && forall m: nat :: IsMultiple(m, y) && m <= x ==> m <= r
  }

  function Floor(x: nat, y: nat): nat
    requires y > 0
  {
    RemainderAtMost(x, y);
    x - x % y
  }

  function Ceiling(x: nat, y: nat): nat
    requires y > 0
  {
    Floor(x + y - 1, y)
  }

  /** Different multiples are at least y apart. */
  lemma MultipleGap(r: nat, m: nat, y: nat)
    requires y > 0 && IsMultiple(r, y) && IsMultiple(m, y) && r < m
    ensures r + y <= m
  {
    var e := m / y - r / y;
    assert e * y == m - r;
    NonzeroMultiple(e, y);
  }

  lemma MultipleOf(x: nat, q: int, y: nat)
    requires y > 0 && x == q * y
    ensures IsMultiple(x, y)
  {
    DivModUnique(x, y, q, 0);
  }

  lemma FloorIsMultiple(x: nat, y: nat)
    requires y > 0
    ensures IsMultiple(Floor(x, y), y)
    ensures Floor(x, y) == x / y * y
  {
    assert Floor(x, y) == x / y * y;
    MultipleOf(Floor(x, y), x / y, y);
  }

  /** A multiple within one step of x is the rounded value. */
  lemma WithinAStep(r: nat, x: nat, y: nat)
    requires y > 0 && IsMultiple(r, y)
    ensures x <= r < x + y ==> IsRoundedUp(r, x, y)
    ensures x - y < r <= x ==> IsRoundedDown(r, x, y)
  {
    forall m: nat | IsMultiple(m, y)
      ensures x <= r < x + y && x <= m ==> r <= m
      ensures x - y < r <= x && m <= x ==> m <= r
    {
      if m < r {
        MultipleGap(m, r, y);
      } else if r < m {
        MultipleGap(r, m, y);
      }
    }
  }

  lemma CeilingRange(x: nat, y: nat)
    requires y > 0
    ensures IsMultiple(Ceiling(x, y), y) && x <= Ceiling(x, y) < x + y
  {
    FloorIsMultiple(x + y - 1, y);
  }

  lemma FloorAndCeiling(x: nat, y: nat)
    requires y > 0
    ensures IsRoundedDown(Floor(x, y), x, y)
    ensures IsRoundedUp(Ceiling(x, y), x, y)
  {
    FloorIsMultiple(x, y);
    WithinAStep(Floor(x, y), x, y);
    CeilingRange(x, y);
    WithinAStep(Ceiling(x, y), x, y);
  }

  lemma RoundedUpIsUnique(r: nat, x: nat, y: nat)
    requires y > 0
    ensures IsRoundedUp(r, x, y) <==> r == Ceiling(x, y)
  {
    FloorAndCeiling(x, y);
  }

  // ----- the division forms -----

  /** `roundup` and `DIV_ROUND_UP` are right exactly when their sum does not wrap; `rounddown` always is. */
  lemma DivisionForms(x: Word, y: Word)
    requires y > 0
    ensures IsRoundedDown(RoundDown(x, y), x, y)
    ensures IsRoundedUp(RoundUp(x, y), x, y) <==> x + (y - 1) < WORD_SIZE
    ensures DivRoundUp(x, y) * y == Ceiling(x, y) <==> x + (y - 1) < WORD_SIZE
  {
    FloorAndCeiling(x, y);
    RoundedUpIsUnique(RoundUp(x, y), x, y);
    RoundUpIsFloorOfSum(x, y);
    DivRoundUpIsFloorOfSum(x, y);
    WrappedSum(x, y);
  }

  lemma RoundUpIsFloorOfSum(x: Word, y: Word)
    requires y > 0
    ensures RoundUp(x, y) == Floor(Sub32(Add32(x, y), 1), y)
  {
    var sum: Word := Add32(x, Sub32(y, 1));
    assert sum == Sub32(Add32(x, y), 1);
    FloorIsMultiple(sum, y);
    WrapIsIdentity(Floor(sum, y));
  }

  lemma DivRoundUpIsFloorOfSum(x: Word, y: Word)
    requires y > 0
    ensures DivRoundUp(x, y) * y == Floor(Sub32(Add32(x, y), 1), y)
  {
    FloorIsMultiple(Sub32(Add32(x, y), 1), y);
  }

  lemma WrappedSum(x: Word, y: Word)
    requires y > 0
    ensures Floor(Sub32(Add32(x, y), 1), y) == Ceiling(x, y) <==> x + (y - 1) < WORD_SIZE
  {
    CeilingRange(x, y);
  }

  // ----- the mask forms -----

  /** Masks of a power of two round down. */
  lemma MaskRoundsDown(x: Word, k: nat)
    requires k < 32
    ensures Pow2(k) < WORD_SIZE
    ensures RoundDownMask(x, Pow2(k)) == Floor(x, Pow2(k)) == RoundDown(x, Pow2(k))
  {
    Pow2Values();
    Pow2Monotonic(k, 31);
    var y: Word := Pow2(k);
    assert Not32(Sub32(y, 1)) == Pow2(32) - y;
    AndHighMask(x, k, 32);
    ShrLowIsDivMod(x, k);
  }

  /** 2^32 is a multiple of every smaller power of two, so rounding up stops there at the latest. */
  lemma CeilingFits(x: Word, k: nat)
    requires k < 32
    ensures 0 < Pow2(k) < WORD_SIZE
    ensures Ceiling(x, Pow2(k)) <= WORD_SIZE
    ensures x > WORD_SIZE - Pow2(k) <==> Ceiling(x, Pow2(k)) == WORD_SIZE
  {
    Pow2Values();
    Pow2Monotonic(k, 31);
    Pow2Add(32 - k, k);
    MultipleOf(WORD_SIZE, Pow2(32 - k), Pow2(k));
    CeilingBelowMultiple(x, Pow2(k));
  }

  lemma CeilingBelowMultiple(x: Word, y: nat)
    requires y > 0 && IsMultiple(WORD_SIZE, y)
    ensures Ceiling(x, y) <= WORD_SIZE
    ensures x > WORD_SIZE - y <==> Ceiling(x, y) == WORD_SIZE
  {
    CeilingRange(x, y);
    if Ceiling(x, y) < WORD_SIZE {
      MultipleGap(Ceiling(x, y), WORD_SIZE, y);
    } else if WORD_SIZE < Ceiling(x, y) {
      MultipleGap(WORD_SIZE, Ceiling(x, y), y);
    }
  }

  /** Rounding the wrapped sum down is rounding up, cut to 32 bits. */
  lemma FloorOfSum(x: Word, y: Word, sum: Word)
    requires y > 0 && sum == Sub32(Add32(x, y), 1)
    requires x > WORD_SIZE - y ==> Ceiling(x, y) == WORD_SIZE
    ensures Floor(sum, y) == Wrap(Ceiling(x, y))
  {
    if x > WORD_SIZE - y {
      DivModUnique(sum, y, 0, sum);
    } else {
      assert sum == x + y - 1;
      RemainderAtMost(sum, y);
    }
  }

  lemma OrMask(p: Word, y: Word, k: nat)
    requires y == Pow2(k)
    ensures y > 0
    ensures Or(p, Sub32(y, 1)) == p - p % y + y - 1 < WORD_SIZE
  {
    OrLowMask(p, k);
    ShrLowIsDivMod(p, k);
    OrIsWord(p, y - 1);
  }

  lemma OrMaskRoundsUp(x: Word, k: nat)
    requires k < 32
    ensures 0 < Pow2(k) < WORD_SIZE
    ensures RoundUpMask(x, Pow2(k)) == Wrap(Ceiling(x, Pow2(k)))
  {
    CeilingFits(x, k);
    var y: Word := Pow2(k);
    OrMask(Sub32(x, 1), y, k);
    OrMaskIsSum(x, y, Or(Sub32(x, 1), Sub32(y, 1)));
  }

  lemma OrMaskIsSum(x: Word, y: Word, masked: nat)
    requires y > 0 && masked < WORD_SIZE
    requires masked == Sub32(x, 1) - Sub32(x, 1) % y + y - 1
    requires x > WORD_SIZE - y ==> Ceiling(x, y) == WORD_SIZE
    ensures Add32(masked, 1) == Wrap(Ceiling(x, y))
  {
    if x == 0 {
      DivModUnique(y - 1, y, 0, y - 1);
    } else {
      RemainderShift(x - 1, y);
      assert Ceiling(x, y) == masked + 1;
    }
  }

  lemma RemainderShift(x: nat, y: nat)
    requires y > 0
    ensures (x + y) % y == x % y
  {
    var q, r := x / y, x % y;
    assert (q + 1) * y + r == x + y;
    DivModUnique(x + y, y, q + 1, r);
  }

  /**
   For every power of two y and every word x, the three mask forms and the division form all
   compute the least multiple of y not below x, cut to 32 bits.
   */
  lemma RoundingFormsAgree(x: Word, k: nat)
    requires k < 32
    ensures 0 < Pow2(k) < WORD_SIZE
    ensures Round(x, Pow2(k)) == Wrap(Ceiling(x, Pow2(k)))
    ensures AlignUp(x, Pow2(k)) == Wrap(Ceiling(x, Pow2(k)))
    ensures RoundUpMask(x, Pow2(k)) == Wrap(Ceiling(x, Pow2(k)))
    ensures RoundUp(x, Pow2(k)) == Wrap(Ceiling(x, Pow2(k)))
  {
    OrMaskRoundsUp(x, k);
    var y: Word := Pow2(k);
    var sum: Word := Sub32(Add32(x, y), 1);
    assert sum == Add32(x, Sub32(y, 1));
    CeilingFits(x, k);
    FloorOfSum(x, y, sum);
    MaskRoundsDown(sum, k);
    RoundUpIsFloorOfSum(x, y);
  }

  /** They round up exactly where the rounded value is a word. */
  lemma RoundsUpExactly(x: Word, k: nat)
    requires k < 32
    ensures 0 < Pow2(k) < WORD_SIZE
    ensures IsRoundedUp(Round(x, Pow2(k)), x, Pow2(k)) <==> x <= WORD_SIZE - Pow2(k)
    ensures IsRoundedUp(AlignUp(x, Pow2(k)), x, Pow2(k)) <==> x <= WORD_SIZE - Pow2(k)
    ensures IsRoundedUp(RoundUpMask(x, Pow2(k)), x, Pow2(k)) <==> x <= WORD_SIZE - Pow2(k)
  {
    RoundingFormsAgree(x, k);
    CeilingFits(x, k);
    CutCeiling(x, Pow2(k));
  }

  /** Rounding the largest word up to an even one gives 0 in every form. */
  lemma LargestWordWraps()
    ensures var x: Word := 0xffff_ffff; Round(x, 2) == AlignUp(x, 2) == RoundUpMask(x, 2) == RoundUp(x, 2) == 0
  {
    assert Pow2(1) == 2;
    RoundingFormsAgree(0xffff_ffff, 1);
    CeilingFits(0xffff_ffff, 1);
  }

  lemma RoundingFits(x: Word, k: nat)
    requires k < 32 && x <= WORD_SIZE - Pow2(k)
    ensures 0 < Pow2(k) < WORD_SIZE
    ensures Round(x, Pow2(k)) == AlignUp(x, Pow2(k)) == Ceiling(x, Pow2(k))
  {
    RoundingFormsAgree(x, k);
    CeilingFits(x, k);
    WrapIsIdentity(Ceiling(x, Pow2(k)));
  }

  lemma CutCeiling(x: Word, y: nat)
    requires y > 0 && Ceiling(x, y) <= WORD_SIZE
    requires x > WORD_SIZE - y <==> Ceiling(x, y) == WORD_SIZE
    ensures IsRoundedUp(Wrap(Ceiling(x, y)), x, y) <==> x <= WORD_SIZE - y
  {
    RoundedUpIsUnique(Wrap(Ceiling(x, y)), x, y);
  }

  /** The mask forms for any mask, bit by bit. */
  lemma MaskFormsByBits(x: Word, y: Word, k: nat)
    requires y > 0 && k < 32
    ensures Bit(RoundDownMask(x, y), k) <==> Bit(x, k) && !Bit(y - 1, k)
    ensures Bit(AlignUp(x, y), k) <==> Bit(Add32(x, y - 1), k) && !Bit(y - 1, k)
    ensures Bit(Round(x, y), k) <==> Bit(Add32(x, y - 1), k) && !Bit(y - 1, k)
    ensures Bit(Sub32(RoundUpMask(x, y), 1), k) <==> Bit(Sub32(x, 1), k) || Bit(y - 1, k)
  {
    Pow2Values();
    var m: Word := y - 1;
    assert Sub32(y, 1) == m && Sub32(Add32(x, y), 1) == Add32(x, m);
    BitNot(m, 32, k);
    BitAnd(x, Not32(m), k);
    BitAnd(Add32(x, m), Not32(m), k);
    BitOr(Sub32(x, 1), m, k);
    OrIsWord(Sub32(x, 1), m);
  }

  // ----- the aligned stack buffer -----

  /** `PAD_COUNT(s, pad)`: `((s) - 1) / (pad) + 1` */
  function PadCount(s: Word, pad: Word): Word
    requires pad > 0
  {
    Wrap(Sub32(s, 1) / pad + 1)
  }

  /** `PAD_SIZE(s, pad)` */
  function PadSize(s: Word, pad: Word): Word
    requires pad > 0
  {
    Wrap(PadCount(s, pad) * pad)
  }

  lemma CeilingOfPositive(s: nat, pad: nat)
    requires s > 0 && pad > 0
    ensures Ceiling(s, pad) == ((s - 1) / pad + 1) * pad
  {
    var q, r := (s - 1) / pad, (s - 1) % pad;
    RemainderShift(s - 1, pad);
    assert s - 1 == q * pad + r;
    assert (q + 1) * pad == q * pad + pad;
  }

  /** Padding rounds up to a multiple of the pad, cut to 32 bits. */
  lemma PadSizeIsCeiling(s: Word, pad: Word)
    requires s > 0 && pad > 0
    ensures PadSize(s, pad) == Wrap(Ceiling(s, pad))
  {
    CeilingOfPositive(s, pad);
    var q := (s - 1) / pad + 1;
    QuotientAtMost(s - 1, pad);
    assert PadCount(s, pad) == q;
  }

  /**
   `ALLOC_ALIGN_BUFFER_PAD`: `raw` bytes are declared at `base` and `name` points into them.  For
   every power-of-two alignment the pointer is aligned, its region of `n` bytes is inside the raw
   array, a multiple of the alignment, and holds the padded elements.
   */
  lemma AlignedBuffer(base: Word, bytes: Word, k: nat, pad: Word)
    requires k < 32 && bytes > 0 && pad > 0
    requires Ceiling(bytes, pad) <= WORD_SIZE - Pow2(k)
    requires base + Ceiling(Ceiling(bytes, pad), Pow2(k)) + (Pow2(k) - 1) <= WORD_SIZE
    ensures 0 < Pow2(k) < WORD_SIZE
    ensures var align := Pow2(k);
            var n := Round(PadSize(bytes, pad), align);
            var raw := n + (align - 1);
            var name := AlignUp(base, align);
            && IsMultiple(name, align)
            && base <= name && name + n <= base + raw
            && IsMultiple(n, align)
            && IsMultiple(PadSize(bytes, pad), pad)
            && bytes <= PadSize(bytes, pad) <= n
  {
    Pow2Values();
    Pow2Monotonic(k, 31);
    PadSizeIsCeiling(bytes, pad);
    WrapIsIdentity(Ceiling(bytes, pad));
    var size, align: Word := PadSize(bytes, pad), Pow2(k);
    RoundingFits(size, k);
    CeilingRange(bytes, pad);
    CeilingRange(size, align);
    RoundingFits(base, k);
    CeilingRange(base, align);
  }
}
