/**
 The multi-word number of `bn.h`: its normalising loop and the predicates that rely on normal form.
 */
module BigNum {
  import opened Bits
  import opened Ints
  import opened BnWords

  /** `bn_check_top`'s assertion, on the words in use. */
  predicate Normal(s: Words) {
    s == [] || s[|s| - 1] != 0
  }

  /** The value of a sign and words in use. */
  function Signed(s: Words, neg: bool): int {
    var magnitude: int := Value(s);
    if neg then -magnitude else magnitude
  }

  class BigNumber {
    var d: array<Word>
    var top: int
    var dmax: int
    var neg: bool

    ghost predicate Valid()
      reads this
    {
      0 <= top <= dmax <= d.Length
    }

    ghost function InUse(): Words
      requires Valid()
      reads this, d
    {
      d[..top]
    }

    /** `bn_correct_top` */
    method CorrectTop()
      requires Valid()
      modifies this`top
      ensures Valid() && Normal(InUse())
      ensures top <= old(top) && forall k :: top <= k < old(top) ==> d[k] == 0
      ensures Value(InUse()) == Value(old(InUse()))
      ensures Normal(old(InUse())) ==> top == old(top)
    {
      ghost var words := InUse();
      if top > 0 {
        var ftl := top - 1;
        while top > 0
          invariant 0 <= top <= old(top) && ftl == top - 1
          invariant forall k :: top <= k < old(top) ==> d[k] == 0
        {
          var word := d[ftl];
          ftl := ftl - 1;
          if word != 0 {
            break;
          }
          top := top - 1;
        }
      }
      assert forall k :: 0 <= k < |words| ==> words[k] == d[k];
      DropZeros(words, top);
      assert words[..top] == InUse();
    }

    /** `bn_clear_top2max`, which the header enables under BN_DEBUG_RAND */
    method ClearTop2Max()
      requires Valid()
      modifies d
      ensures d[..top] == old(d[..top]) && d[dmax..] == old(d[dmax..])
      ensures Value(d[..dmax]) == Value(InUse())
    {
      var ind := dmax - top;
      var ftl := top - 1;
      while ind != 0
        invariant 0 <= ind && ftl == dmax - ind - 1 && top - 1 <= ftl < dmax
        invariant forall k :: top <= k <= ftl ==> d[k] == 0
        invariant d[..top] == old(d[..top]) && d[dmax..] == old(d[dmax..])
      {
        ftl := ftl + 1;
        ghost var low, high := d[..top], d[dmax..];
        d[ftl] := 0;
        assert d[..top] == low && d[dmax..] == high;
        ind := ind - 1;
      }
      ghost var all := d[..dmax];
      assert forall k :: 0 <= k < dmax ==> all[k] == d[k];
      DropZeros(all, top);
      assert d[..dmax][..top] == d[..top];
    }

    /** `BN_zero_ex` */
    method ZeroEx()
      requires Valid()
      modifies this`top, this`neg
      ensures Valid() && Normal(InUse()) && Signed(InUse(), neg) == 0 && !neg
    {
      top := 0;
      neg := false;
    }

    /** `BN_abs_is_word` */
    predicate AbsIsWord(w: Word)
      requires Valid()
      reads this, d
    {
      (top == 1 && d[0] == w) || (w == 0 && top == 0)
    }

    /** `BN_is_zero` */
    predicate IsZero()
      reads this
    {
      top == 0
    }

    /** `BN_is_one` */
    predicate IsOne()
      requires Valid()
      reads this, d
    {
      AbsIsWord(1) && !neg
    }

    /** `BN_is_word` */
    predicate IsWord(w: Word)
      requires Valid()
      reads this, d
    {
      AbsIsWord(w) && (w == 0 || !neg)
    }

    /** `BN_is_odd` */
    predicate IsOdd()
      requires Valid()
      reads this, d
    {
      top > 0 && And(d[0], 1) != 0
    }

    /** `BN_is_negative` */
    predicate IsNegative()
      reads this
    {
      neg
    }

    /** Except for `BN_is_negative`, each predicate answers its question about every normalised number. */
    lemma PredicatesAgree(w: Word)
      requires Valid() && Normal(InUse())
      ensures AbsIsWord(w) <==> Value(InUse()) == w
      ensures IsZero() <==> Signed(InUse(), neg) == 0
      ensures IsOne() <==> Signed(InUse(), neg) == 1
      ensures IsWord(w) <==> Signed(InUse(), neg) == w
      ensures IsOdd() <==> Signed(InUse(), neg) % 2 == 1
    {
      var s := InUse();
      NormalIsWord(s, w);
      NormalIsWord(s, 1);
      NormalIsWord(s, 0);
      if top > 0 {
        AndLowMask(s[0], 1);
        assert Low(s[0], 1) == s[0] % 2;
        assert Value(s) == s[0] + 2 * (0x8000_0000 * Value(s[1..]));
        assert Value(s) % 2 == s[0] % 2;
      }
    }

    /** On any number, normalised or not, they answer it for numbers of at most one word in use. */
    lemma PredicatesOnAnyNumber(w: Word)
      requires Valid()
      ensures AbsIsWord(w) <==> top <= 1 && Value(InUse()) == w
      ensures IsOne() <==> top <= 1 && Signed(InUse(), neg) == 1
      ensures IsWord(w) <==> top <= 1 && Signed(InUse(), neg) == w
      ensures IsZero() <==> InUse() == []
      ensures IsOdd() <==> Value(InUse()) % 2 == 1
    {
      var s := InUse();
      if top == 1 {
        assert s == [d[0]] && s[1..] == [];
      }
      if top > 0 {
        AndLowMask(s[0], 1);
        assert Low(s[0], 1) == s[0] % 2;
        assert Value(s) == s[0] + 2 * (0x8000_0000 * Value(s[1..]));
      }
    }

    /** `BN_is_negative` answers it exactly when the normalised number is not a zero that kept its sign. */
    lemma NegativeIsExact()
      requires Valid() && Normal(InUse())
      ensures (IsNegative() <==> Signed(InUse(), neg) < 0) <==> top > 0 || !neg
    {
      if top > 0 {
        NormalBound(InUse());
      }
    }

    /** After `bn_correct_top` that depends on the number before: a zero keeps its sign. */
    method CorrectTopThenSign() returns (negative: bool)
      requires Valid()
      modifies this`top
      ensures Valid() && Normal(InUse()) && Signed(InUse(), neg) == old(Signed(InUse(), neg))
      ensures negative == IsNegative()
      ensures (negative <==> old(Signed(InUse(), neg)) < 0) <==> old(Value(InUse())) != 0 || !neg
    {
      CorrectTop();
      NegativeIsExact();
      negative := IsNegative();
    }

    /** One zero word with the sign set: the result is a normalised zero, reported as negative. */
    method CorrectNegativeZero()
      requires Valid() && top == 1 && d[0] == 0 && neg
      modifies this`top
      ensures Valid() && top == 0 && Signed(InUse(), neg) == 0 && IsNegative()
    {
      assert InUse() == [0];
      CorrectTop();
      NormalIsWord(InUse(), 0);
    }

    /** Off normal form, one zero word is not recognised as zero. */
    lemma UnnormalisedZero()
      requires Valid() && top == 1 && d[0] == 0
      ensures !Normal(InUse()) && Value(InUse()) == 0 && !IsZero()
    {
      assert InUse() == [0];
    }

    /** Nor is a word recognised below a zero word. */
    lemma UnnormalisedWord()
      requires Valid() && top == 2 && d[1] == 0
      ensures !Normal(InUse()) && Value(InUse()) == d[0] && !AbsIsWord(d[0])
    {
      assert InUse() == [d[0], 0];
      assert Value(InUse()[1..][1..]) == 0;
    }

    /**
     Off normal form the word predicates and `BN_is_zero` fail on small numbers: together they
     agree with the value exactly when the number is normalised or takes more than one word.
     */
    lemma PredicatesNeedNormalForm()
      requires Valid()
      ensures Normal(InUse()) || Value(InUse()) >= WORD_SIZE
         <==> (forall w: Word :: AbsIsWord(w) <==> Value(InUse()) == w) && (IsZero() <==> Value(InUse()) == 0)
    {
      var s := InUse();
      if Normal(s) {
        forall w: Word ensures AbsIsWord(w) <==> Value(s) == w {
          PredicatesAgree(w);
        }
        PredicatesAgree(0);
      } else if Value(s) >= WORD_SIZE {
        assert top == 1 ==> s[1..] == [];
      } else {
        assert AbsIsWord(Value(s)) ==> top == 1 && d[0] == Value(s);
        assert top == 1 ==> s[0] == 0 && s[1..] == [];
      }
    }
  }

  // ----- normal form -----

  /** Zero words at the high end do not count. */
  lemma {:induction false} DropZeros(s: Words, n: nat)
    requires n <= |s|
    requires forall k :: n <= k < |s| ==> s[k] == 0
    ensures Value(s[..n]) == Value(s)
    decreases |s|
  {
    if n == |s| {
      assert s[..n] == s;
    } else {
      var s' := s[..|s| - 1];
      assert s == s' + [0];
      ValueSnoc(s', 0);
      DropZeros(s', n);
      assert s'[..n] == s[..n];
    }
  }

  /** A normalised number of n words needs all of them. */
  lemma NormalBound(s: Words)
    requires Normal(s) && s != []
    ensures Value(s) >= Radix(|s| - 1)
  {
    var s', x := s[..|s| - 1], s[|s| - 1];
    assert s == s' + [x];
    ValueSnoc(s', x);
    AtLeastOnce(Radix(|s'|), x);
  }

  lemma AtLeastOnce(m: nat, x: nat)
    requires x > 0
    ensures m * x >= m
  {
  }

  lemma {:induction false} RadixMonotonic(m: nat, n: nat)
    requires m <= n
    ensures Radix(m) <= Radix(n)
  {
    if m == n {
    } else {
      RadixMonotonic(m, n - 1);
    }
  }

  /** Normal form is canonical: equal values have equal words, and so equal `top`. */
  lemma NormalIsCanonical(s: Words, t: Words)
    requires Normal(s) && Normal(t) && Value(s) == Value(t)
    ensures s == t
  {
    NormalIsNotLonger(s, t);
    NormalIsNotLonger(t, s);
    ValueInjective(s, t);
  }

  /** With the sign: a normalised number is determined by its signed value if and only if it is not zero. */
  lemma SignedIsCanonical(s: Words, neg: bool)
    requires Normal(s)
    ensures (forall t: Words, n: bool :: Normal(t) && Signed(t, n) == Signed(s, neg) ==> t == s && n == neg)
       <==> s != []
  {
    if s != [] {
      NormalBound(s);
      forall t: Words, n: bool | Normal(t) && Signed(t, n) == Signed(s, neg) ensures t == s && n == neg {
        NormalIsCanonical(s, t);
      }
    } else {
      assert Normal(s) && Signed(s, !neg) == Signed(s, neg);
    }
  }

  lemma NormalIsNotLonger(s: Words, t: Words)
    requires Normal(s) && Value(s) <= Value(t)
    ensures |s| <= |t|
  {
    if |s| > |t| {
      NormalBound(s);
      ValueBound(t);
      RadixMonotonic(|t|, |s| - 1);
    }
  }

  lemma NormalIsWord(s: Words, w: Word)
    requires Normal(s)
    ensures Value(s) == w <==> (|s| == 1 && s[0] == w) || (w == 0 && |s| == 0)
  {
    if Value(s) == w {
      var t: Words := if w == 0 then [] else [w];
      NormalIsCanonical(s, t);
    }
  }

  /** Normalising any two word arrays of equal value leaves equal words in use. */
  lemma CorrectTopIsCanonical(s: Words, m: nat, t: Words, n: nat)
    requires m <= |s| && n <= |t| && Value(s) == Value(t)
    requires Normal(s[..m]) && forall k :: m <= k < |s| ==> s[k] == 0
    requires Normal(t[..n]) && forall k :: n <= k < |t| ==> t[k] == 0
    ensures m == n && s[..m] == t[..n]
  {
    DropZeros(s, m);
    DropZeros(t, n);
    NormalIsCanonical(s[..m], t[..n]);
  }

  // ----- capacity -----

  /** The word count of `bn_expand`, an int expression: `(bits+BN_BITS2-1)/BN_BITS2`. */
  function WordsFor(bits: Int32): int {
    TruncDiv(WrapInt(WrapInt(bits + 32) - 1), 32)
  }

  /** The test of `bn_expand`: the number is returned as it is, with its dmax words. */
  predicate KeepsRoom(bits: Int32, dmax: nat) {
    WordsFor(bits) <= dmax
  }

  /** dmax words hold every number of `bits` bits. */
  predicate HasRoom(bits: Int32, dmax: nat) {
    Pow2(if bits < 0 then 0 else bits) <= Radix(dmax)
  }

  /**
   `bn_expand` keeps the number exactly when its words suffice, that is, it asks for the least
   sufficient count - if and only if its sum is an int.  (At INT_MAX - 31 adding 32 overflows, and
   subtracting 1 undoes it.)
   */
  lemma ExpandIsLeast(bits: Int32)
    ensures (forall dmax: nat :: KeepsRoom(bits, dmax) <==> HasRoom(bits, dmax)) <==> bits <= INT_MAX - 31
  {
    if bits <= INT_MAX - 31 {
      forall dmax: nat ensures KeepsRoom(bits, dmax) <==> HasRoom(bits, dmax) {
        RoomInWords(if bits < 0 then 0 else bits, dmax);
      }
    } else {
      ExpandOverflows(bits);
      assert KeepsRoom(bits, 0) && !HasRoom(bits, 0);
    }
  }

  /** After an overflow the count is negative: no number is ever expanded, not even one without words. */
  lemma ExpandOverflows(bits: Int32)
    requires bits > INT_MAX - 31
    ensures WordsFor(bits) < 0
    ensures !HasRoom(bits, 0)
  {
    Pow2Monotonic(1, bits);
    assert WrapInt(WrapInt(bits + 32) - 1) == bits + 31 - WORD_SIZE;
  }

  /** The largest int: the code asks for -67108863 words. */
  lemma ExpandOfIntMax()
    ensures WordsFor(INT_MAX) == -0x3ff_ffff && KeepsRoom(INT_MAX, 0) && !HasRoom(INT_MAX, 0)
  {
    ExpandOverflows(INT_MAX);
    assert WrapInt(WrapInt(INT_MAX + 32) - 1) == -0x7fff_ffe2;
  }

  lemma RoomInWords(bits: nat, n: nat)
    ensures (bits + 31) / 32 <= n <==> Pow2(bits) <= Radix(n)
  {
    RadixIsPow2(n);
    if bits <= 32 * n {
      Pow2Monotonic(bits, 32 * n);
    } else {
      Pow2Monotonic(32 * n + 1, bits);
    }
  }

  lemma {:induction false} RadixIsPow2(n: nat)
    ensures Radix(n) == Pow2(32 * n)
  {
    if n == 0 {
    } else {
      RadixIsPow2(n - 1);
      Pow2Values();
      Pow2Add(32, 32 * (n - 1));
    }
  }
}
