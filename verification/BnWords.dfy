/**
 Word sequences: the rows and the schoolbook product that the steps of `bn_lcl.h` are built for.

 A number of n words is stored least significant word first.  The bodies of `bn_mul_words`,
 `bn_mul_add_words`, `bn_sqr_words` and `bn_mul_normal` are not in the repository; the loops here
 thread the carry `c` through the step macros in the one way their in/out parameter allows.
 */
module BnWords {
  import opened Bits
  import opened BnWord

  type Words = seq<Word>

  function Value(s: Words): nat {
    if s == [] then 0 else s[0] + WORD_SIZE * Value(s[1..])
  }

  /** WORD_SIZE to the power n */
  function Radix(n: nat): (r: nat)
    ensures r > 0
  {
    if n == 0 then 1 else WORD_SIZE * Radix(n - 1)
  }

  // ----- values -----

  lemma {:induction false} RadixAdd(m: nat, n: nat)
    ensures Radix(m + n) == Radix(m) * Radix(n)
  {
    if m == 0 {
    } else {
      RadixAdd(m - 1, n);
      assert WORD_SIZE * (Radix(m - 1) * Radix(n)) == (WORD_SIZE * Radix(m - 1)) * Radix(n);
    }
  }

  lemma {:induction false} ValueConcat(s: Words, t: Words)
    ensures Value(s + t) == Value(s) + Radix(|s|) * Value(t)
  {
    if s == [] {
      assert s + t == t;
    } else {
      assert (s + t)[1..] == s[1..] + t;
      ValueConcat(s[1..], t);
      var x, y := Radix(|s| - 1), Value(t);
      assert WORD_SIZE * (x * y) == (WORD_SIZE * x) * y;
    }
  }

  lemma ValueSnoc(s: Words, x: Word)
    ensures Value(s + [x]) == Value(s) + Radix(|s|) * x
  {
    ValueConcat(s, [x]);
    assert Value([x]) == x;
  }

  /** Extending a prefix of `s` by one word. */
  lemma ValuePrefix(s: Words, i: nat)
    requires i < |s|
    ensures Value(s[..i + 1]) == Value(s[..i]) + Radix(i) * s[i]
  {
    assert s[..i + 1] == s[..i] + [s[i]];
    ValueSnoc(s[..i], s[i]);
  }

  lemma {:induction false} ValueBound(s: Words)
    ensures Value(s) < Radix(|s|)
  {
    if s == [] {
    } else {
      ValueBound(s[1..]);
    }
  }

  /** Words of one length are determined by their value. */
  lemma {:induction false} ValueInjective(s: Words, t: Words)
    requires |s| == |t| && Value(s) == Value(t)
    ensures s == t
  {
    if s == [] {
    } else {
      assert s[0] == Value(s) % WORD_SIZE == t[0];
      ValueInjective(s[1..], t[1..]);
      assert s == [s[0]] + s[1..] && t == [t[0]] + t[1..];
    }
  }

  /** A row's words and its final carry are determined by the total they represent. */
  lemma RowIsUnique(s: Words, c: Word, t: Words, d: Word)
    requires |s| == |t|
    requires Value(s) + Radix(|s|) * c == Value(t) + Radix(|t|) * d
    ensures s == t && c == d
  {
    ValueSnoc(s, c);
    ValueSnoc(t, d);
    ValueInjective(s + [c], t + [d]);
    assert s == (s + [c])[..|s|] && t == (t + [d])[..|t|];
    assert c == (s + [c])[|s|] && d == (t + [d])[|t|];
  }

  // ----- rows -----

  /** One step of a row, at position i. */
  lemma RowStep(done: nat, r: Word, c: Word, i: nat, a: Word, w: Word, r0: Word, c0: Word, before: nat, total: nat)
    requires done + Radix(i) * c0 == before + total * w
    requires c * WORD_SIZE + r == a * w + r0 + c0
    ensures done + Radix(i) * r + Radix(i + 1) * c
         == before + Radix(i) * r0 + (total + Radix(i) * a) * w
  {
    var m := Radix(i);
    var p, q := a * w, c * WORD_SIZE;
    assert m * (q + r) == m * q + m * r;
    assert m * (p + r0 + c0) == m * p + m * r0 + m * c0;
    Regroup(m, c, WORD_SIZE, q);
    Regroup(m, a, w, p);
    assert (total + m * a) * w == total * w + (m * a) * w;
  }

  lemma Regroup(m: int, x: int, y: int, p: int)
    requires p == x * y
    ensures m * p == (m * x) * y == (y * m) * x
  {
  }

  /** Memory in the middle of a row: `done` has replaced the first words at `off`. */
  ghost predicate Replaced(now: Words, was: Words, off: nat, done: Words) {
    off + |done| <= |was| && now == was[..off] + done + was[off + |done|..]
  }

  lemma ReplaceNext(now: Words, was: Words, off: nat, done: Words, r: Word)
    requires Replaced(now, was, off, done) && off + |done| < |was|
    ensures now[off + |done|] == was[off + |done|]
    ensures Replaced(now[off + |done| := r], was, off, done + [r])
  {
  }

  lemma ReplacedParts(now: Words, was: Words, off: nat, done: Words)
    requires Replaced(now, was, off, done)
    ensures |now| == |was| && now[off..off + |done|] == done
    ensures now[..off] == was[..off] && now[off + |done|..] == was[off + |done|..]
  {
  }

  /** One step: the word x of the operand and the carry c turn r into r' and the carry c'. */
  predicate Stepped(x: Word, w: Word, r: Word, c: Word, r': Word, c': Word) {
    c' * WORD_SIZE + r' == x * w + r + c
  }

  /** The words `done` come from a run of steps over r and a, with these carries in between. */
  predicate RowSoFar(r: Words, a: Words, w: Word, done: Words, cs: Words) {
    && |done| <= |r| == |a| && |cs| == |done| + 1
    && forall k :: 0 <= k < |done| ==> Stepped(a[k], w, r[k], cs[k], done[k], cs[k + 1])
  }

  lemma RowNext(r: Words, a: Words, w: Word, done: Words, cs: Words, r': Word, c': Word)
    requires RowSoFar(r, a, w, done, cs) && |done| < |r|
    requires Stepped(a[|done|], w, r[|done|], cs[|done|], r', c')
    ensures RowSoFar(r, a, w, done + [r'], cs + [c'])
  {
  }

  /** New words and carry out are worth old words, product and carry in. */
  lemma {:induction false} RowValue(r: Words, a: Words, w: Word, done: Words, cs: Words)
    requires RowSoFar(r, a, w, done, cs)
    ensures Value(done) + Radix(|done|) * cs[|done|] == cs[0] + Value(r[..|done|]) + Value(a[..|done|]) * w
    decreases |done|
  {
    if done == [] {
    } else {
      var i := |done| - 1;
      var before := done[..i];
      RowValue(r, a, w, before, cs[..i + 1]);
      assert Stepped(a[i], w, r[i], cs[i], done[i], cs[i + 1]);
      RowStep(Value(before), done[i], cs[i + 1], i, a[i], w, r[i], cs[i], cs[0] + Value(r[..i]), Value(a[..i]));
      ValuePrefix(r, i);
      ValuePrefix(a, i);
      ValueSnoc(before, done[i]);
      assert done == before + [done[i]];
    }
  }

  lemma RowDone(now: Words, was: Words, off: nat, r: Words, a: Words, w: Word, done: Words, cs: Words)
    requires Replaced(now, was, off, done) && RowSoFar(r, a, w, done, cs) && |done| == |r|
    ensures |now| == |was|
    ensures Value(now[off..off + |r|]) + Radix(|r|) * cs[|r|] == cs[0] + Value(r) + Value(a) * w
    ensures now[..off] == was[..off] && now[off + |r|..] == was[off + |r|..]
  {
    ReplacedParts(now, was, off, done);
    RowValue(r, a, w, done, cs);
    assert r[..|done|] == r && a[..|done|] == a;
  }

  /** A first row is a row added to zeros. */
  function Zeros(n: nat): (s: Words)
    ensures |s| == n && forall k :: 0 <= k < n ==> s[k] == 0
  {
    seq(n, _ => 0)
  }

  lemma {:induction false} ZerosAreZero(n: nat)
    ensures Value(Zeros(n)) == 0
  {
    if n == 0 {
    } else {
      assert Zeros(n)[1..] == Zeros(n - 1);
      ZerosAreZero(n - 1);
    }
  }

  /** `mul_add(rp[at], x, w, c)` on an element of rp */
  method MulAddAt(rp: array<Word>, at: nat, x: Word, w: Word, c: Word) returns (c': Word)
    requires at < rp.Length
    modifies rp
    ensures Stepped(x, w, old(rp[at]), c, rp[at], c')
    ensures rp[..] == old(rp[..])[at := rp[at]]
  {
    var r: Word;
    r, c' := MulAddWide(rp[at], x, w, c);
    rp[at] := r;
  }

  /** `mul(rp[at], x, w, c)` on an element of rp */
  method MulAt(rp: array<Word>, at: nat, x: Word, w: Word, c: Word) returns (c': Word)
    requires at < rp.Length
    modifies rp
    ensures Stepped(x, w, 0, c, rp[at], c')
    ensures rp[..] == old(rp[..])[at := rp[at]]
  {
    var r: Word;
    r, c' := MulWide(x, w, c);
    rp[at] := r;
  }

  /** The fold that `mul_add`'s carry is built for: a * w and an incoming carry are added into `num` words. */
  method MulAddRow(rp: array<Word>, off: nat, ap: array<Word>, num: nat, w: Word, start: Word) returns (c: Word)
    requires off + num <= rp.Length && num <= ap.Length
    requires rp == ap ==> off == 0
    modifies rp
    ensures Value(rp[off..off + num]) + Radix(num) * c
         == start + old(Value(rp[off..off + num])) + old(Value(ap[..num])) * w
    ensures rp[..off] == old(rp[..off]) && rp[off + num..] == old(rp[off + num..])
  {
    c := start;
    ghost var was, r0, a0 := rp[..], rp[off..off + num], ap[..num];
    ghost var done: Words, cs: Words := [], [c];
    var i := 0;
    while i < num
      invariant i == |done| <= num && Replaced(rp[..], was, off, done)
      invariant RowSoFar(r0, a0, w, done, cs) && cs[0] == start && cs[i] == c
    {
      ghost var now := rp[..];
      assert ap[i] == a0[i];
      c := MulAddAt(rp, off + i, ap[i], w, c);
      ghost var r := rp[off + i];
      ReplaceNext(now, was, off, done, r);
      RowNext(r0, a0, w, done, cs, r, c);
      done, cs := done + [r], cs + [c];
      i := i + 1;
    }
    RowDone(rp[..], was, off, r0, a0, w, done, cs);
  }

  /** `bn_mul_add_words`: add a * w into `num` words of rp; the row may be added to itself */
  method MulAddWords(rp: array<Word>, off: nat, ap: array<Word>, num: nat, w: Word) returns (c: Word)
    requires off + num <= rp.Length && num <= ap.Length
    requires rp == ap ==> off == 0
    modifies rp
    ensures Value(rp[off..off + num]) + Radix(num) * c
         == old(Value(rp[off..off + num])) + old(Value(ap[..num])) * w
    ensures rp[..off] == old(rp[..off]) && rp[off + num..] == old(rp[off + num..])
  {
    c := MulAddRow(rp, off, ap, num, w, 0);
  }

  /** The same fold with `mul`: a * w and an incoming carry are stored into `num` words. */
  method MulRow(rp: array<Word>, off: nat, ap: array<Word>, num: nat, w: Word, start: Word) returns (c: Word)
    requires off + num <= rp.Length && num <= ap.Length
    requires rp == ap ==> off == 0
    modifies rp
    ensures Value(rp[off..off + num]) + Radix(num) * c == start + old(Value(ap[..num])) * w
    ensures rp[..off] == old(rp[..off]) && rp[off + num..] == old(rp[off + num..])
  {
    c := start;
    ghost var was, zero, a0 := rp[..], Zeros(num), ap[..num];
    ghost var done: Words, cs: Words := [], [c];
    var i := 0;
    while i < num
      invariant i == |done| <= num && Replaced(rp[..], was, off, done)
      invariant RowSoFar(zero, a0, w, done, cs) && cs[0] == start && cs[i] == c
    {
      ghost var now := rp[..];
      assert ap[i] == a0[i];
      c := MulAt(rp, off + i, ap[i], w, c);
      ghost var r := rp[off + i];
      ReplaceNext(now, was, off, done, r);
      RowNext(zero, a0, w, done, cs, r, c);
      done, cs := done + [r], cs + [c];
      i := i + 1;
    }
    RowDone(rp[..], was, off, zero, a0, w, done, cs);
    ZerosAreZero(num);
  }

  /** `bn_mul_words`: store a * w into `num` words of rp */
  method MulWords(rp: array<Word>, off: nat, ap: array<Word>, num: nat, w: Word) returns (c: Word)
    requires off + num <= rp.Length && num <= ap.Length
    requires rp == ap ==> off == 0
    modifies rp
    ensures Value(rp[off..off + num]) + Radix(num) * c == old(Value(ap[..num])) * w
    ensures rp[..off] == old(rp[..off]) && rp[off + num..] == old(rp[off + num..])
  {
    c := MulRow(rp, off, ap, num, w, 0);
  }

  // ----- the product -----

  /** Raising the high words by d raises the whole by d at their position. */
  lemma RaiseHigh(low: Words, row: Words, row': Words, d: int)
    requires Value(row') == Value(row) + d
    ensures Value(low + row') == Value(low + row) + Radix(|low|) * d
  {
    ValueConcat(low, row);
    ValueConcat(low, row');
    var m := Radix(|low|);
    assert m * Value(row') == m * Value(row) + m * d by {
      Distribute(m, Value(row), 1, d, Value(row'));
    }
  }

  lemma Distribute(a: int, v: int, m: int, w: int, sum: int)
    requires sum == v + m * w
    ensures a * sum == a * v + m * (a * w)
  {
    calc {
      a * sum;
      a * (v + m * w);
      a * v + a * (m * w);
      { assert a * (m * w) == m * (a * w); }
      a * v + m * (a * w);
    }
  }

  /** Adding the row for the next word of b, with its carry in the next word, extends the product. */
  lemma ProductRow(low: Words, row: Words, row': Words, c: Word, a: nat, b: Words, w: Word)
    requires |row| == |row'| && |low| == |b|
    requires Value(low + row) == a * Value(b)
    requires Value(row') + Radix(|row|) * c == Value(row) + a * w
    ensures Value(low + row' + [c]) == a * Value(b + [w])
  {
    ValueSnoc(row', c);
    RaiseHigh(low, row, row' + [c], a * w);
    assert low + row' + [c] == low + (row' + [c]);
    ValueSnoc(b, w);
    Distribute(a, Value(b), Radix(|b|), w, Value(b + [w]));
  }

  /** One row: r[rr..rr + na] += a * w and the carry goes to r[rr + na]. */
  method AddRow(r: array<Word>, rr: nat, a: array<Word>, na: nat, w: Word, ghost b: Words)
    requires r != a && na <= a.Length && na + rr < r.Length && |b| == rr
    requires Value(r[..na + rr]) == Value(a[..na]) * Value(b)
    modifies r
    ensures Value(r[..na + rr + 1]) == Value(a[..na]) * Value(b + [w])
    ensures r[na + rr + 1..] == old(r[na + rr + 1..])
  {
    ghost var low, row, A := r[..rr], r[rr..rr + na], Value(a[..na]);
    assert r[..na + rr] == low + row;
    var c := MulAddWords(r, rr, a, na, w);
    ghost var row' := r[rr..rr + na];
    assert r[na + rr + 1..] == r[rr + na..][1..] == old(r[rr + na..])[1..];
    r[na + rr] := c;
    assert r[..na + rr + 1] == low + row' + [c];
    ProductRow(low, row, row', c, A, b, w);
  }

  /** The first row, with its carry in the word after it. */
  method StartRows(r: array<Word>, a: array<Word>, na: nat, w: Word)
    requires r != a && na <= a.Length && na < r.Length
    modifies r
    ensures Value(r[..na + 1]) == Value(a[..na]) * Value([w])
    ensures r[na + 1..] == old(r[na + 1..])
  {
    var c := MulWords(r, 0, a, na, w);
    assert r[na + 1..] == r[0 + na..][1..];
    r[na] := c;
    assert r[..na + 1][0..na] == r[0..na];
    FirstRow(r[..na + 1], a[..na], w, c);
  }

  /** `bn_mul_normal`: the product of a and b in na + nb words of r */
  method MulNormal(r: array<Word>, a: array<Word>, na: nat, b: array<Word>, nb: nat)
    requires na <= a.Length && nb <= b.Length && na + nb <= r.Length
    requires r != a && r != b
    modifies r
    ensures Value(r[..na + nb]) == Value(a[..na]) * Value(b[..nb])
    ensures r[na + nb..] == old(r[na + nb..])
  {
    if nb == 0 {
      var c := MulWords(r, 0, a, na, 0);
      assert r[..na] == r[0..na] && b[..0] == [];
      return;
    }
    StartRows(r, a, na, b[0]);
    assert r[na + nb..] == r[na + 1..][nb - 1..];
    var j := 1;
    assert b[..1] == [b[0]];
    while j < nb
      invariant 1 <= j <= nb
      invariant Value(r[..na + j]) == Value(a[..na]) * Value(b[..j])
      invariant r[na + nb..] == old(r[na + nb..])
    {
      ghost var tail := r[na + nb..];
      assert tail == r[na + j + 1..][nb - j - 1..];
      AddRow(r, j, a, na, b[j], b[..j]);
      assert b[..j + 1] == b[..j] + [b[j]];
      assert r[na + nb..] == r[na + j + 1..][nb - j - 1..];
      j := j + 1;
    }
  }

  lemma FirstRow(r: Words, a: Words, w: Word, c: Word)
    requires |r| == |a| + 1 && r[|a|] == c
    requires Value(r[0..|a|]) + Radix(|a|) * c == Value(a) * w
    ensures Value(r) == Value(a) * Value([w])
  {
    assert r == r[0..|a|] + [c];
    ValueSnoc(r[0..|a|], c);
    assert Value([w]) == w;
  }

  /** The words of a product are determined by the operands. */
  lemma ProductIsUnique(r: Words, r': Words, a: Words, b: Words)
    requires |r| == |r'| == |a| + |b|
    requires Value(r) == Value(a) * Value(b) && Value(r') == Value(a) * Value(b)
    ensures r == r'
  {
    ValueInjective(r, r');
  }

  /** na + nb words always suffice for a product. */
  lemma ProductFits(a: Words, b: Words)
    ensures Value(a) * Value(b) < Radix(|a| + |b|)
  {
    ValueBound(a);
    ValueBound(b);
    RadixAdd(|a|, |b|);
    if Value(a) == 0 || Value(b) == 0 {
    } else {
      ProductMonotonic(Value(a), Value(b), Radix(|a|) - 1, Radix(|b|) - 1);
      assert (Radix(|a|) - 1) * (Radix(|b|) - 1) == Radix(|a|) * Radix(|b|) - Radix(|a|) - Radix(|b|) + 1;
    }
  }
}
