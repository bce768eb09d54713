/**
 Signed 32-bit integers: C's `int` on the target.

 C leaves signed overflow undefined; `WrapInt` is what two's-complement hardware makes of it.  Every
 result that depends on a sum or product staying in range says so with `IsInt`.
 */
module Ints {
  import opened Bits

  predicate IsInt(x: int) {
    -0x8000_0000 <= x < 0x8000_0000
  }

  type Int32 = x: int | -0x8000_0000 <= x < 0x8000_0000

  const INT_MAX: Int32 := 0x7fff_ffff

  function WrapInt(x: int): (r: Int32)
    ensures r == x <==> IsInt(x)
  {
    (x + 0x8000_0000) % 0x1_0000_0000 - 0x8000_0000
  }

  function Abs(x: int): nat {
    if x < 0 then -x else x
  }

  function WithSign(negative: bool, v: int): int {
    if negative then -v else v
  }

  /** C's `x / d`, which truncates towards zero. */
  function TruncDiv(x: int, d: int): int
    requires d != 0
  {
    WithSign((x < 0) != (d < 0), Abs(x) / Abs(d))
  }

  /** C's `x % d`, which has the sign of `x`. */
  function TruncMod(x: int, d: int): int
    requires d != 0
  {
    WithSign(x < 0, Abs(x) % Abs(d))
  }

  // ----- wrapping -----

  lemma WrapIntShift(x: int, k: int)
    ensures WrapInt(x + k * WORD_SIZE) == WrapInt(x)
  {
  }

  /** How far wrapping moves a value. */
  lemma Turns(x: int) returns (k: int)
    ensures WrapInt(x) == x + k * WORD_SIZE
    ensures k == 0 <==> IsInt(x)
    ensures x >= 0x8000_0000 ==> k < 0
    ensures x < -0x8000_0000 ==> k > 0
  {
    k := -((x + 0x8000_0000) / 0x1_0000_0000);
  }

  /** Wrapped operands give the same wrapped sum. */
  lemma WrapIntSum(x: int, y: int)
    ensures WrapInt(WrapInt(x) + WrapInt(y)) == WrapInt(x + y)
  {
    var i := Turns(x);
    var j := Turns(y);
    WrapIntShift(x + y, i + j);
  }

  lemma WrapIntProduct(x: int, y: int)
    ensures WrapInt(WrapInt(x) * y) == WrapInt(x * y)
  {
    var k := Turns(x);
    assert WrapInt(x) * y == x * y + (k * y) * WORD_SIZE;
    WrapIntShift(x * y, k * y);
  }

  // ----- division -----

  predicate DifferInSign(x: int, y: int) {
    (x < 0) != (y < 0)
  }

  /** Signs and magnitudes multiply and divide separately. */
  lemma SignedProduct(x: int, y: int)
    ensures x * y == WithSign(DifferInSign(x, y), Abs(x) * Abs(y))
  {
    assert (-x) * y == -(x * y) && x * (-y) == -(x * y) && (-x) * (-y) == x * y;
  }

  lemma SignedQuotient(b: bool, v: nat, d: int)
    requires d != 0
    ensures TruncDiv(WithSign(b, v), d) == WithSign(b != (d < 0), v / Abs(d))
  {
    if v == 0 {
      DivModUnique(0, Abs(d), 0, 0);
    }
  }

  lemma QuotientSign(x: int, d: int)
    requires d > 0
    ensures if x < 0 then TruncDiv(x, d) <= 0 else TruncDiv(x, d) >= 0
  {
    QuotientAtMost(Abs(x), d);
  }
}
