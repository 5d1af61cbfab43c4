/**
  Integer facts shared by the byte chunker and the page planner, both of
  which count pieces with the round-up division `(len + size - 1) / size`.
*/
module Arith {

  function Min(a: int, b: int): int { if a <= b then a else b }

  /** `ceil(len / size)` written as the source writes it. */
  function CeilDiv(len: nat, size: nat): (n: nat)
    requires size > 0
    ensures n == 0 <==> len == 0
  {
    RoundUpZero(len, size);
    (len + size - 1) / size
  }

  /** Rounding up gives no piece exactly for an empty length. */
  lemma RoundUpZero(len: nat, size: nat)
    requires size > 0
    ensures (len + size - 1) / size == 0 <==> len == 0
  {
    var a := len + size - 1;
    if len == 0 {
      DivUnique(a, size, 0, a);
    } else {
      assert a == (a / size) * size + a % size;
    }
  }

  /** Division by a positive number has a unique quotient. */
  lemma DivUnique(x: int, s: int, q: int, r: int)
    requires s > 0 && 0 <= r < s && x == q * s + r
    ensures x / s == q
  {
    var d := x / s - q;
    assert d * s == r - x % s;
  }

  /** `CeilDiv` is the least count of pieces that covers `len`. */
  lemma CeilDivBounds(len: nat, size: nat)
    requires size > 0
    ensures CeilDiv(len, size) * size >= len
    ensures CeilDiv(len, size) > 0 ==> (CeilDiv(len, size) - 1) * size < len
    ensures CeilDiv(len, size) == 0 <==> len == 0
  {
    var a := len + size - 1;
    var n, r := a / size, a % size;
    assert a == n * size + r;
    assert (n - 1) * size == n * size - size;
  }

  /** Removing one full piece removes one from the count. */
  lemma CeilDivStep(len: nat, size: nat)
    requires 0 < size < len
    ensures CeilDiv(len, size) == CeilDiv(len - size, size) + 1
  {
    var a := len - 1;
    var q, r := a / size, a % size;
    assert a == q * size + r;
    assert a + size == (q + 1) * size + r;
    DivUnique(a + size, size, q + 1, r);
  }

  /** A non-empty length that fits in one piece needs exactly one. */
  lemma CeilDivOne(len: nat, size: nat)
    requires 0 < len <= size
    ensures CeilDiv(len, size) == 1
  {
    DivUnique(len + size - 1, size, 1, len - 1);
  }

  /** Multiplication by a natural number is monotone. */
  lemma MulMonotone(a: int, b: int, c: nat)
    requires a <= b
    ensures a * c <= b * c
  {
    assert b * c - a * c == (b - a) * c;
  }
}
