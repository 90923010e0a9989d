/** Facts about products, powers of two and remainders that the solver needs spelled out. */
module Arithmetic {

  function Pow2(m: nat): (r: nat)
    ensures r > 0
  {
    if m == 0 then 1 else 2 * Pow2(m - 1)
  }

  lemma MultiplesSpread(d: int, size: nat)
    ensures d >= 1 ==> d * size >= size
    ensures d <= -1 ==> d * size <= -(size as int)
    ensures d == 0 ==> d * size == 0
  {
    if d >= 1 { assert d * size == (d - 1) * size + size && (d - 1) * size >= 0; }
    if d <= -1 { assert d * size == -((-d - 1) * size) - size && (-d - 1) * size >= 0; }
  }

  /** A quotient and remainder found by any means are the quotient and the remainder. */
  lemma DivModUnique(x: int, q: int, r: nat, size: nat)
    requires x == q * size + r && r < size
    ensures x % size == r && x / size == q
  {
    var d := x / size - q;
    assert d * size == (x / size) * size - q * size;
    MultiplesSpread(d, size);
  }

  lemma AddMultiple(x: int, q: int, size: nat)
    requires size > 0
    ensures (x + q * size) % size == x % size
  {
    assert x + q * size == (x / size + q) * size + x % size by {
      assert (x / size + q) * size == (x / size) * size + q * size;
    }
    DivModUnique(x + q * size, x / size + q, x % size, size);
  }

  lemma SameRemainder(x: int, y: int, size: nat)
    requires size > 0 && x % size == y % size
    ensures y - x == (y / size - x / size) * size
  {
    assert (y / size - x / size) * size == (y / size) * size - (x / size) * size;
  }

  lemma OddTimesOdd(a: nat, b: nat)
    requires a % 2 == 1 && b % 2 == 1
    ensures (a * b) % 2 == 1
  {
    var x, y := a / 2, b / 2;
    assert a * b == (2 * x + 1) * (2 * y + 1) == 2 * (2 * x * y + x + y) + 1;
  }

  /** A power of two that divides `a * b`, with `a` odd, divides `b`. */
  lemma {:induction false} PowerDividesEvenFactor(m: nat, a: nat, b: nat, q: int) returns (r: int)
    requires a % 2 == 1 && a * b == q * Pow2(m)
    ensures b == r * Pow2(m)
  {
    if m == 0 {
      r := b;
    } else {
      assert q * (2 * Pow2(m - 1)) == 2 * (q * Pow2(m - 1));
      if b % 2 == 1 { OddTimesOdd(a, b); }
      assert a * (2 * (b / 2)) == 2 * (a * (b / 2));
      r := PowerDividesEvenFactor(m - 1, a, b / 2, q);
      assert r * (2 * Pow2(m - 1)) == 2 * (r * Pow2(m - 1));
    }
  }

  /** An odd number times a smaller positive number is no multiple of a power of two. */
  lemma OddTimesSmall(odd: nat, small: nat, m: nat, q: int)
    requires odd % 2 == 1 && 0 < small < Pow2(m)
    ensures odd * small != q * Pow2(m)
  {
    if odd * small == q * Pow2(m) {
      var r := PowerDividesEvenFactor(m, odd, small, q);
      MultiplesSpread(r, Pow2(m));
    }
  }
}
