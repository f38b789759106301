/** Facts about integer division that the address arithmetic of the memory map needs. */
module Arith {

  /** Dafny's `/` and `%` are Euclidean; for a positive divisor this is JavaScript's
      `Math.floor(a / b)` and the non-negative remainder. The quotient and remainder
      are the only ones that satisfy the division identity. */
  lemma DivModUnique(a: int, b: int, q: int, r: int)
    requires b > 0 && a == q * b + r && 0 <= r < b
    ensures a / b == q && a % b == r
  {
    var d := a / b - q;
    assert d * b == r - a % b;
    if d >= 1 {
      MulMonotone(d, b);
      assert false;
    } else if d <= -1 {
      MulMonotoneNeg(d, b);
      assert false;
    }
  }

  lemma MulMonotone(m: int, b: int)
    requires m >= 1 && b > 0
    ensures m * b >= b
  {
  }

  lemma MulMonotoneNeg(m: int, b: int)
    requires m <= -1 && b > 0
    ensures m * b <= -b
  {
  }

  lemma MulNonNegative(a: int, b: int)
    requires a >= 0 && b >= 0
    ensures a * b >= 0
  {
  }

  /** A whole number of sectors has remainder zero. */
  lemma MultipleMod(k: int, b: int)
    requires b > 0
    ensures (k * b) / b == k && (k * b) % b == 0
  {
    DivModUnique(k * b, b, k, 0);
  }

  /** Adding whole multiples of the divisor shifts the quotient and keeps the remainder. */
  lemma AddMultiple(a: int, k: int, b: int)
    requires b > 0
    ensures (a + k * b) / b == a / b + k && (a + k * b) % b == a % b
  {
    DivModUnique(a + k * b, b, a / b + k, a % b);
  }

  lemma MulLe(a: int, b: int, c: int)
    requires a <= b && c >= 0
    ensures a * c <= b * c
  {
    MulNonNegative(b - a, c);
    assert (b - a) * c == b * c - a * c;
  }

  /** Euclidean division by a positive divisor splits `a` into whole divisors and a
      remainder, and a smaller quotient means a smaller multiple. */
  lemma QuotientBelow(a: int, m: int, b: int)
    requires b > 0 && a < m * b
    ensures a / b < m && (a / b + 1) * b <= m * b
  {
    var q := a / b;
    assert q * b + a % b == a;
    if q >= m {
      MulLe(m, q, b);
      assert false;
    }
    MulLe(q + 1, m, b);
  }
}
