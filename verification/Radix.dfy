// Division and remainder by products: the arithmetic of mixed-radix digits.
module Radix {
  import I = IntOperator

  /** Quotient and remainder by a positive divisor are unique. */
  lemma DivUnique(x: int, d: int, q: int, r: int)
    requires d > 0 && x == q * d + r && 0 <= r < d
    ensures x / d == q && x % d == r
  {
    I.FloorUnique(x, d, q, r);
  }

  lemma MulPos(a: int, b: int)
    requires a > 0 && b > 0
    ensures a * b > 0 && a * b >= a && a * b >= b
  {
  }

  /** The digits of x at place a with radix b: dividing by a*b peels both off. */
  lemma SplitDivMod(x: int, a: int, b: int)
    requires a > 0 && b > 0
    ensures a * b > 0
    ensures x / (a * b) == (x / a) / b
    ensures x % (a * b) == x % a + a * ((x / a) % b)
    ensures (x % (a * b)) / a == (x / a) % b
    ensures (x % (a * b)) % a == x % a
  {
    MulPos(a, b);
    var q, r := x / a, x % a;
    var p, u := q / b, q % b;
    Recompose(x, a, b, q, r, p, u);
    DigitBound(a, b, r, u);
    DivUnique(x, a * b, p, r + a * u);
    assert r + a * u == u * a + r;
    DivUnique(r + a * u, a, u, r);
  }

  lemma Recompose(x: int, a: int, b: int, q: int, r: int, p: int, u: int)
    requires x == q * a + r && q == p * b + u
    ensures x == p * (a * b) + (r + a * u)
  {
    assert (p * b + u) * a == p * (a * b) + a * u;
  }

  lemma DigitBound(a: int, b: int, r: int, u: int)
    requires 0 <= r < a && 0 <= u < b
    ensures 0 <= r + a * u < a * b
  {
    assert a * u <= a * (b - 1);
    assert a * (b - 1) == a * b - a;
  }

  /** Adding a multiple of the divisor shifts the quotient and keeps the remainder. */
  lemma AddMultiple(x: int, d: int, k: int)
    requires d > 0
    ensures (x + k * d) / d == x / d + k && (x + k * d) % d == x % d
  {
    var q, r := x / d, x % d;
    assert x + k * d == (q + k) * d + r;
    DivUnique(x + k * d, d, q + k, r);
  }

  /** A common positive factor cancels from a quotient and comes out of a remainder. */
  lemma CancelScale(x: int, d: int, s: int)
    requires d > 0 && s > 0
    ensures d * s > 0 && (x * s) / (d * s) == x / d && (x * s) % (d * s) == (x % d) * s
  {
    MulPos(d, s);
    var q, r := x / d, x % d;
    ScaledBound(r, d, s);
    assert x * s == q * (d * s) + r * s by { assert (q * d + r) * s == q * (d * s) + r * s; }
    DivUnique(x * s, d * s, q, r * s);
  }

  lemma ScaledBound(r: int, d: int, s: int)
    requires 0 <= r < d && s > 0
    ensures 0 <= r * s < d * s
  {
  }
}
