// Truncated and floored division side by side: the identities the canonical forms rely on,
// for divisors of either sign.
module DivModes {
  import I = IntOperator

  datatype DivMode = Trunc | Floor

  function Quot(m: DivMode, x: int, d: int): int
    requires d != 0
  {
    if m == Trunc then I.TruncDiv(x, d) else I.FloorDiv(x, d)
  }

  function Rem(m: DivMode, x: int, d: int): int
    requires d != 0
  {
    if m == Trunc then I.TruncMod(x, d) else I.FloorMod(x, d)
  }

  /** The remainders a mode allows. */
  predicate RemOk(m: DivMode, x: int, d: int, r: int) {
    if m == Floor then (if d > 0 then 0 <= r < d else d < r <= 0)
    else I.Abs(r) < I.Abs(d) && (x >= 0 ==> r >= 0) && (x <= 0 ==> r <= 0)
  }

  lemma {:induction false} QuotRem(m: DivMode, x: int, d: int)
    requires d != 0
    ensures x == Quot(m, x, d) * d + Rem(m, x, d) && RemOk(m, x, d, Rem(m, x, d))
  {
    I.TruncDivMod(x, d);
    I.FloorDivMod(x, d);
  }

  /** Quotient and remainder are determined by the division equation and the remainder's range. */
  lemma {:induction false} QuotUnique(m: DivMode, x: int, d: int, q: int, r: int)
    requires d != 0 && x == q * d + r && RemOk(m, x, d, r)
    ensures Quot(m, x, d) == q && Rem(m, x, d) == r
  {
    if m == Floor {
      I.FloorUnique(x, d, q, r);
    } else {
      I.TruncDivMod(x, d);
      var q', r' := I.TruncDiv(x, d), I.TruncMod(x, d);
      assert (q' - q) * d == r - r' by { assert (q' - q) * d == q' * d - q * d; }
      if q' != q { I.MulAtLeast(q' - q, d); }
    }
  }

  // ----- division twice -----

  /** Dividing by l and then by k may be done at once. */
  predicate CanNest(m: DivMode, l: int, k: int) {
    m == Trunc || k > 0 || l == 1 || l == -1
  }

  lemma {:induction false} Nest(m: DivMode, y: int, l: int, k: int)
    requires l != 0 && k != 0 && CanNest(m, l, k)
    ensures l * k != 0
    ensures Quot(m, Quot(m, y, l), k) == Quot(m, y, l * k)
    ensures Rem(m, y, l * k) == l * Rem(m, Quot(m, y, l), k) + Rem(m, y, l)
  {
    QuotRem(m, y, l);
    var q, r := Quot(m, y, l), Rem(m, y, l);
    QuotRem(m, q, k);
    var d, n := Quot(m, q, k), Rem(m, q, k);
    NonZero(l, k);
    assert y == d * (l * k) + (l * n + r) by { Expand(d, k, n, l, r); }
    if m == Trunc {
      NestTrunc(y, l, k, q, r, d, n);
    } else {
      NestFloor(l, k, r, n);
    }
    QuotUnique(m, y, l * k, d, l * n + r);
  }

  lemma NonZero(a: int, b: int)
    requires a != 0 && b != 0
    ensures a * b != 0
  {
  }

  lemma Expand(d: int, k: int, n: int, l: int, r: int)
    ensures (d * k + n) * l + r == d * (l * k) + (l * n + r)
  {
  }

  lemma {:induction false} NestFloor(l: int, k: int, r: int, n: int)
    requires l != 0 && k != 0 && CanNest(Floor, l, k)
    requires RemOk(Floor, 0, l, r) && RemOk(Floor, 0, k, n)
    ensures RemOk(Floor, 0, l * k, l * n + r)
  {
    if l > 1 {
      Steps(l, n, k);
      Signs(l, k);
    } else if l < -1 {
      Steps(-l, n, k);
      Signs(-l, k);
      assert (-l) * n == -(l * n) && (-l) * k == -(l * k);
    }
  }

  lemma Steps(l: int, n: int, k: int)
    requires l > 0 && 0 <= n < k
    ensures 0 <= l * n <= l * k - l
  {
    assert l * n <= l * (k - 1);
  }

  lemma Signs(a: int, b: int)
    ensures a > 0 && b > 0 ==> a * b > 0
  {
  }

  lemma {:induction false} NestTrunc(y: int, l: int, k: int, q: int, r: int, d: int, n: int)
    requires l != 0 && k != 0 && y == q * l + r && RemOk(Trunc, y, l, r) && RemOk(Trunc, q, k, n)
    ensures RemOk(Trunc, y, l * k, l * n + r)
  {
    var L: int, K: int, N: int := I.Abs(l), I.Abs(k), I.Abs(n);
    AbsProduct(l, k);
    AbsProduct(l, n);
    Steps(L, N, K);
    SignOfQuotient(y, l, q, r);
    if n != 0 {
      SameSign(l, q, n);
    } else {
      assert l * n == 0;
    }
    TruncBound(y, l * k, l * n, r, L, L * K, L * N);
  }

  lemma TruncBound(y: int, P: int, T: int, r: int, L: int, LK: int, LN: int)
    requires I.Abs(P) == LK && I.Abs(T) == LN && LN <= LK - L && I.Abs(r) < L
    requires (y >= 0 ==> r >= 0) && (y <= 0 ==> r <= 0) && (y >= 0 ==> T >= 0) && (y <= 0 ==> T <= 0)
    ensures RemOk(Trunc, y, P, T + r)
  {
  }

  lemma AbsProduct(a: int, b: int)
    ensures I.Abs(a * b) == I.Abs(a) * I.Abs(b)
  {
  }

  /** A non-zero quotient times the divisor has the sign of the dividend. */
  lemma {:induction false} SignOfQuotient(y: int, l: int, q: int, r: int)
    requires l != 0 && y == q * l + r && RemOk(Trunc, y, l, r)
    ensures q != 0 ==> (q * l > 0 ==> y > 0) && (q * l < 0 ==> y < 0) && q * l != 0
    ensures y == 0 ==> q == 0
  {
    if q != 0 { I.MulAtLeast(q, l); }
  }

  lemma SameSign(l: int, q: int, n: int)
    requires l != 0 && n != 0 && (q >= 0 ==> n >= 0) && (q <= 0 ==> n <= 0)
    ensures q != 0 && (l * n > 0 <==> q * l > 0)
  {
  }

  // ----- remainders -----

  /** A remainder by a multiple of n keeps the remainder by n. */
  lemma {:induction false} RemRem(m: DivMode, x: int, u: int, n: int)
    requires u != 0 && n != 0 && I.Divides(n, u)
    ensures Rem(m, Rem(m, x, u), n) == Rem(m, x, n)
  {
    QuotRem(m, x, u);
    var y := Rem(m, x, u);
    QuotRem(m, y, n);
    var k :| u == n * k;
    var q, p := Quot(m, x, u), Quot(m, y, n);
    Regather(q, k, p, n, Rem(m, y, n));
    QuotUnique(m, x, n, q * k + p, Rem(m, y, n));
  }

  lemma Regather(q: int, k: int, p: int, n: int, t: int)
    ensures q * (n * k) + (p * n + t) == (q * k + p) * n + t
  {
  }

  /** (y / l) % k is (y % (l * k)) / l. */
  lemma {:induction false} RemOfQuot(m: DivMode, y: int, l: int, k: int)
    requires l != 0 && k != 0 && CanNest(m, l, k)
    ensures l * k != 0 && Quot(m, Rem(m, y, l * k), l) == Rem(m, Quot(m, y, l), k)
  {
    Nest(m, y, l, k);
    QuotRem(m, y, l);
    var q, r := Quot(m, y, l), Rem(m, y, l);
    QuotRem(m, q, k);
    var n := Rem(m, q, k);
    if m == Trunc {
      SignOfQuotient(y, l, q, r);
      if n != 0 { SameSign(l, q, n); }
    }
    QuotUnique(m, l * n + r, l, n, r);
  }

  /** The outer digit and the inner one, put together: s*(y / (s*c)) + (y % (s*c)) / c == y / c. */
  lemma {:induction false} Join(m: DivMode, y: int, s: int, c: int)
    requires s != 0 && c != 0
    ensures s * c != 0 && s * Quot(m, y, s * c) + Quot(m, Rem(m, y, s * c), c) == Quot(m, y, c)
  {
    NonZero(s, c);
    var n := s * c;
    QuotRem(m, y, n);
    var q, r := Quot(m, y, n), Rem(m, y, n);
    QuotRem(m, r, c);
    var p, t := Quot(m, r, c), Rem(m, r, c);
    Regather(q, s, p, c, t);
    assert c * s == s * c && q * s == s * q;
    QuotUnique(m, y, c, q * s + p, t);
  }

  /** A common factor cancels from a quotient and comes out of a remainder. */
  lemma {:induction false} Cancel(m: DivMode, q: int, k: int, s: int)
    requires k != 0 && s != 0
    ensures k * s != 0 && Quot(m, q * s, k * s) == Quot(m, q, k) && Rem(m, q * s, k * s) == s * Rem(m, q, k)
  {
    NonZero(k, s);
    QuotRem(m, q, k);
    var d, r := Quot(m, q, k), Rem(m, q, k);
    Spread(d, k, r, s);
    ScaledRem(m, q, k, s, r);
    QuotUnique(m, q * s, k * s, d, s * r);
  }

  lemma Spread(d: int, k: int, r: int, s: int)
    ensures (d * k + r) * s == d * (k * s) + s * r
  {
  }

  lemma {:induction false} ScaledRem(m: DivMode, q: int, k: int, s: int, r: int)
    requires k != 0 && s != 0 && RemOk(m, q, k, r)
    ensures RemOk(m, q * s, k * s, s * r)
  {
    if m == Floor {
      FloorScaled(k, s, r);
    } else {
      AbsProduct(s, r);
      AbsProduct(k, s);
      var S: int, R: int, K: int := I.Abs(s), I.Abs(r), I.Abs(k);
      Steps(S, R, K);
      assert S * K == K * S;
      SignScaled(q, r, s);
    }
  }

  lemma SignScaled(q: int, r: int, s: int)
    requires s != 0 && (q >= 0 ==> r >= 0) && (q <= 0 ==> r <= 0)
    ensures (q * s >= 0 ==> s * r >= 0) && (q * s <= 0 ==> s * r <= 0)
  {
  }

  lemma FloorScaled(k: int, s: int, r: int)
    requires k != 0 && s != 0 && RemOk(Floor, 0, k, r)
    ensures RemOk(Floor, 0, k * s, s * r)
  {
  }

  /** Exact division. */
  lemma {:induction false} Exact(m: DivMode, c: int, k: int)
    requires c != 0
    ensures Quot(m, c * k, c) == k && Rem(m, c * k, c) == 0
  {
    QuotUnique(m, c * k, c, k, 0);
  }

  lemma {:induction false} DivisibleExact(m: DivMode, x: int, c: int)
    requires c != 0 && I.Divides(c, x)
    ensures x == c * Quot(m, x, c) && Rem(m, x, c) == 0
  {
    var k :| x == c * k;
    Exact(m, c, k);
  }

  /** Multiples of a positive divisor leave a floored quotient whole; of a truncated one when nothing is negative. */
  lemma {:induction false} ShiftFloor(x: int, c: int, k: int)
    requires c != 0
    ensures I.FloorDiv(c * k + x, c) == k + I.FloorDiv(x, c) && I.FloorMod(c * k + x, c) == I.FloorMod(x, c)
  {
    QuotRem(Floor, x, c);
    assert c * k + x == (k + I.FloorDiv(x, c)) * c + I.FloorMod(x, c);
    I.FloorUnique(c * k + x, c, k + I.FloorDiv(x, c), I.FloorMod(x, c));
  }

  lemma {:induction false} ShiftTrunc(x: int, c: int, k: int)
    requires c != 0 && x >= 0 && c * k >= 0
    ensures I.TruncDiv(c * k + x, c) == k + I.TruncDiv(x, c) && I.TruncMod(c * k + x, c) == I.TruncMod(x, c)
  {
    QuotRem(Trunc, x, c);
    assert c * k + x == (k + I.TruncDiv(x, c)) * c + I.TruncMod(x, c);
    QuotUnique(Trunc, c * k + x, c, k + I.TruncDiv(x, c), I.TruncMod(x, c));
  }

  lemma {:induction false} SmallQuot(m: DivMode, x: int, c: int)
    requires 0 <= x < c
    ensures Quot(m, x, c) == 0 && Rem(m, x, c) == x
  {
    QuotUnique(m, x, c, 0, x);
  }
}
