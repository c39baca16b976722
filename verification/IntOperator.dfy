// Integer operators shared by every analysis: truncated and floored division,
// divisibility, the extended Euclidean algorithm and its gcd/lcm clients.
module IntOperator {

  function Abs(x: int): nat {
    if x >= 0 then x else -x
  }

  // ----- truncated and floored division -----

  /** Division that rounds toward zero (the machine operator). */
  function TruncDiv(x: int, y: int): int
    requires y != 0
  {
    if (x >= 0) == (y > 0) then Abs(x) / Abs(y) else -(Abs(x) / Abs(y))
  }

  /** Remainder that takes the sign of the dividend. */
  function TruncMod(x: int, y: int): int
    requires y != 0
  {
    if x >= 0 then Abs(x) % Abs(y) else -(Abs(x) % Abs(y))
  }

  /** Floored division, for a divisor of either sign. */
  function FloorDiv(x: int, y: int): int
    requires y != 0
  {
    if y > 0 then x / y else (-x) / (-y)
  }

  /** Floored remainder; it takes the sign of the divisor. */
  function FloorMod(x: int, y: int): int
    requires y != 0
  {
    if y > 0 then x % y else -((-x) % (-y))
  }

  /** The machine remainder and quotient rebuild the dividend. */
  lemma {:induction false} TruncDivMod(x: int, y: int)
    requires y != 0
    ensures x == TruncDiv(x, y) * y + TruncMod(x, y)
    ensures Abs(TruncMod(x, y)) < Abs(y)
    ensures x >= 0 ==> TruncMod(x, y) >= 0
    ensures x <= 0 ==> TruncMod(x, y) <= 0
  {
    var q, r := Abs(x) / Abs(y), Abs(x) % Abs(y);
    assert Abs(x) == q * Abs(y) + r;
    assert q * Abs(y) == if y > 0 then q * y else -(q * y);
  }

  lemma {:induction false} FloorDivMod(x: int, y: int)
    requires y != 0
    ensures x == FloorDiv(x, y) * y + FloorMod(x, y)
    ensures y > 0 ==> 0 <= FloorMod(x, y) < y
    ensures y < 0 ==> y < FloorMod(x, y) <= 0
  {
    if y < 0 {
      var q, r := (-x) / (-y), (-x) % (-y);
      assert -x == q * (-y) + r;
      assert q * (-y) == -(q * y);
    }
  }

  /** The source computes floor division from the machine operators by correcting
      the quotient when the remainder has the wrong sign. */
  function FloorDivFromTrunc(x: int, y: int): int
    requires y != 0
  {
    var rmod := TruncMod(x, y);
    if (y >= 0 && rmod >= 0) || (y < 0 && rmod <= 0) then TruncDiv(x, y) else TruncDiv(x, y) - 1
  }

  function FloorModFromTrunc(x: int, y: int): int
    requires y != 0
  {
    var rmod := TruncMod(x, y);
    if (y >= 0 && rmod >= 0) || (y < 0 && rmod <= 0) then rmod else rmod + y
  }

  lemma {:induction false} MulAtLeast(d: int, y: int)
    requires d != 0
    ensures Abs(d * y) >= Abs(y)
  {
  }

  /** Quotient and remainder are determined by the division equation and the remainder's range. */
  lemma {:induction false} FloorUnique(x: int, y: int, q: int, r: int)
    requires y != 0
    requires x == q * y + r
    requires y > 0 ==> 0 <= r < y
    requires y < 0 ==> y < r <= 0
    ensures FloorDiv(x, y) == q && FloorMod(x, y) == r
  {
    FloorDivMod(x, y);
    var d := FloorDiv(x, y) - q;
    assert d * y == r - FloorMod(x, y) by {
      assert d * y == FloorDiv(x, y) * y - q * y;
    }
    if d != 0 { MulAtLeast(d, y); }
  }

  lemma {:induction false} FloorFromTruncIsFloor(x: int, y: int)
    requires y != 0
    ensures FloorDivFromTrunc(x, y) == FloorDiv(x, y)
    ensures FloorModFromTrunc(x, y) == FloorMod(x, y)
  {
    TruncDivMod(x, y);
    assert (TruncDiv(x, y) - 1) * y == TruncDiv(x, y) * y - y;
    FloorUnique(x, y, FloorDivFromTrunc(x, y), FloorModFromTrunc(x, y));
  }

  // ----- divisibility -----

  /** d divides n; zero divides only zero. */
  ghost predicate Divides(d: int, n: int) {
    exists k :: n == d * k
  }

  lemma {:induction false} DividesMul(d: int, k: int)
    ensures Divides(d, d * k)
  {
  }

  /** Exact machine division by a divisor returns the cofactor. */
  lemma {:induction false} ExactDiv(d: int, n: int)
    requires d != 0 && Divides(d, n)
    ensures n == d * TruncDiv(n, d) && TruncMod(n, d) == 0
    ensures FloorDiv(n, d) == TruncDiv(n, d) && FloorMod(n, d) == 0
  {
    var k :| n == d * k;
    FloorUnique(n, d, k, 0);
    TruncDivMod(n, d);
    var e := k - TruncDiv(n, d);
    assert e * d == TruncMod(n, d) by {
      assert e * d == k * d - TruncDiv(n, d) * d;
    }
    if e != 0 { MulAtLeast(e, d); }
  }

  /** A remainder of zero, in either rounding, is divisibility. */
  lemma {:induction false} ModZero(n: int, d: int)
    requires d != 0
    ensures TruncMod(n, d) == 0 <==> Divides(d, n)
    ensures FloorMod(n, d) == 0 <==> Divides(d, n)
  {
    if Divides(d, n) {
      ExactDiv(d, n);
    } else {
      TruncDivMod(n, d);
      FloorDivMod(n, d);
      assert n != d * TruncDiv(n, d) && n != d * FloorDiv(n, d);
    }
  }

  lemma {:induction false} DividesLinear(d: int, m: int, n: int, a: int, b: int)
    requires Divides(d, m) && Divides(d, n)
    ensures Divides(d, a * m + b * n)
  {
    var p :| m == d * p;
    var q :| n == d * q;
    assert a * m + b * n == d * (a * p + b * q) by {
      assert a * (d * p) == d * (a * p);
      assert b * (d * q) == d * (b * q);
    }
  }

  lemma {:induction false} DividesTrans(d: int, m: int, n: int)
    requires Divides(d, m) && Divides(m, n)
    ensures Divides(d, n)
  {
    var p :| m == d * p;
    var q :| n == m * q;
    assert n == d * (p * q);
  }

  lemma {:induction false} DividesAntisym(d: int, e: int)
    requires Divides(d, e) && Divides(e, d)
    ensures Abs(d) == Abs(e)
  {
    var p :| e == d * p;
    var q :| d == e * q;
    if e != 0 && d != 0 {
      MulAtLeast(p, d);
      MulAtLeast(q, e);
    }
  }

  lemma {:induction false} DividesAbs(d: int, n: int)
    ensures Divides(d, n) <==> Divides(d, Abs(n))
    ensures Divides(d, n) <==> Divides(Abs(d), n)
  {
    if k :| n == d * k {
      assert -n == d * (-k) && n == (-d) * (-k);
    }
    if k :| Abs(n) == d * k {
      var m: int := Abs(n);
      assert -m == d * (-k);
    }
    if k :| n == Abs(d) * k {
      var m: int := Abs(d);
      assert n == (-m) * (-k);
    }
  }

  // ----- greatest common divisor -----

  function GcdNat(a: nat, b: nat): nat
    decreases b
  {
    if b == 0 then a else GcdNat(b, a % b)
  }

  /** The non-negative greatest common divisor; Gcd(a, 0) is |a|. */
  function Gcd(a: int, b: int): nat {
    GcdNat(Abs(a), Abs(b))
  }

  lemma {:induction false} GcdNatSpec(a: nat, b: nat, d: int)
    ensures Divides(GcdNat(a, b), a) && Divides(GcdNat(a, b), b)
    ensures Divides(d, a) && Divides(d, b) ==> Divides(d, GcdNat(a, b))
    decreases b
  {
    if b == 0 {
      assert a == GcdNat(a, b) * 1 && b == GcdNat(a, b) * 0;
    } else {
      var g := GcdNat(b, a % b);
      GcdNatSpec(b, a % b, d);
      assert a == (a / b) * b + 1 * (a % b);
      DividesLinear(g, b, a % b, a / b, 1);
      if Divides(d, a) && Divides(d, b) {
        DividesLinear(d, a, b, 1, -(a / b));
        assert a % b == 1 * a + (-(a / b)) * b;
      }
    }
  }

  /** Gcd is the greatest lower bound of its arguments in the divisibility order. */
  lemma {:induction false} GcdSpec(a: int, b: int, d: int)
    ensures Divides(Gcd(a, b), a) && Divides(Gcd(a, b), b)
    ensures Divides(d, Gcd(a, b)) <==> Divides(d, a) && Divides(d, b)
    ensures Gcd(a, b) == 0 <==> a == 0 && b == 0
  {
    GcdNatSpec(Abs(a), Abs(b), d);
    var g := Gcd(a, b);
    DividesAbs(g, a);
    DividesAbs(g, b);
    DividesAbs(d, a);
    DividesAbs(d, b);
    if Divides(d, g) {
      DividesTrans(d, g, a);
      DividesTrans(d, g, b);
    }
  }

  /** The loop of the source, which swaps so that the larger operand comes first. */
  method ZeroAwareGCD(a0: int, b0: int) returns (g: int)
    ensures g == Gcd(a0, b0)
  {
    var a, b := Abs(a0), Abs(b0);
    if a < b {
      GcdNatSwap(a, b);
      a, b := b, a;
    }
    if b == 0 {
      return a;
    }
    while a % b != 0
      invariant b > 0
      invariant GcdNat(a, b) == Gcd(a0, b0)
      decreases b
    {
      a := a % b;
      a, b := b, a;
    }
    g := b;
  }

  lemma {:induction false} GcdNatSwap(a: nat, b: nat)
    requires a < b
    ensures GcdNat(a, b) == GcdNat(b, a)
  {
    assert a % b == a by { FloorUnique(a, b, 0, a); }
  }

  // ----- extended Euclid -----

  /** The iteration of the extended Euclidean algorithm on remainders and first coefficients. */
  function EuclidLoop(oldR: int, r: int, oldS: int, s: int): (int, int)
    decreases Abs(r)
  {
    if r == 0 then (oldR, oldS)
    else
      TruncDivMod(oldR, r);
      var q := TruncDiv(oldR, r);
      EuclidLoop(r, oldR - q * r, s, oldS - q * s)
  }

  /** (g, x, y) with a * x + b * y == g; g may be negative when b is. */
  function ExtGcd(a: int, b: int): (int, int, int) {
    var (g, t) := EuclidLoop(Abs(a), b, 1, 0);
    var x := if a >= 0 then t else -t;
    (g, x, if b != 0 then TruncDiv(g - x * a, b) else 1)
  }

  method ExtendedEuclidean(a: int, b: int) returns (g: int, x: int, y: int)
    ensures (g, x, y) == ExtGcd(a, b)
  {
    var s, oldS := 0, 1;
    var r, oldR := b, if a >= 0 then a else -a;
    while r != 0
      invariant EuclidLoop(oldR, r, oldS, s) == EuclidLoop(Abs(a), b, 1, 0)
      decreases Abs(r)
    {
      var q := TruncDiv(oldR, r);
      TruncDivMod(oldR, r);
      var tmp := oldR;
      oldR := r;
      r := tmp - q * r;
      tmp := oldS;
      oldS := s;
      s := tmp - q * s;
    }
    x := if a >= 0 then oldS else -oldS;
    if b != 0 {
      y := TruncDiv(oldR - x * a, b);
    } else {
      y := 1;
    }
    g := oldR;
  }

  lemma {:induction false} EuclidLoopSpec(a: int, b: int, oldR: int, r: int, oldS: int, s: int)
    requires Divides(b, oldR - a * oldS) && Divides(b, r - a * s)
    ensures var (g, t) := EuclidLoop(oldR, r, oldS, s);
      && Divides(b, g - a * t)
      && Divides(g, oldR) && Divides(g, r)
      && (oldR >= 0 && r >= 0 ==> g >= 0)
    decreases Abs(r)
  {
    if r == 0 {
      assert oldR == oldR * 1 && r == oldR * 0;
    } else {
      TruncDivMod(oldR, r);
      var q := TruncDiv(oldR, r);
      var r', s' := oldR - q * r, oldS - q * s;
      DividesLinear(b, oldR - a * oldS, r - a * s, 1, -q);
      EuclidStep(a, oldR, r, oldS, s, q);
      EuclidLoopSpec(a, b, r, r', s, s');
      var g := EuclidLoop(r, r', s, s').0;
      DividesLinear(g, r, r', q, 1);
      assert q * r + 1 * r' == oldR;
    }
  }

  lemma {:induction false} EuclidStep(a: int, oldR: int, r: int, oldS: int, s: int, q: int)
    ensures 1 * (oldR - a * oldS) + (-q) * (r - a * s) == (oldR - q * r) - a * (oldS - q * s)
  {
    assert (-q) * (r - a * s) == -(q * r) + q * (a * s);
    assert a * (oldS - q * s) == a * oldS - a * (q * s);
    assert q * (a * s) == a * (q * s);
  }

  lemma {:induction false} BezoutIdentity(a: int, b: int)
    ensures var (g, x, y) := ExtGcd(a, b);
      && a * x + b * y == g
      && Divides(g, a) && Divides(g, b)
      && (b >= 0 ==> g >= 0)
  {
    var A: int := Abs(a);
    assert Divides(b, A - A * 1) && Divides(b, b - A * 0) by {
      assert A - A * 1 == b * 0 && b - A * 0 == b * 1;
    }
    EuclidLoopSpec(A, b, A, b, 1, 0);
    var (g, t) := EuclidLoop(A, b, 1, 0);
    var x := if a >= 0 then t else -t;
    SignedProduct(a, A, t, x);
    DividesAbs(g, a);
    SecondCoefficient(a, b, g, x);
  }

  lemma SecondCoefficient(a: int, b: int, g: int, x: int)
    requires Divides(b, g - x * a)
    ensures b != 0 ==> a * x + b * TruncDiv(g - x * a, b) == g
    ensures b == 0 ==> a * x == g
  {
    if b != 0 { ExactDiv(b, g - x * a); }
  }

  lemma SignedProduct(a: int, A: int, t: int, x: int)
    requires if a >= 0 then A == a && x == t else A == -a && x == -t
    ensures A * t == x * a
  {
  }

  /** Bezout's identity for every combination of signs; |g| is the greatest common divisor. */
  lemma {:induction false} Bezout(a: int, b: int)
    ensures var (g, x, y) := ExtGcd(a, b);
      && a * x + b * y == g
      && Abs(g) == Gcd(a, b)
      && Divides(g, a) && Divides(g, b)
      && (b >= 0 ==> g >= 0)
  {
    BezoutIdentity(a, b);
    var (g, x, y) := ExtGcd(a, b);
    CombinationIsGcd(a, b, g, x, y);
  }

  /** A common divisor that is an integer combination is, up to sign, the greatest one. */
  lemma {:induction false} CombinationIsGcd(a: int, b: int, g: int, x: int, y: int)
    requires a * x + b * y == g && Divides(g, a) && Divides(g, b)
    ensures Abs(g) == Gcd(a, b)
  {
    GcdSpec(a, b, g);
    var d := Gcd(a, b);
    DividesLinear(d, a, b, x, y);
    assert x * a + y * b == g;
    DividesAntisym(d, g);
  }

  /** The quotients by the gcd, with the Bezout coefficients, form a unimodular 2x2 block. */
  lemma {:induction false} BezoutUnimodular(a: int, b: int)
    requires a != 0 || b != 0
    ensures var (g, x, y) := ExtGcd(a, b);
      && g != 0
      && a == g * TruncDiv(a, g) && b == g * TruncDiv(b, g)
      && x * TruncDiv(a, g) + y * TruncDiv(b, g) == 1
  {
    Bezout(a, b);
    GcdSpec(a, b, 1);
    var (g, x, y) := ExtGcd(a, b);
    ExactDiv(g, a);
    ExactDiv(g, b);
    UnitCombination(g, x, y, TruncDiv(a, g), TruncDiv(b, g));
  }

  lemma {:induction false} UnitCombination(g: int, x: int, y: int, p: int, q: int)
    requires g != 0 && (g * p) * x + (g * q) * y == g
    ensures x * p + y * q == 1
  {
    assert (x * p + y * q) * g == 1 * g by {
      assert (g * p) * x == (x * p) * g;
      assert (g * q) * y == (y * q) * g;
    }
    CancelFactor(g, x * p + y * q, 1);
  }

  lemma {:induction false} CancelFactor(g: int, u: int, v: int)
    requires g != 0 && u * g == v * g
    ensures u == v
  {
    assert (u - v) * g == 0;
  }

  // ----- least common multiple -----

  function LeastCommonMultiple(a: int, b: int): int
    requires a != 0 || b != 0
  {
    BezoutUnimodular(a, b);
    TruncDiv(a * b, ExtGcd(a, b).0)
  }

  /** With a = g*p and b = g*q, the least common multiple is g*p*q. */
  lemma {:induction false} LcmFactors(a: int, b: int)
    requires a != 0 && b != 0
    ensures var g := ExtGcd(a, b).0;
      && g != 0
      && LeastCommonMultiple(a, b) == a * TruncDiv(b, g) == b * TruncDiv(a, g)
  {
    BezoutUnimodular(a, b);
    var g := ExtGcd(a, b).0;
    ProductOverFactor(a, b, g, TruncDiv(a, g), TruncDiv(b, g));
  }

  lemma {:induction false} ProductOverFactor(a: int, b: int, g: int, p: int, q: int)
    requires g != 0 && a == g * p && b == g * q
    ensures TruncDiv(a * b, g) == a * q == b * p
  {
    assert a * b == g * (b * p) by { assert (g * p) * b == g * (b * p); }
    assert b * p == a * q by { assert (g * q) * p == (g * p) * q; }
    ExactQuotient(g, b * p);
  }

  lemma {:induction false} ExactQuotient(g: int, k: int)
    requires g != 0
    ensures TruncDiv(g * k, g) == k && FloorDiv(g * k, g) == k
    ensures TruncMod(g * k, g) == 0 && FloorMod(g * k, g) == 0
  {
    DividesMul(g, k);
    ExactDiv(g, g * k);
    CancelFactor(g, k, TruncDiv(g * k, g));
  }

  /** A common multiple that divides every other common multiple. */
  lemma {:induction false} LcmSpec(a: int, b: int, n: int)
    requires a != 0 && b != 0
    ensures LeastCommonMultiple(a, b) != 0
    ensures Divides(LeastCommonMultiple(a, b), n) <==> Divides(a, n) && Divides(b, n)
  {
    BezoutUnimodular(a, b);
    LcmFactors(a, b);
    var (g, x, y) := ExtGcd(a, b);
    var p, q := TruncDiv(a, g), TruncDiv(b, g);
    var l := LeastCommonMultiple(a, b);
    if Divides(l, n) {
      DividesTrans(a, l, n);
      DividesTrans(b, l, n);
    }
    if Divides(a, n) && Divides(b, n) {
      var u :| n == a * u;
      var v :| n == b * v;
      CommonMultiple(a, b, p, q, x, y, l, n, u, v);
    }
  }

  lemma {:induction false} CommonMultiple(
    a: int, b: int, p: int, q: int, x: int, y: int, l: int, n: int, u: int, v: int)
    requires x * p + y * q == 1
    requires l == a * q == b * p
    requires n == a * u == b * v
    ensures Divides(l, n)
  {
    calc {
      n;
      n * (x * p + y * q);
      (b * v) * (x * p) + (a * u) * (y * q);
      { assert (b * v) * (x * p) == (b * p) * (v * x); assert (a * u) * (y * q) == (a * q) * (u * y); }
      l * (v * x) + l * (u * y);
      l * (v * x + u * y);
    }
  }
}
