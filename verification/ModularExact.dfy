// The congruence analysis is not only right: what the operations give is exactly the set of results,
// or the finest class around them.
module ModularExact {
  import opened DivModes
  import opened ModularSet
  import I = IntOperator

  lemma Scaled(p: int, u: int, q: int, w: int, s: int)
    ensures p * (u * s) + q * (w * s) == (p * u + q * w) * s
  {
  }

  lemma SignMoved(g: int, k: int)
    ensures I.Abs(g) * k == g * (if g >= 0 then k else -k)
  {
  }

  /** Every multiple of the gcd is a combination. */
  lemma {:induction false} Combination(p: int, q: int, t: int) returns (i: int, j: int)
    requires I.Divides(I.Gcd(p, q), t)
    ensures p * i + q * j == t
  {
    I.Bezout(p, q);
    var (g, u, w) := I.ExtGcd(p, q);
    var k :| t == I.Gcd(p, q) * k;
    var s := if g >= 0 then k else -k;
    SignMoved(g, k);
    i, j := u * s, w * s;
    Scaled(p, u, q, w, s);
  }

  lemma {:induction false} InStep(a: ModEntry, t: int)
    ensures In(a.base + a.coeff * t, a) && In(a.base, a)
  {
    I.DividesMul(a.coeff, t);
    assert 0 == a.coeff * 0;
  }

  ghost predicate SumOf(a: ModEntry, b: ModEntry, z: int) {
    exists x, y :: In(x, a) && In(y, b) && z == x + y
  }

  ghost predicate DifferenceOf(a: ModEntry, b: ModEntry, z: int) {
    exists x, y :: In(x, a) && In(y, b) && z == x - y
  }

  /** The class of a sum is exactly the set of sums. */
  lemma {:induction false} AddExact(a: ModEntry, b: ModEntry, z: int)
    ensures In(z, AddEntry(a, b)) <==> SumOf(a, b, z)
  {
    var g := I.Gcd(a.coeff, b.coeff);
    MakeEntryIn(g, a.base + b.base, z);
    if In(z, AddEntry(a, b)) {
      var i, j := Combination(a.coeff, b.coeff, z - (a.base + b.base));
      InStep(a, i);
      InStep(b, j);
      assert z == (a.base + a.coeff * i) + (b.base + b.coeff * j);
    }
    if SumOf(a, b, z) {
      var x, y :| In(x, a) && In(y, b) && z == x + y;
      AddSound(a, b, x, y);
    }
  }

  lemma {:induction false} SubExact(a: ModEntry, b: ModEntry, z: int)
    ensures In(z, SubEntry(a, b)) <==> DifferenceOf(a, b, z)
  {
    var g := I.Gcd(a.coeff, b.coeff);
    MakeEntryIn(g, a.base - b.base, z);
    if In(z, SubEntry(a, b)) {
      var i, j := Combination(a.coeff, b.coeff, z - (a.base - b.base));
      InStep(a, i);
      InStep(b, -j);
      assert b.coeff * (-j) == -(b.coeff * j);
      assert z == (a.base + a.coeff * i) - (b.base + b.coeff * (-j));
    }
    if DifferenceOf(a, b, z) {
      var x, y :| In(x, a) && In(y, b) && z == x - y;
      AddSound(a, b, x, y);
    }
  }

  /** All products are congruent modulo d. */
  ghost predicate ProductsAgree(a: ModEntry, b: ModEntry, d: int) {
    forall x, y :: In(x, a) && In(y, b) ==> I.Divides(d, x * y - a.base * b.base)
  }

  lemma Corner(p: int, q: int, n: int, m: int)
    ensures n * (m + q * 1) - n * m == n * q && (n + p * 1) * m - n * m == p * m
    ensures (n + p * 1) * (m + q * 1) - n * m == p * q + (p * m + n * q)
  {
  }

  /** The products at the corners of the two bases. */
  lemma {:induction false} CornersDivide(a: ModEntry, b: ModEntry, d: int)
    requires ProductsAgree(a, b, d)
    ensures I.Divides(d, a.coeff * b.coeff) && I.Divides(d, a.coeff * b.base) && I.Divides(d, a.base * b.coeff)
  {
    var p, q, n, m := a.coeff, b.coeff, a.base, b.base;
    InStep(a, 1);
    InStep(b, 1);
    var x, y := n + p * 1, m + q * 1;
    assert I.Divides(d, n * y - n * m) && I.Divides(d, x * m - n * m) && I.Divides(d, x * y - n * m);
    Corner(p, q, n, m);
    I.DividesLinear(d, p * m, n * q, 1, 1);
    I.DividesLinear(d, x * y - n * m, 1 * (p * m) + 1 * (n * q), 1, -1);
    assert 1 * (x * y - n * m) + -1 * (1 * (p * m) + 1 * (n * q)) == p * q;
  }

  lemma {:induction false} ProductsDivide(a: ModEntry, b: ModEntry, d: int, g: int)
    requires g == I.Gcd(a.coeff * b.coeff, I.Gcd(a.coeff * b.base, a.base * b.coeff)) && I.Divides(d, g)
    ensures ProductsAgree(a, b, d)
  {
    forall x, y | In(x, a) && In(y, b) ensures I.Divides(d, x * y - a.base * b.base) {
      MulSound(a, b, x, y);
      MakeEntryIn(g, a.base * b.base, x * y);
      I.DividesTrans(d, g, x * y - a.base * b.base);
    }
  }

  /** The class of a product is the finest one: whatever all products agree modulo divides its coefficient. */
  lemma {:induction false} MulFinest(a: ModEntry, b: ModEntry, d: int)
    ensures I.Divides(d, MulEntry(a, b).coeff) <==> ProductsAgree(a, b, d)
  {
    var p, q, n, m := a.coeff, b.coeff, a.base, b.base;
    var h := I.Gcd(p * m, n * q);
    var g := I.Gcd(p * q, h);
    I.GcdSpec(p * m, n * q, d);
    I.GcdSpec(p * q, h, d);
    if I.Divides(d, g) { ProductsDivide(a, b, d, g); }
    if ProductsAgree(a, b, d) { CornersDivide(a, b, d); }
  }

  lemma {:induction false} ProductClass(a: ModEntry, b: ModEntry, z: int)
    ensures In(z, MulEntry(a, b)) <==> I.Divides(MulEntry(a, b).coeff, z - a.base * b.base)
  {
    var g := I.Gcd(a.coeff * b.coeff, I.Gcd(a.coeff * b.base, a.base * b.coeff));
    MakeEntryIn(g, a.base * b.base, z);
  }

  lemma ScaledStep(n: int, p: int, t: int, c: int)
    ensures (n + p * t) * c - n * c == (p * c) * t
  {
  }

  /** A multiple of the class by a constant is exactly the set of multiples. */
  lemma {:induction false} ScaledMember(a: ModEntry, c: int, z: int) returns (x: int)
    requires In(z, MulEntry(a, ModEntry(0, c)))
    ensures In(x, a) && x * c == z
  {
    var p, n, b := a.coeff, a.base, ModEntry(0, c);
    forall x, y | In(x, a) && In(y, b) ensures I.Divides(p * c, x * y - n * c) {
      var t :| x - n == p * t;
      ScaledStep(n, p, t, c);
      I.DividesMul(p * c, t);
    }
    MulFinest(a, b, p * c);
    ProductClass(a, b, z);
    I.DividesTrans(p * c, MulEntry(a, b).coeff, z - n * c);
    var k :| z - n * c == (p * c) * k;
    InStep(a, k);
    ScaledStep(n, p, k, c);
    x := n + p * k;
  }

  // ----- divisions by a constant -----

  ghost predicate QuotientOf(a: ModEntry, val: int, z: int)
    requires val != 0
  {
    exists x :: In(x, a) && I.FloorDiv(x, val) == z
  }

  /** Where it does not give up, the class of a floored quotient is exactly the set of quotients. */
  lemma {:induction false} DivExact(a: ModEntry, val: int, z: int)
    requires val != 0 && Normal(a) && I.Divides(val, a.coeff) && (a.base == 0 || (a.base > 0 && val > 0))
    ensures In(z, DivEntry(a, val, true)) <==> QuotientOf(a, val, z)
  {
    I.ModZero(a.coeff, val);
    if In(z, DivEntry(a, val, true)) {
      I.ExactDiv(val, a.coeff);
      var k := I.TruncDiv(a.coeff, val);
      if a.base == 0 { QuotientAtZero(a, val, k, z); } else { QuotientShifted(a, val, k, z); }
    }
    if QuotientOf(a, val, z) {
      var x :| In(x, a) && I.FloorDiv(x, val) == z;
      DivSound(a, val, x, Floor, true);
    }
  }

  lemma {:induction false} QuotientAtZero(a: ModEntry, val: int, k: int, z: int)
    requires val != 0 && a.base == 0 && a.coeff == val * k && In(z, MakeEntry(I.Abs(k), 0))
    ensures QuotientOf(a, val, z)
  {
    MakeEntryIn(I.Abs(k), 0, z);
    var t :| z - 0 == I.Abs(k) * t;
    var s := if k >= 0 then t else -t;
    SignMoved(k, t);
    InStep(a, s);
    Assoc3(val, k, s);
    I.ExactQuotient(val, z);
    assert In(val * z, a);
  }

  lemma {:induction false} QuotientShifted(a: ModEntry, val: int, k: int, z: int)
    requires val > 0 && a.base > 0 && a.coeff >= 0 && a.coeff == val * k
    requires In(z, MakeEntry(k, I.TruncDiv(a.base, val)))
    ensures QuotientOf(a, val, z)
  {
    NonNegativeQuotient(a.coeff, val, k);
    MakeEntryIn(k, I.TruncDiv(a.base, val), z);
    var t :| z - I.TruncDiv(a.base, val) == k * t;
    InStep(a, t);
    FloorIsTrunc(a.base, val, Trunc);
    ShiftFloor(a.base, val, k * t);
    Assoc3(val, k, t);
    assert In(a.base + a.coeff * t, a) && I.FloorDiv(a.base + a.coeff * t, val) == z;
  }

  ghost predicate RemainderOf(a: ModEntry, val: int, z: int)
    requires val != 0
  {
    exists x :: In(x, a) && I.FloorMod(x, val) == z
  }

  /** Below the divisor, the class of a floored remainder has exactly the remainders. */
  lemma {:induction false} ModExact(a: ModEntry, val: int, z: int)
    requires val > 0 && 0 <= z < val && Normal(a) && (a.coeff == 0 ==> a.base >= 0)
    ensures In(z, ModByEntry(a, val, true)) <==> RemainderOf(a, val, z)
  {
    var g := I.Gcd(a.coeff, val);
    I.GcdSpec(a.coeff, val, g);
    if In(z, ModByEntry(a, val, true)) {
      I.TruncDivMod(a.base, g);
      MakeEntryIn(g, I.TruncMod(a.base, g), z);
      SameClass(g, z, a.base, I.TruncMod(a.base, g), I.TruncDiv(a.base, g));
      var i, j := Combination(a.coeff, val, z - a.base);
      InStep(a, i);
      var x := a.base + a.coeff * i;
      assert x == (-j) * val + z by { assert (-j) * val == -(val * j); }
      QuotUnique(Floor, x, val, -j, z);
      assert In(x, a) && I.FloorMod(x, val) == z;
    }
    if RemainderOf(a, val, z) {
      var x :| In(x, a) && I.FloorMod(x, val) == z;
      ModSound(a, val, x, Floor, true);
    }
  }

  // ----- unions -----

  ghost predicate InEither(z: int, a: ModEntry, b: ModEntry) { In(z, a) || In(z, b) }

  /** All members of both are congruent to n modulo d. */
  ghost predicate MembersAgree(a: ModEntry, b: ModEntry, d: int, n: int) {
    forall z :: InEither(z, a, b) ==> I.Divides(d, z - n)
  }

  lemma {:induction false} AgreeOnBases(a: ModEntry, b: ModEntry, d: int, n: int)
    ensures MembersAgree(a, b, d, n) <==>
      I.Divides(d, a.coeff) && I.Divides(d, b.coeff) && I.Divides(d, a.base - n) && I.Divides(d, b.base - n)
  {
    if MembersAgree(a, b, d, n) {
      StepDivides(a, b, d, n, a);
      StepDivides(a, b, d, n, b);
    }
    if I.Divides(d, a.coeff) && I.Divides(d, b.coeff) && I.Divides(d, a.base - n) && I.Divides(d, b.base - n) {
      forall z | InEither(z, a, b) ensures I.Divides(d, z - n) {
        if In(z, a) { MemberDivides(a, d, n, z); } else { MemberDivides(b, d, n, z); }
      }
    }
  }

  lemma {:induction false} StepDivides(a: ModEntry, b: ModEntry, d: int, n: int, c: ModEntry)
    requires MembersAgree(a, b, d, n) && (c == a || c == b)
    ensures I.Divides(d, c.coeff) && I.Divides(d, c.base - n)
  {
    InStep(c, 1);
    assert InEither(c.base, a, b) && InEither(c.base + c.coeff * 1, a, b);
    I.DividesLinear(d, c.base + c.coeff * 1 - n, c.base - n, 1, -1);
    assert 1 * (c.base + c.coeff * 1 - n) + -1 * (c.base - n) == c.coeff;
  }

  lemma {:induction false} MemberDivides(c: ModEntry, d: int, n: int, z: int)
    requires In(z, c) && I.Divides(d, c.coeff) && I.Divides(d, c.base - n)
    ensures I.Divides(d, z - n)
  {
    I.DividesTrans(d, c.coeff, z - c.base);
    I.DividesLinear(d, z - c.base, c.base - n, 1, 1);
    assert 1 * (z - c.base) + 1 * (c.base - n) == z - n;
  }

  /**
   * The union of two classes that meet is the finest class around both; of classes that do not, it keeps only what
   * every member is a multiple of.
   */
  lemma {:induction false} UnionExact(a: ModEntry, b: ModEntry, d: int)
    requires a.coeff != 0 || b.coeff != 0
    ensures var c := I.Gcd(a.coeff, b.coeff);
      c != 0 && (I.Divides(d, Union(a, b).coeff) <==>
        if I.TruncMod(a.base, c) == I.TruncMod(b.base, c) then MembersAgree(a, b, d, a.base)
        else MembersAgree(a, b, d, 0))
  {
    var c := I.Gcd(a.coeff, b.coeff);
    I.GcdSpec(a.coeff, b.coeff, d);
    I.TruncDivMod(a.base, c);
    I.TruncDivMod(b.base, c);
    var r, s := I.TruncMod(a.base, c), I.TruncMod(b.base, c);
    if r == s {
      AgreeOnBases(a, b, d, a.base);
      assert b.base - a.base == c * (I.TruncDiv(b.base, c) - I.TruncDiv(a.base, c));
      I.DividesMul(c, I.TruncDiv(b.base, c) - I.TruncDiv(a.base, c));
      if I.Divides(d, c) { I.DividesTrans(d, c, b.base - a.base); }
      assert a.base - a.base == d * 0;
    } else {
      AgreeOnBases(a, b, d, 0);
      I.GcdSpec(r, s, d);
      I.GcdSpec(I.Gcd(r, s), c, d);
      if I.Divides(d, c) {
        ReducedDivides(d, c, a.base, I.TruncDiv(a.base, c), r);
        ReducedDivides(d, c, b.base, I.TruncDiv(b.base, c), s);
      }
    }
  }

  lemma {:induction false} ReducedDivides(d: int, c: int, n: int, q: int, r: int)
    requires n == q * c + r && I.Divides(d, c)
    ensures I.Divides(d, n - 0) <==> I.Divides(d, r)
  {
    if I.Divides(d, n) { I.DividesLinear(d, n, c, 1, -q); }
    if I.Divides(d, r) { I.DividesLinear(d, r, c, 1, q); }
  }
}
