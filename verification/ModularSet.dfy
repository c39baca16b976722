// Congruence classes coeff * k + base, the operations on them, and their exact intersection.
module ModularSet {
  import opened DivModes
  import I = IntOperator

  /** A coefficient of zero is a single value. */
  datatype ModEntry = ModEntry(coeff: int, base: int)

  ghost predicate In(z: int, e: ModEntry) {
    I.Divides(e.coeff, z - e.base)
  }

  predicate Normal(e: ModEntry) {
    e.coeff >= 0 && (e.coeff > 0 ==> 0 <= e.base < e.coeff)
  }

  /** The constructor: a negative coefficient is flipped together with the base. */
  function MakeEntry(coeff: int, base: int): ModEntry {
    var c, b := if coeff < 0 then -coeff else coeff, if coeff < 0 then -base else base;
    if c == 0 then ModEntry(c, b)
    else
      var r := I.TruncMod(b, c);
      ModEntry(c, if r < 0 then r + c else r)
  }

  const EVERYTHING: ModEntry := ModEntry(1, 0)
  const NOTHING: ModEntry := ModEntry(0, 1)

  lemma {:induction false} EverythingHolds(z: int)
    ensures In(z, EVERYTHING)
  {
    assert z - 0 == 1 * z;
  }

  /** For a coefficient that is not negative, the class is the one asked for. */
  lemma {:induction false} MakeEntryIn(coeff: int, base: int, z: int)
    ensures Normal(MakeEntry(coeff, base))
    ensures coeff >= 0 ==> (In(z, MakeEntry(coeff, base)) <==> I.Divides(coeff, z - base))
    ensures coeff < 0 ==> (In(z, MakeEntry(coeff, base)) <==> I.Divides(-coeff, z + base))
  {
    var c, b := if coeff < 0 then -coeff else coeff, if coeff < 0 then -base else base;
    if c != 0 {
      I.TruncDivMod(b, c);
      var q, r := I.TruncDiv(b, c), MakeEntry(coeff, base).base;
      var k := if I.TruncMod(b, c) < 0 then q - 1 else q;
      assert b == k * c + r by { assert (q - 1) * c == q * c - c; }
      SameClass(c, z, b, r, k);
    }
  }

  lemma {:induction false} SameClass(c: int, z: int, b: int, r: int, k: int)
    requires b == k * c + r
    ensures I.Divides(c, z - b) <==> I.Divides(c, z - r)
  {
    assert I.Divides(c, c * k);
    if I.Divides(c, z - b) {
      I.DividesLinear(c, z - b, c * k, 1, 1);
      assert 1 * (z - b) + 1 * (c * k) == z - r;
    }
    if I.Divides(c, z - r) {
      I.DividesLinear(c, z - r, c * k, 1, -1);
      assert 1 * (z - r) + -1 * (c * k) == z - b;
    }
  }

  // ----- arithmetic -----

  function AddEntry(a: ModEntry, b: ModEntry): ModEntry {
    MakeEntry(I.Gcd(a.coeff, b.coeff), a.base + b.base)
  }

  function SubEntry(a: ModEntry, b: ModEntry): ModEntry {
    MakeEntry(I.Gcd(a.coeff, b.coeff), a.base - b.base)
  }

  function MulEntry(a: ModEntry, b: ModEntry): ModEntry {
    MakeEntry(I.Gcd(a.coeff * b.coeff, I.Gcd(a.coeff * b.base, a.base * b.coeff)), a.base * b.base)
  }

  /** A common divisor of the coefficients divides both differences. */
  lemma {:induction false} Weaken(g: int, c: int, d: int)
    requires I.Divides(g, c) && I.Divides(c, d)
    ensures I.Divides(g, d)
  {
    I.DividesTrans(g, c, d);
  }

  lemma {:induction false} AddSound(a: ModEntry, b: ModEntry, x: int, y: int)
    requires In(x, a) && In(y, b)
    ensures In(x + y, AddEntry(a, b)) && In(x - y, SubEntry(a, b))
  {
    var g := I.Gcd(a.coeff, b.coeff);
    I.GcdSpec(a.coeff, b.coeff, g);
    Weaken(g, a.coeff, x - a.base);
    Weaken(g, b.coeff, y - b.base);
    I.DividesLinear(g, x - a.base, y - b.base, 1, 1);
    I.DividesLinear(g, x - a.base, y - b.base, 1, -1);
    assert 1 * (x - a.base) + 1 * (y - b.base) == (x + y) - (a.base + b.base);
    assert 1 * (x - a.base) + -1 * (y - b.base) == (x - y) - (a.base - b.base);
    MakeEntryIn(g, a.base + b.base, x + y);
    MakeEntryIn(g, a.base - b.base, x - y);
  }

  lemma {:induction false} MulSound(a: ModEntry, b: ModEntry, x: int, y: int)
    requires In(x, a) && In(y, b)
    ensures In(x * y, MulEntry(a, b))
  {
    var p, q, n, m := a.coeff, b.coeff, a.base, b.base;
    var s :| x - n == p * s;
    var t :| y - m == q * t;
    var h := I.Gcd(p * m, n * q);
    var g := I.Gcd(p * q, h);
    I.GcdSpec(p * m, n * q, h);
    I.GcdSpec(p * q, h, g);
    I.DividesTrans(g, h, p * m);
    I.DividesTrans(g, h, n * q);
    I.DividesLinear(g, p * m, n * q, s, t);
    I.DividesLinear(g, p * q, s * (p * m) + t * (n * q), s * t, 1);
    ProductOut(x, y, p, q, n, m, s, t);
    MakeEntryIn(g, n * m, x * y);
  }

  lemma ProductOut(x: int, y: int, p: int, q: int, n: int, m: int, s: int, t: int)
    requires x - n == p * s && y - m == q * t
    ensures (s * t) * (p * q) + 1 * (s * (p * m) + t * (n * q)) == x * y - n * m
  {
    assert x == p * s + n && y == q * t + m;
    assert (p * s + n) * (q * t + m) == (p * s) * (q * t) + (p * s) * m + n * (q * t) + n * m;
    assert (p * s) * (q * t) == (s * t) * (p * q);
    assert (p * s) * m == s * (p * m);
    assert n * (q * t) == t * (n * q);
  }

  /** Division by a constant; what is not known to round down stays unknown. */
  function DivEntry(a: ModEntry, val: int, down: bool): ModEntry
    requires val != 0
  {
    if I.TruncMod(a.coeff, val) == 0 then
      if a.base == 0 then MakeEntry(I.Abs(I.TruncDiv(a.coeff, val)), 0)
      else if a.base > 0 && val > 0 && down then MakeEntry(I.TruncDiv(a.coeff, val), I.TruncDiv(a.base, val))
      else EVERYTHING
    else EVERYTHING
  }

  /** down: the quotient is floored, or the dividend is not negative. */
  lemma {:induction false} DivSound(a: ModEntry, val: int, x: int, m: DivMode, down: bool)
    requires val != 0 && In(x, a) && Normal(a) && (down ==> m == Floor || x >= 0)
    ensures In(Quot(m, x, val), DivEntry(a, val, down))
  {
    EverythingHolds(Quot(m, x, val));
    I.ModZero(a.coeff, val);
    if I.TruncMod(a.coeff, val) == 0 {
      var t :| x - a.base == a.coeff * t;
      I.ExactDiv(val, a.coeff);
      var k := I.TruncDiv(a.coeff, val);
      Assoc3(val, k, t);
      if a.base == 0 {
        DivZeroBase(val, k, t, x, m);
      } else if a.base > 0 && val > 0 && down {
        NonNegativeQuotient(a.coeff, val, k);
        DivShifted(a.base, val, k, t, x, m);
      }
    }
  }

  lemma {:induction false} DivZeroBase(val: int, k: int, t: int, x: int, m: DivMode)
    requires val != 0 && x == val * (k * t)
    ensures In(Quot(m, x, val), MakeEntry(I.Abs(k), 0))
  {
    Exact(m, val, k * t);
    MakeEntryIn(I.Abs(k), 0, k * t);
    assert I.Divides(k, k * t - 0);
    I.DividesAbs(k, k * t);
    AbsDivides(k, k * t);
  }

  lemma {:induction false} DivShifted(base: int, val: int, k: int, t: int, x: int, m: DivMode)
    requires base > 0 && val > 0 && k >= 0 && x == base + val * (k * t) && (m == Floor || x >= 0)
    ensures In(Quot(m, x, val), MakeEntry(k, I.TruncDiv(base, val)))
  {
    ShiftFloor(base, val, k * t);
    FloorIsTrunc(x, val, m);
    FloorIsTrunc(base, val, Trunc);
    MakeEntryIn(k, I.TruncDiv(base, val), Quot(m, x, val));
    assert I.Divides(k, k * t);
  }

  lemma Assoc3(v: int, k: int, t: int)
    ensures (v * k) * t == v * (k * t)
  {
  }

  lemma {:induction false} AbsDivides(k: int, n: int)
    requires I.Divides(k, n)
    ensures I.Divides(I.Abs(k), n)
  {
    var t :| n == k * t;
    if k < 0 { assert n == (-k) * (-t); }
  }

  lemma {:induction false} FloorIsTrunc(x: int, d: int, m: DivMode)
    requires d > 0 && (m == Floor || x >= 0)
    ensures Quot(m, x, d) == I.FloorDiv(x, d)
  {
    if m == Trunc {
      QuotRem(Floor, x, d);
      QuotUnique(Trunc, x, d, I.FloorDiv(x, d), I.FloorMod(x, d));
    }
  }

  lemma NonNegativeQuotient(c: int, v: int, k: int)
    requires c >= 0 && v > 0 && c == v * k
    ensures k >= 0
  {
  }

  /** Remainder by a constant. */
  function ModByEntry(a: ModEntry, val: int, down: bool): ModEntry
    requires val != 0
  {
    var g := I.Gcd(a.coeff, val);
    I.GcdSpec(a.coeff, val, g);
    if I.TruncMod(a.base, g) == 0 || (a.base > 0 && down) then MakeEntry(g, I.TruncMod(a.base, g)) else EVERYTHING
  }

  lemma {:induction false} ModSound(a: ModEntry, val: int, x: int, m: DivMode, down: bool)
    requires val != 0 && In(x, a)
    ensures In(Rem(m, x, val), ModByEntry(a, val, down))
  {
    var g, r := I.Gcd(a.coeff, val), Rem(m, x, val);
    I.GcdSpec(a.coeff, val, g);
    EverythingHolds(r);
    QuotRem(m, x, val);
    Weaken(g, a.coeff, x - a.base);
    I.DividesLinear(g, x - a.base, val, 1, -Quot(m, x, val));
    assert 1 * (x - a.base) + (-Quot(m, x, val)) * val == r - a.base;
    I.TruncDivMod(a.base, g);
    SameClass(g, r, a.base, I.TruncMod(a.base, g), I.TruncDiv(a.base, g));
    MakeEntryIn(g, I.TruncMod(a.base, g), r);
  }

  // ----- union and intersection -----

  function Union(a: ModEntry, b: ModEntry): ModEntry {
    var c := I.Gcd(a.coeff, b.coeff);
    if c == 0 then (if a.base == b.base then a else EVERYTHING)
    else
      var base0, base1 := I.TruncMod(a.base, c), I.TruncMod(b.base, c);
      if base0 == base1 then MakeEntry(c, base0)
      else MakeEntry(I.Gcd(I.Gcd(base0, base1), c), base0)
  }

  lemma {:induction false} UnionSound(a: ModEntry, b: ModEntry, z: int)
    requires In(z, a) || In(z, b)
    ensures In(z, Union(a, b))
  {
    var c := I.Gcd(a.coeff, b.coeff);
    I.GcdSpec(a.coeff, b.coeff, c);
    EverythingHolds(z);
    if c != 0 {
      var base0, base1 := I.TruncMod(a.base, c), I.TruncMod(b.base, c);
      I.TruncDivMod(a.base, c);
      I.TruncDivMod(b.base, c);
      SameClass(c, z, a.base, base0, I.TruncDiv(a.base, c));
      SameClass(c, z, b.base, base1, I.TruncDiv(b.base, c));
      if In(z, a) { Weaken(c, a.coeff, z - a.base); } else { Weaken(c, b.coeff, z - b.base); }
      if base0 == base1 {
        MakeEntryIn(c, base0, z);
      } else {
        UnionCoarse(c, base0, base1, z);
      }
    }
  }

  lemma {:induction false} UnionCoarse(c: int, base0: int, base1: int, z: int)
    requires I.Divides(c, z - base0) || I.Divides(c, z - base1)
    ensures In(z, MakeEntry(I.Gcd(I.Gcd(base0, base1), c), base0))
  {
    var h := I.Gcd(base0, base1);
    var g := I.Gcd(h, c);
    I.GcdSpec(base0, base1, h);
    I.GcdSpec(h, c, g);
    I.DividesTrans(g, h, base0);
    I.DividesTrans(g, h, base1);
    if I.Divides(c, z - base0) {
      Weaken(g, c, z - base0);
    } else {
      Weaken(g, c, z - base1);
      I.DividesLinear(g, z - base1, base1, 1, 1);
      I.DividesLinear(g, 1 * (z - base1) + 1 * base1, base0, 1, -1);
      assert 1 * (1 * (z - base1) + 1 * base1) + -1 * base0 == z - base0;
    }
    MakeEntryIn(g, base0, z);
  }

  function Intersect(a: ModEntry, b: ModEntry): ModEntry
    requires a.coeff != 0 || b.coeff != 0
  {
    I.BezoutUnimodular(a.coeff, b.coeff);
    var (g, x, y) := I.ExtGcd(a.coeff, b.coeff);
    var v := b.base - a.base;
    if I.TruncMod(v, g) == 0 then MakeEntry(I.TruncDiv(a.coeff, g) * b.coeff, (I.TruncDiv(v, g) * x) * a.coeff + a.base)
    else NOTHING
  }

  /** The classes meet. */
  ghost predicate Meet(a: ModEntry, b: ModEntry) {
    I.Divides(I.Gcd(a.coeff, b.coeff), b.base - a.base)
  }

  /** Exact by the Chinese remainder theorem: a value is in the intersection when it is in both classes. */
  lemma {:induction false} IntersectExact(a: ModEntry, b: ModEntry, z: int)
    requires Normal(a) && Normal(b) && (a.coeff != 0 || b.coeff != 0)
    ensures Meet(a, b) ==> (In(z, Intersect(a, b)) <==> In(z, a) && In(z, b))
    ensures !Meet(a, b) ==> !(In(z, a) && In(z, b)) && Intersect(a, b) == NOTHING
  {
    var c1, c2, v := a.coeff, b.coeff, b.base - a.base;
    I.Bezout(c1, c2);
    I.BezoutUnimodular(c1, c2);
    var (g, x, y) := I.ExtGcd(c1, c2);
    I.ModZero(v, g);
    if Meet(a, b) {
      I.ExactDiv(g, v);
      var w, k := I.TruncDiv(v, g), I.TruncDiv(c1, g);
      var base := (w * x) * c1 + a.base;
      NonNegativeProduct(c1, c2, g, k);
      MakeEntryIn(k * c2, base, z);
      CrtForward(a, b, g, x, y, w, k, z);
      CrtBackward(a, b, g, x, y, w, k, z);
    } else if In(z, a) && In(z, b) {
      BothMeet(a, b, z);
    }
  }

  lemma {:induction false} BothMeet(a: ModEntry, b: ModEntry, z: int)
    requires In(z, a) && In(z, b)
    ensures Meet(a, b)
  {
    var g := I.Gcd(a.coeff, b.coeff);
    I.GcdSpec(a.coeff, b.coeff, g);
    Weaken(g, a.coeff, z - a.base);
    Weaken(g, b.coeff, z - b.base);
    I.DividesLinear(g, z - a.base, z - b.base, 1, -1);
    assert 1 * (z - a.base) + -1 * (z - b.base) == b.base - a.base;
  }

  lemma NonNegativeProduct(c1: int, c2: int, g: int, k: int)
    requires c1 >= 0 && c2 >= 0 && g > 0 && c1 == g * k
    ensures k >= 0 && k * c2 >= 0
  {
  }

  /** A member of the combined class is in both. */
  lemma {:induction false} CrtForward(a: ModEntry, b: ModEntry, g: int, x: int, y: int, w: int, k: int, z: int)
    requires a.coeff * x + b.coeff * y == g && b.base - a.base == g * w && a.coeff == g * k && I.Divides(g, b.coeff)
    ensures I.Divides(k * b.coeff, z - ((w * x) * a.coeff + a.base)) ==> In(z, a) && In(z, b)
  {
    var c1, c2 := a.coeff, b.coeff;
    if I.Divides(k * c2, z - ((w * x) * c1 + a.base)) {
      var t :| z - ((w * x) * c1 + a.base) == (k * c2) * t;
      var e :| c2 == g * e;
      FirstForm(c1, g, k, e, w * x, t);
      SecondForm(c1, c2, g, k, w, x, y, t);
      assert z - a.base == c1 * (w * x + e * t);
      assert z - b.base == c2 * (k * t - w * y);
    }
  }

  lemma FirstForm(c1: int, g: int, k: int, e: int, u: int, t: int)
    requires c1 == g * k
    ensures u * c1 + (k * (g * e)) * t == c1 * (u + e * t)
  {
    assert (k * (g * e)) * t == (g * k) * (e * t);
  }

  lemma SecondForm(c1: int, c2: int, g: int, k: int, w: int, x: int, y: int, t: int)
    requires c1 * x + c2 * y == g
    ensures (w * x) * c1 - g * w + (k * c2) * t == c2 * (k * t - w * y)
  {
    assert g * w == (w * x) * c1 + c2 * (w * y) by {
      assert (c1 * x + c2 * y) * w == (c1 * x) * w + (c2 * y) * w;
      assert (c1 * x) * w == (w * x) * c1;
      assert (c2 * y) * w == c2 * (w * y);
    }
    assert (k * c2) * t == c2 * (k * t);
    assert c2 * (k * t - w * y) == c2 * (k * t) - c2 * (w * y);
  }

  /** A member of both is a common multiple away from the combined base. */
  lemma {:induction false} CrtBackward(a: ModEntry, b: ModEntry, g: int, x: int, y: int, w: int, k: int, z: int)
    requires a.coeff >= 0 && b.coeff >= 0 && (a.coeff != 0 || b.coeff != 0)
    requires (g, x, y) == I.ExtGcd(a.coeff, b.coeff) && g > 0 && k == I.TruncDiv(a.coeff, g)
    requires a.coeff * x + b.coeff * y == g && b.base - a.base == g * w && a.coeff == g * k && I.Divides(g, b.coeff)
    ensures In(z, a) && In(z, b) ==> I.Divides(k * b.coeff, z - ((w * x) * a.coeff + a.base))
  {
    var c1, c2 := a.coeff, b.coeff;
    var base := (w * x) * c1 + a.base;
    CrtForward(a, b, g, x, y, w, k, base);
    assert base - base == (k * c2) * 0;
    if In(z, a) && In(z, b) {
      I.DividesLinear(c1, z - a.base, base - a.base, 1, -1);
      assert 1 * (z - a.base) + -1 * (base - a.base) == z - base;
      I.DividesLinear(c2, z - b.base, base - b.base, 1, -1);
      assert 1 * (z - b.base) + -1 * (base - b.base) == z - base;
      if c1 != 0 && c2 != 0 {
        I.LcmFactors(c1, c2);
        I.LcmSpec(c1, c2, z - base);
        assert c2 * k == k * c2;
      } else {
        assert z - base == 0 * 0;
        assert (k * c2) * 0 == 0;
      }
    }
  }

  // ----- constraints -----

  /** b is a remainder by c, of some dividend. */
  predicate IsRemainder(m: DivMode, c: int, b: int) {
    if m == Floor then RemOk(Floor, 0, c, b) else I.Abs(b) < I.Abs(c)
  }

  /**
   * The class a constraint x % c == b contributes, floored or truncated; for a negative modulus it is
   * right exactly when c divides 2b.
   */
  lemma {:induction false} ConstraintExactIff(m: DivMode, c: int, b: int)
    requires c != 0 && IsRemainder(m, c, b)
    ensures (forall z :: Rem(m, z, c) == b ==> In(z, MakeEntry(c, b))) <==> c > 0 || I.Divides(c, 2 * b)
  {
    if c > 0 {
      forall z | Rem(m, z, c) == b ensures In(z, MakeEntry(c, b)) { PositiveConstraint(c, b, z, m); }
    } else if I.Divides(c, 2 * b) {
      forall z | Rem(m, z, c) == b ensures In(z, MakeEntry(c, b)) { NegativeConstraint(c, b, z, m); }
    } else {
      QuotUnique(m, b, c, 0, b);
      MakeEntryIn(c, b, b);
      NegDivides(c, b + b);
      assert Rem(m, b, c) == b && !In(b, MakeEntry(c, b));
    }
  }

  /** Where it fails: floormod(3, -4) is -1, but 3 is not in the class taken from that constraint. */
  lemma {:induction false} NegativeModulusFails()
    ensures I.FloorMod(3, -4) == -1 && !In(3, MakeEntry(-4, -1))
  {
    I.FloorUnique(3, -4, -1, -1);
    MakeEntryIn(-4, -1, 3);
    assert I.TruncMod(2, 4) == 2;
    I.ModZero(2, 4);
  }

  lemma {:induction false} NegativeConstraint(c: int, b: int, z: int, m: DivMode)
    requires c < 0 && Rem(m, z, c) == b && I.Divides(c, 2 * b)
    ensures In(z, MakeEntry(c, b))
  {
    QuotRem(m, z, c);
    MakeEntryIn(c, b, z);
    var q := Quot(m, z, c);
    var k :| 2 * b == c * k;
    Spread4(c, q, k);
    I.DividesMul(c, q + k);
    NegDivides(c, z + b);
  }

  lemma Spread4(c: int, q: int, k: int)
    ensures q * c + c * k == c * (q + k)
  {
  }

  lemma {:induction false} NegDivides(c: int, n: int)
    ensures I.Divides(c, n) <==> I.Divides(-c, n)
  {
    if I.Divides(c, n) {
      var k :| n == c * k;
      assert n == (-c) * (-k);
    }
    if I.Divides(-c, n) {
      var k :| n == (-c) * k;
      assert n == c * (-k);
    }
  }

  lemma {:induction false} PositiveConstraint(c: int, b: int, z: int, m: DivMode)
    requires c > 0 && Rem(m, z, c) == b
    ensures In(z, MakeEntry(c, b))
  {
    QuotRem(m, z, c);
    MakeEntryIn(c, b, z);
    var q := Quot(m, z, c);
    assert z - b == c * q;
  }
}
