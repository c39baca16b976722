// Constant intervals with saturating infinities, and the arithmetic on them.
module ConstBound {
  import opened DivModes
  import I = IntOperator
  import M = ModularSet

  /** The largest 64-bit value stands for a positive infinity, its negation for a negative one. */
  const POS: int := 0x7FFF_FFFF_FFFF_FFFF
  const NEG: int := -POS

  datatype Bound = Bound(lo: int, hi: int)

  predicate InB(z: int, b: Bound) { b.lo <= z <= b.hi }

  /** Within the machine's range, infinities excluded. */
  predicate Inside(z: int) { NEG < z < POS }

  predicate Ranged(v: int) { NEG <= v <= POS }

  predicate BoundOk(b: Bound) { Ranged(b.lo) && Ranged(b.hi) }

  const ANYTHING: Bound := Bound(NEG, POS)

  function Lesser(a: int, b: int): int { if a < b then a else b }
  function Greater(a: int, b: int): int { if a > b then a else b }

  function Clamp(v: int): int {
    if v > POS then POS else if v < NEG then NEG else v
  }

  function MakeBound(lo: int, hi: int): Bound {
    Bound(if lo == POS then lo - 1 else lo, if hi == NEG then hi + 1 else hi)
  }

  function UnionB(a: Bound, b: Bound): Bound { Bound(Lesser(a.lo, b.lo), Greater(a.hi, b.hi)) }

  function IntersectB(a: Bound, b: Bound): Bound { Bound(Greater(a.lo, b.lo), Lesser(a.hi, b.hi)) }

  // ----- addition and multiplication -----

  predicate AddOverflows(x: int, y: int) {
    (y > 0 && x > POS - y) || (y < 0 && x < NEG - y)
  }

  function InfAdd(x: int, y: int): int {
    if x == POS then POS
    else if x == NEG then NEG
    else if y == POS || y == NEG then y
    else if AddOverflows(x, y) then (if x > 0 then POS else NEG)
    else x + y
  }

  /** Lower bounds add to a lower bound, upper ones to an upper one, of every sum that does not overflow. */
  lemma InfAddSound(x: int, y: int, u: int, v: int)
    requires Ranged(x) && Ranged(y) && Inside(u) && Inside(v) && Inside(u + v)
    ensures Ranged(InfAdd(x, y))
    ensures x <= u && y <= v ==> InfAdd(x, y) <= u + v
    ensures x >= u && y >= v ==> InfAdd(x, y) >= u + v
  {
  }

  lemma InfAddRanged(x: int, y: int)
    requires Ranged(x) && Ranged(y)
    ensures Ranged(InfAdd(x, y))
  {
  }

  /** The overflow test by division, as the machine makes it. */
  predicate MulOverflows(x: int, y: int) {
    if y == 0 then false
    else if y > 0 then x < I.TruncDiv(NEG, y) || x > I.TruncDiv(POS, y)
    else x > I.TruncDiv(NEG, y) || x < I.TruncDiv(POS, y)
  }

  function InfMul(x: int, y: int): int {
    if !MulOverflows(x, y) then x * y
    else if (x > 0 && y > 0) || (x < 0 && y < 0) then POS
    else NEG
  }

  /** The test is exact, so the saturated product is the clamped one. */
  lemma {:induction false} InfMulIsClamp(x: int, y: int)
    ensures InfMul(x, y) == Clamp(x * y)
  {
    if y > 0 {
      PositiveTest(x, y);
    } else if y < 0 {
      PositiveTest(-x, -y);
      assert (-x) * (-y) == x * y;
      Flip(Trunc, NEG, y);
      Flip(Trunc, POS, y);
    }
  }

  lemma {:induction false} PositiveTest(x: int, y: int)
    requires y > 0
    ensures x < I.TruncDiv(NEG, y) <==> x * y < NEG
    ensures x > I.TruncDiv(POS, y) <==> x * y > POS
    ensures I.TruncDiv(NEG, y) == -I.TruncDiv(POS, y)
  {
    I.TruncDivMod(POS, y);
    var q, r := I.TruncDiv(POS, y), I.TruncMod(POS, y);
    NegQuot(POS, y);
    Compare(x, q, y);
    Compare(-x, q, y);
    assert (-x) * y == -(x * y);
  }

  lemma {:induction false} NegQuot(x: int, y: int)
    requires y != 0
    ensures I.TruncDiv(-x, y) == -I.TruncDiv(x, y)
  {
    I.TruncDivMod(x, y);
    var q, r := I.TruncDiv(x, y), I.TruncMod(x, y);
    assert -x == (-q) * y + (-r) by { assert (-q) * y == -(q * y); }
    QuotUnique(Trunc, -x, y, -q, -r);
  }

  lemma AtLeastOnce(d: int, y: int)
    requires d >= 1 && y > 0
    ensures d * y >= y
  {
  }

  lemma NotNegative(d: int, y: int)
    requires d >= 0 && y >= 0
    ensures d * y >= 0
  {
  }

  lemma Compare(x: int, q: int, y: int)
    requires y > 0
    ensures x > q ==> x * y >= q * y + y
    ensures x <= q ==> x * y <= q * y
  {
    assert (x - q) * y == x * y - q * y;
    assert (q - x) * y == q * y - x * y;
    if x > q { AtLeastOnce(x - q, y); } else { NotNegative(q - x, y); }
  }

  /** A quotient does not change when both signs do. */
  lemma {:induction false} Flip(m: DivMode, x: int, y: int)
    requires y != 0
    ensures Quot(m, -x, -y) == Quot(m, x, y) && Rem(m, -x, -y) == -Rem(m, x, y)
  {
    QuotRem(m, x, y);
    var q, r := Quot(m, x, y), Rem(m, x, y);
    assert -x == q * (-y) + (-r) by { assert q * (-y) == -(q * y); }
    QuotUnique(m, -x, -y, q, -r);
  }

  // ----- corners -----

  function Corners(v1: int, v2: int, v3: int, v4: int): Bound {
    Bound(Lesser(Lesser(Lesser(v1, v2), v3), v4), Greater(Greater(Greater(v1, v2), v3), v4))
  }

  function MulBound(a: Bound, b: Bound): Bound {
    Corners(InfMul(a.lo, b.lo), InfMul(a.hi, b.hi), InfMul(a.lo, b.hi), InfMul(a.hi, b.lo))
  }

  lemma Edge(lo: int, hi: int, x: int, y: int)
    requires lo <= x <= hi
    ensures y >= 0 ==> lo * y <= x * y <= hi * y
    ensures y <= 0 ==> hi * y <= x * y <= lo * y
  {
    assert (x - lo) * y == x * y - lo * y && (hi - x) * y == hi * y - x * y;
    if y >= 0 {
      NotNegative(x - lo, y);
      NotNegative(hi - x, y);
    } else {
      NotNegative(x - lo, -y);
      NotNegative(hi - x, -y);
      assert (x - lo) * (-y) == -((x - lo) * y) && (hi - x) * (-y) == -((hi - x) * y);
    }
  }

  /** The four corners of a product enclose it. */
  lemma {:induction false} MulSound(a: Bound, b: Bound, x: int, y: int)
    requires InB(x, a) && InB(y, b) && Inside(x * y)
    ensures InB(x * y, MulBound(a, b)) && BoundOk(MulBound(a, b))
  {
    MulRanged(a, b);
    InfMulIsClamp(a.lo, b.lo);
    InfMulIsClamp(a.hi, b.hi);
    InfMulIsClamp(a.lo, b.hi);
    InfMulIsClamp(a.hi, b.lo);
    Edge(a.lo, a.hi, x, y);
    Edge(b.lo, b.hi, y, a.lo);
    Edge(b.lo, b.hi, y, a.hi);
    Enclosed(x * y, a.lo * y, a.hi * y, a.lo * b.lo, a.hi * b.hi, a.lo * b.hi, a.hi * b.lo);
  }

  lemma {:induction false} MulRanged(a: Bound, b: Bound)
    ensures BoundOk(MulBound(a, b))
  {
    InfMulIsClamp(a.lo, b.lo);
    InfMulIsClamp(a.hi, b.hi);
    InfMulIsClamp(a.lo, b.hi);
    InfMulIsClamp(a.hi, b.lo);
  }

  lemma Enclosed(z: int, l: int, h: int, v1: int, v2: int, v3: int, v4: int)
    requires Inside(z) && (l <= z <= h || h <= z <= l)
    requires (v1 <= l <= v3 || v3 <= l <= v1) && (v4 <= h <= v2 || v2 <= h <= v4)
    ensures InB(z, Corners(Clamp(v1), Clamp(v2), Clamp(v3), Clamp(v4)))
  {
  }

  // ----- division -----

  /** A zero divisor, which the source refuses, is given a quotient of zero. */
  function InfDiv(m: DivMode, x: int, y: int): int {
    if y == 0 then 0
    else if x == POS || x == NEG then (if y > 0 then x else -x) else Quot(m, x, y)
  }

  function DivCorners(m: DivMode, a: Bound, b: Bound): Bound {
    Corners(InfDiv(m, a.lo, b.lo), InfDiv(m, a.hi, b.hi), InfDiv(m, a.lo, b.hi), InfDiv(m, a.hi, b.lo))
  }

  /** A divisor range across zero is cut into its negative and its positive part. */
  function DivBound(m: DivMode, a: Bound, b: Bound): Bound {
    if b.lo <= 0 <= b.hi then
      var neg := if b.lo < 0 then MakeBound(b.lo, -1) else ANYTHING;
      var pos := if b.hi > 0 then MakeBound(1, b.hi) else ANYTHING;
      var n, p := DivCorners(m, a, neg), DivCorners(m, a, pos);
      MakeBound(Lesser(n.lo, p.lo), Greater(n.hi, p.hi))
    else DivCorners(m, a, b)
  }

  lemma {:induction false} QuotMonotone(m: DivMode, x: int, x': int, y: int)
    requires y > 0 && x <= x'
    ensures Quot(m, x, y) <= Quot(m, x', y)
  {
    QuotRem(m, x, y);
    QuotRem(m, x', y);
    var q, q' := Quot(m, x, y), Quot(m, x', y);
    if q > q' { Compare(q, q', y); }
  }

  lemma {:induction false} QuotSign(m: DivMode, x: int, y: int)
    requires y > 0
    ensures x >= 0 ==> 0 <= Quot(m, x, y) <= x
    ensures x <= 0 ==> x <= Quot(m, x, y) <= 0
  {
    QuotUnique(m, 0, y, 0, 0);
    QuotRem(m, x, y);
    var q := Quot(m, x, y);
    if x >= 0 {
      QuotMonotone(m, 0, x, y);
      Compare(1, y, 1);
      Edge(1, y, y, q);
    } else {
      QuotMonotone(m, x, 0, y);
      NotBelow(m, x, y, q, Rem(m, x, y));
    }
  }

  lemma {:induction false} NotBelow(m: DivMode, x: int, y: int, q: int, r: int)
    requires y > 0 && x < 0 && q <= 0 && x == q * y + r && RemOk(m, x, y, r)
    ensures x <= q
  {
    Edge(1, y, y, q + 1);
    assert (q + 1) * y == q * y + y;
    Edge(1, y, y, q);
  }

  /** A larger positive divisor brings the quotient towards zero. */
  lemma {:induction false} QuotShrinks(m: DivMode, x: int, y: int, y': int)
    requires 0 < y <= y'
    ensures x >= 0 ==> Quot(m, x, y') <= Quot(m, x, y)
    ensures x <= 0 ==> Quot(m, x, y) <= Quot(m, x, y')
  {
    QuotRem(m, x, y);
    QuotRem(m, x, y');
    QuotSign(m, x, y);
    QuotSign(m, x, y');
    if x >= 0 {
      ShrinkUp(x, y, y', Quot(m, x, y), Rem(m, x, y), Quot(m, x, y'), Rem(m, x, y'));
    }
    if x <= 0 {
      ShrinkDown(m, x, y, y', Quot(m, x, y), Rem(m, x, y), Quot(m, x, y'), Rem(m, x, y'));
    }
  }

  lemma {:induction false} ShrinkUp(x: int, y: int, y': int, q: int, r: int, q': int, r': int)
    requires 0 < y <= y' && x == q * y + r && x == q' * y' + r' && r < y && r' >= 0 && q' >= 0
    ensures q' <= q
  {
    Edge(y, y', y', q');
    assert y' * q' == q' * y' && y * q' == q' * y;
    Compare(q', q, y);
  }

  lemma {:induction false} ShrinkDown(m: DivMode, x: int, y: int, y': int, q: int, r: int, q': int, r': int)
    requires 0 < y <= y' && x == q * y + r && x == q' * y' + r' && x <= 0 && q <= 0 && q' <= 0
    requires RemOk(m, x, y, r) && RemOk(m, x, y', r')
    ensures q <= q'
  {
    Edge(y, y', y', q);
    assert y' * q == q * y' && y * q == q * y;
    Compare(q, q', y');
  }

  /** For a positive divisor, the corner of a lower bound of the dividend lies below the quotient. */
  lemma {:induction false} LowCorner(m: DivMode, lo: int, b: Bound, x: int, y: int)
    requires b.lo > 0 && InB(y, b) && lo <= x && Inside(x) && Ranged(lo)
    ensures InfDiv(m, lo, b.lo) <= Quot(m, x, y) || InfDiv(m, lo, b.hi) <= Quot(m, x, y)
  {
    QuotSign(m, x, y);
    if lo != NEG {
      QuotMonotone(m, lo, x, y);
      QuotShrinks(m, lo, b.lo, y);
      QuotShrinks(m, lo, y, b.hi);
    }
  }

  lemma {:induction false} HighCorner(m: DivMode, hi: int, b: Bound, x: int, y: int)
    requires b.lo > 0 && InB(y, b) && x <= hi && Inside(x) && Ranged(hi)
    ensures Quot(m, x, y) <= InfDiv(m, hi, b.lo) || Quot(m, x, y) <= InfDiv(m, hi, b.hi)
  {
    QuotSign(m, x, y);
    if hi != POS {
      QuotMonotone(m, x, hi, y);
      QuotShrinks(m, hi, b.lo, y);
      QuotShrinks(m, hi, y, b.hi);
    }
  }

  function NegB(b: Bound): Bound { Bound(-b.hi, -b.lo) }

  lemma {:induction false} InfDivFlip(m: DivMode, x: int, y: int)
    ensures InfDiv(m, -x, -y) == InfDiv(m, x, y)
  {
    if y != 0 { Flip(m, x, y); }
  }

  /** The four corners of a quotient enclose it when the divisor keeps its sign. */
  lemma {:induction false} CornersSound(m: DivMode, a: Bound, b: Bound, x: int, y: int)
    requires BoundOk(a) && InB(x, a) && Inside(x) && InB(y, b) && (b.lo > 0 || b.hi < 0)
    ensures InB(Quot(m, x, y), DivCorners(m, a, b))
  {
    if b.lo > 0 {
      LowCorner(m, a.lo, b, x, y);
      HighCorner(m, a.hi, b, x, y);
    } else {
      NegativeCorners(m, a, b, x, y);
    }
  }

  lemma {:induction false} NegativeCorners(m: DivMode, a: Bound, b: Bound, x: int, y: int)
    requires BoundOk(a) && InB(x, a) && Inside(x) && InB(y, b) && b.hi < 0
    ensures InB(Quot(m, x, y), DivCorners(m, a, b))
  {
    Flip(m, x, y);
    LowCorner(m, -a.hi, NegB(b), -x, -y);
    HighCorner(m, -a.lo, NegB(b), -x, -y);
    InfDivFlip(m, a.lo, b.lo);
    InfDivFlip(m, a.hi, b.hi);
    InfDivFlip(m, a.lo, b.hi);
    InfDivFlip(m, a.hi, b.lo);
  }

  /** Division encloses every quotient, divisor ranges across zero included. */
  lemma {:induction false} DivSound(m: DivMode, a: Bound, b: Bound, x: int, y: int)
    requires BoundOk(a) && BoundOk(b) && InB(x, a) && Inside(x) && InB(y, b) && Inside(y) && y != 0
    ensures InB(Quot(m, x, y), DivBound(m, a, b))
  {
    if b.lo <= 0 <= b.hi {
      if y < 0 {
        CornersSound(m, a, MakeBound(b.lo, -1), x, y);
      } else {
        CornersSound(m, a, MakeBound(1, b.hi), x, y);
      }
    } else {
      CornersSound(m, a, b, x, y);
    }
  }

  lemma {:induction false} InfDivRanged(m: DivMode, x: int, y: int)
    requires Ranged(x)
    ensures Ranged(InfDiv(m, x, y))
  {
    if y > 0 {
      QuotSign(m, x, y);
    } else if y < 0 {
      Flip(m, x, y);
      QuotSign(m, -x, -y);
    }
  }

  lemma {:induction false} CornersRanged(m: DivMode, a: Bound, b: Bound)
    requires BoundOk(a)
    ensures BoundOk(DivCorners(m, a, b))
  {
    InfDivRanged(m, a.lo, b.lo);
    InfDivRanged(m, a.hi, b.hi);
    InfDivRanged(m, a.lo, b.hi);
    InfDivRanged(m, a.hi, b.lo);
  }

  lemma {:induction false} DivRanged(m: DivMode, a: Bound, b: Bound)
    requires BoundOk(a)
    ensures BoundOk(DivBound(m, a, b))
  {
    CornersRanged(m, a, b);
    CornersRanged(m, a, MakeBound(b.lo, -1));
    CornersRanged(m, a, MakeBound(1, b.hi));
    CornersRanged(m, a, ANYTHING);
  }

  // ----- remainders -----

  /** Bounds of a remainder by a positive divisor, without congruence information. */
  function PlainMod(m: DivMode, a: Bound, b: Bound): Bound {
    var cap := InfAdd(b.hi, -1);
    if a.lo >= 0 then
      if a.hi < b.lo then a else MakeBound(0, Lesser(a.hi, cap))
    else if m == Floor then MakeBound(0, cap)
    else MakeBound(Greater(a.lo, -cap), Lesser(Greater(a.hi, 0), cap))
  }

  lemma {:induction false} PlainModSound(m: DivMode, a: Bound, b: Bound, x: int, y: int)
    requires BoundOk(a) && BoundOk(b) && b.lo > 0 && InB(x, a) && Inside(x) && InB(y, b) && Inside(y)
    ensures InB(Rem(m, x, y), PlainMod(m, a, b)) && BoundOk(PlainMod(m, a, b))
  {
    QuotRem(m, x, y);
    if x >= 0 {
      RemAtMost(m, x, y);
    } else if m == Trunc {
      Flip(Trunc, x, y);
      RemAtMost(Trunc, -x, y);
      TruncNeg(x, y);
    }
  }

  lemma {:induction false} TruncNeg(x: int, y: int)
    requires y != 0
    ensures I.TruncMod(-x, y) == -I.TruncMod(x, y)
  {
    QuotRem(Trunc, x, y);
    var q, r := I.TruncDiv(x, y), I.TruncMod(x, y);
    assert -x == (-q) * y + (-r) by { assert (-q) * y == -(q * y); }
    QuotUnique(Trunc, -x, y, -q, -r);
  }

  lemma {:induction false} RemAtMost(m: DivMode, x: int, y: int)
    requires x >= 0 && y > 0
    ensures 0 <= Rem(m, x, y) <= x && Rem(m, x, y) < y && (x < y ==> Rem(m, x, y) == x)
  {
    QuotRem(m, x, y);
    QuotSign(m, x, y);
    NotNegative(Quot(m, x, y), y);
    if x < y { SmallQuot(m, x, y); }
  }

  /** Bounds of a floored remainder by a divisor that may be negative. */
  function SignedMod(b: Bound): Bound {
    IntersectB(MakeBound(Lesser(0, InfAdd(b.lo, 1)), Greater(0, InfAdd(b.hi, -1))), ANYTHING)
  }

  lemma {:induction false} SignedModSound(b: Bound, x: int, y: int)
    requires BoundOk(b) && InB(y, b) && Inside(y) && y != 0
    ensures InB(I.FloorMod(x, y), SignedMod(b)) && BoundOk(SignedMod(b))
  {
    I.FloorDivMod(x, y);
  }

  /** The congruence class of the dividend narrows the remainder by a constant. */
  function TightMod(e: M.ModEntry, modulus: int): Bound
    requires modulus > 0
  {
    var g := I.Gcd(e.coeff, modulus);
    var r := I.TruncMod(e.base, modulus);
    var baseMod := if r < 0 then r + modulus else r;
    var top := modulus - g + baseMod;
    MakeBound(baseMod, if top >= modulus then top - modulus else top)
  }

  /** The base falls into the first step of the class. */
  predicate BaseFits(e: M.ModEntry, modulus: int)
    requires modulus > 0
  {
    e.base % modulus < I.Gcd(e.coeff, modulus)
  }

  lemma {:induction false} BaseMod(base: int, modulus: int)
    requires modulus > 0
    ensures (var r := I.TruncMod(base, modulus); if r < 0 then r + modulus else r) == base % modulus
  {
    I.TruncDivMod(base, modulus);
    var q, r := I.TruncDiv(base, modulus), I.TruncMod(base, modulus);
    if r < 0 {
      assert base == (q - 1) * modulus + (r + modulus);
      I.FloorUnique(base, modulus, q - 1, r + modulus);
    } else {
      I.FloorUnique(base, modulus, q, r);
    }
  }

  /** With a fitting base, every non-negative remainder of the class is enclosed. */
  lemma {:induction false} TightSound(e: M.ModEntry, modulus: int, z: int, r: int)
    requires 0 < modulus < POS && BaseFits(e, modulus) && M.In(z, e) && 0 <= r < modulus && I.Divides(modulus, z - r)
    ensures InB(r, TightMod(e, modulus))
  {
    var g, b := I.Gcd(e.coeff, modulus), e.base % modulus;
    I.GcdSpec(e.coeff, modulus, g);
    BaseMod(e.base, modulus);
    Euclid(e.base, modulus);
    ClassStep(e, modulus, z, r, g, b, e.base / modulus);
    StepsWithin(g, modulus, b, r);
  }

  lemma Euclid(x: int, d: int)
    requires d > 0
    ensures x == d * (x / d) + x % d
  {
  }

  lemma {:induction false} StepsWithin(g: int, modulus: int, b: int, r: int)
    requires g > 0 && 0 <= b < g && 0 <= r < modulus && I.Divides(g, r - b) && I.Divides(g, modulus)
    ensures b <= r <= modulus - g + b
  {
    var t :| r - b == g * t;
    var n :| modulus == g * n;
    StepBounds(g, n, t, b, r);
  }

  /** Remainder and reduced base differ by a multiple of the gcd. */
  lemma {:induction false} ClassStep(e: M.ModEntry, modulus: int, z: int, r: int, g: int, b: int, k: int)
    requires I.Divides(g, e.coeff) && I.Divides(g, modulus) && M.In(z, e) && I.Divides(modulus, z - r)
    requires e.base == modulus * k + b
    ensures I.Divides(g, r - b)
  {
    I.DividesTrans(g, e.coeff, z - e.base);
    I.DividesTrans(g, modulus, z - r);
    I.DividesMul(modulus, k);
    I.DividesTrans(g, modulus, modulus * k);
    I.DividesLinear(g, z - e.base, z - r, 1, -1);
    I.DividesLinear(g, 1 * (z - e.base) + -1 * (z - r), modulus * k, 1, 1);
    assert 1 * (1 * (z - e.base) + -1 * (z - r)) + 1 * (modulus * k) == r - b;
  }

  lemma {:induction false} StepBounds(g: int, n: int, t: int, b: int, r: int)
    requires g > 0 && 0 <= b < g && r == b + g * t && 0 <= r < g * n
    ensures b <= r <= g * n - g + b
  {
    if t < 0 { Compare(0, t, g); }
    if t >= n { Compare(n - 1, t, g); }
    Compare(t, n - 1, g);
    assert g * t == t * g && g * n == n * g && (n - 1) * g == n * g - g;
  }

  /** The floored bound is right for the whole class exactly when the base fits. */
  lemma {:induction false} TightExactIff(e: M.ModEntry, modulus: int)
    requires 0 < modulus < POS && M.Normal(e) && I.Gcd(e.coeff, modulus) > 1
    ensures (forall z :: M.In(z, e) ==> InB(I.FloorMod(z, modulus), TightMod(e, modulus))) <==> BaseFits(e, modulus)
  {
    BaseMod(e.base, modulus);
    if BaseFits(e, modulus) {
      forall z | M.In(z, e) ensures InB(I.FloorMod(z, modulus), TightMod(e, modulus)) {
        QuotRem(Floor, z, modulus);
        RemDivides(Floor, z, modulus);
        TightSound(e, modulus, z, I.FloorMod(z, modulus));
      }
    } else {
      assert M.In(e.base, e) by { assert e.base - e.base == e.coeff * 0; }
      assert !InB(I.FloorMod(e.base, modulus), TightMod(e, modulus));
    }
  }

  lemma {:induction false} RemDivides(m: DivMode, z: int, d: int)
    requires d != 0
    ensures I.Divides(d, z - Rem(m, z, d))
  {
    QuotRem(m, z, d);
    var q := Quot(m, z, d);
    assert z - Rem(m, z, d) == d * q;
  }

  /** Where it fails: 6k + 3 modulo 4 is bounded by the empty interval [3, 1]. */
  lemma {:induction false} TightFails()
    ensures TightMod(M.ModEntry(6, 3), 4) == Bound(3, 1) && M.In(9, M.ModEntry(6, 3)) && I.FloorMod(9, 4) == 1
  {
    assert 9 - 3 == 6 * 1;
    GcdSixFour();
    I.FloorUnique(9, 4, 2, 1);
  }

  lemma {:induction false} GcdSixFour()
    ensures I.Gcd(6, 4) == 2
  {
  }

  /** Right for every truncated remainder of the class. */
  ghost predicate TruncEnclosed(e: M.ModEntry, modulus: int)
    requires modulus > 0
  {
    forall z :: M.In(z, e) ==> InB(I.TruncMod(z, modulus), TightMod(e, modulus))
  }

  /**
   * For a truncated remainder a dividend below zero breaks the bound, unless the modulus divides it;
   * a class of more than one number has such dividends unless only zero is left.
   */
  lemma {:induction false} TruncTightIff(e: M.ModEntry, modulus: int)
    requires 0 < modulus < POS && M.Normal(e) && I.Gcd(e.coeff, modulus) > 1
    ensures TruncEnclosed(e, modulus) <==>
      if e.coeff == 0 then e.base >= 0 || e.base % modulus == 0
      else e.base % modulus == 0 && I.Gcd(e.coeff, modulus) == modulus
  {
    if e.coeff == 0 {
      SingleTrunc(e, modulus);
    } else {
      ClassTrunc(e, modulus);
    }
  }

  lemma {:induction false} SingleTrunc(e: M.ModEntry, modulus: int)
    requires 0 < modulus < POS && e.coeff == 0
    ensures TruncEnclosed(e, modulus) <==> e.base >= 0 || e.base % modulus == 0
  {
    var b := e.base % modulus;
    BaseMod(e.base, modulus);
    I.TruncDivMod(e.base, modulus);
    I.GcdSpec(0, modulus, modulus);
    assert I.Divides(modulus, 0) by { assert 0 == modulus * 0; }
    assert I.Divides(modulus, modulus) by { assert modulus == modulus * 1; }
    SelfGcd(modulus);
    assert TightMod(e, modulus) == MakeBound(b, b);
    assert M.In(e.base, e) by { assert e.base - e.base == e.coeff * 0; }
    assert forall z :: M.In(z, e) ==> z == e.base;
    assert TruncEnclosed(e, modulus) <==> InB(I.TruncMod(e.base, modulus), TightMod(e, modulus));
    assert InB(I.TruncMod(e.base, modulus), MakeBound(b, b)) <==> I.TruncMod(e.base, modulus) == b;
  }

  lemma {:induction false} SelfGcd(m: int)
    requires m > 0
    ensures I.Gcd(0, m) == m
  {
    I.GcdSpec(0, m, m);
    assert I.Divides(m, 0) by { assert 0 == m * 0; }
    assert I.Divides(m, m) by { assert m == m * 1; }
    I.DividesAntisym(I.Gcd(0, m), m);
  }

  /** Where it fails for a single number: -1 truncated by 4 is -1, but the bound is [3, 3]. */
  lemma {:induction false} TruncTightFails()
    ensures TightMod(M.ModEntry(0, -1), 4) == Bound(3, 3) && M.In(-1, M.ModEntry(0, -1)) && I.TruncMod(-1, 4) == -1
  {
    assert -1 - -1 == 0 * 0;
    SelfGcd(4);
  }

  lemma {:induction false} ClassTrunc(e: M.ModEntry, modulus: int)
    requires 0 < modulus < POS && M.Normal(e) && e.coeff > 0 && I.Gcd(e.coeff, modulus) > 1
    ensures TruncEnclosed(e, modulus) <==> e.base % modulus == 0 && I.Gcd(e.coeff, modulus) == modulus
  {
    BaseMod(e.base, modulus);
    var g := I.Gcd(e.coeff, modulus);
    I.GcdSpec(e.coeff, modulus, g);
    if e.base % modulus == 0 && g == modulus {
      forall z | M.In(z, e) ensures InB(I.TruncMod(z, modulus), TightMod(e, modulus)) {
        I.DividesTrans(modulus, e.coeff, z - e.base);
        I.FloorUnique(e.base, modulus, e.base / modulus, 0);
        I.ModZero(e.base, modulus);
        I.DividesLinear(modulus, z - e.base, e.base, 1, 1);
        assert 1 * (z - e.base) + 1 * e.base == z;
        I.ModZero(z, modulus);
      }
    } else {
      var z := NegativeMember(e, modulus);
      I.TruncDivMod(z, modulus);
      assert !InB(I.TruncMod(z, modulus), TightMod(e, modulus));
    }
  }

  /** A negative member of the class that the modulus does not divide. */
  lemma {:induction false} NegativeMember(e: M.ModEntry, modulus: int) returns (z: int)
    requires modulus > 0 && M.Normal(e) && e.coeff > 0 && !(e.base % modulus == 0 && I.Gcd(e.coeff, modulus) == modulus)
    ensures M.In(z, e) && z < 0 && I.TruncMod(z, modulus) != 0
  {
    var g := I.Gcd(e.coeff, modulus);
    I.GcdSpec(e.coeff, modulus, modulus);
    var z1, z2 := e.base - e.coeff, e.base - 2 * e.coeff;
    assert z1 - e.base == e.coeff * -1 && z2 - e.base == e.coeff * -2;
    I.ModZero(z1, modulus);
    I.ModZero(z2, modulus);
    if I.TruncMod(z1, modulus) != 0 {
      z := z1;
    } else {
      z := z2;
      if I.Divides(modulus, z2) { BothDivide(e, modulus); }
    }
  }

  lemma {:induction false} BothDivide(e: M.ModEntry, modulus: int)
    requires modulus > 0 && e.coeff > 0 && I.Divides(modulus, e.base - e.coeff)
    requires I.Divides(modulus, e.base - 2 * e.coeff)
    ensures e.base % modulus == 0 && I.Gcd(e.coeff, modulus) == modulus
  {
    I.DividesLinear(modulus, e.base - e.coeff, e.base - 2 * e.coeff, 1, -1);
    assert 1 * (e.base - e.coeff) + -1 * (e.base - 2 * e.coeff) == e.coeff;
    I.DividesLinear(modulus, e.base - e.coeff, e.coeff, 1, 1);
    assert 1 * (e.base - e.coeff) + 1 * e.coeff == e.base;
    I.ModZero(e.base, modulus);
    I.FloorDivMod(e.base, modulus);
    I.GcdSpec(e.coeff, modulus, modulus);
    assert I.Divides(modulus, modulus) by { assert modulus == modulus * 1; }
    I.DividesAntisym(modulus, I.Gcd(e.coeff, modulus));
  }
}
