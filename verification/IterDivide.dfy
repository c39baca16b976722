// Floor division and remainder of one split plus a base by a constant.
module IterDivide {
  import opened Expr
  import opened Radix
  import opened SplitCover
  import opened SplitSum
  import I = IntOperator

  // ----- clearing the scale -----

  /** Either the quotient outright, or a dividend of scale one and what is left of base and divisor. */
  datatype Cleared = Quotient(split: Split, base: int) | Reduced(split: Split, base: int, rhs: int)

  function ClearScaleDiv(lhs: Split, base: int, rhs: int): Option<Cleared>
    requires rhs > 1
  {
    if lhs.scale == 1 then Some(Reduced(lhs, base, rhs))
    else if CanProveDivisible(lhs.scale, rhs) && CanProveDivisible(base, rhs) then
      Some(Quotient(lhs.(scale := I.FloorDiv(lhs.scale, rhs)), I.FloorDiv(base, rhs)))
    else if CanProveDivisible(rhs, lhs.scale) && CanProveDivisible(base, lhs.scale) then
      Some(Reduced(lhs.(scale := 1), I.FloorDiv(base, lhs.scale), I.FloorDiv(rhs, lhs.scale)))
    else None
  }

  /** The scale stays on the remainder. */
  function ClearScaleMod(lhs: Split, base: int, rhs: int): Option<Cleared>
    requires rhs > 1
  {
    if lhs.scale == 1 then Some(Reduced(lhs, base, rhs))
    else if CanProveDivisible(lhs.scale, rhs) && CanProveDivisible(base, rhs) then Some(Quotient(lhs.(scale := 0), 0))
    else if CanProveDivisible(rhs, lhs.scale) && CanProveDivisible(base, lhs.scale) then
      Some(Reduced(lhs, I.FloorDiv(base, lhs.scale), I.FloorDiv(rhs, lhs.scale)))
    else None
  }

  /** Cancelling the scale changes neither quotient nor, up to the scale, remainder. */
  lemma {:induction false} CancelCommon(d: int, scale: int, base: int, rhs: int)
    requires rhs > 0 && CanProveDivisible(rhs, scale) && CanProveDivisible(base, scale) && I.FloorDiv(rhs, scale) > 0
    ensures scale > 0
    ensures (scale * d + base) / rhs == (d + I.FloorDiv(base, scale)) / I.FloorDiv(rhs, scale)
    ensures (scale * d + base) % rhs == scale * ((d + I.FloorDiv(base, scale)) % I.FloorDiv(rhs, scale))
  {
    I.ExactDiv(scale, rhs);
    I.ExactDiv(scale, base);
    var b, r := I.FloorDiv(base, scale), I.FloorDiv(rhs, scale);
    assert rhs == scale * r && base == scale * b;
    PositiveFactor(scale, r);
    assert scale * d + base == (d + b) * scale;
    Commute(scale, r);
    CancelScale(d + b, r, scale);
    Commute(scale, (d + b) % r);
  }

  lemma PositiveFactor(s: int, r: int)
    requires s * r > 0 && r > 0
    ensures s > 0
  {
  }

  lemma {:induction false} DivideOut(d: int, scale: int, base: int, rhs: int)
    requires rhs > 0 && CanProveDivisible(scale, rhs) && CanProveDivisible(base, rhs)
    ensures (scale * d + base) / rhs == I.FloorDiv(scale, rhs) * d + I.FloorDiv(base, rhs)
    ensures (scale * d + base) % rhs == 0
  {
    I.ExactDiv(rhs, scale);
    I.ExactDiv(rhs, base);
    var s, b := I.FloorDiv(scale, rhs), I.FloorDiv(base, rhs);
    Gather(rhs, s, d, b);
    DivUnique(scale * d + base, rhs, s * d + b, 0);
  }

  lemma Gather(r: int, s: int, d: int, b: int)
    ensures (r * s) * d + r * b == (s * d + b) * r
  {
  }

  // ----- padding, as the unpadded runs see it -----

  /** In the first of two passes padding is recorded; otherwise it is not applied. */
  datatype Padded = Padded(split: Split, leftPad: int, needed: bool)

  function RightPad(edge: int, divisor: int): int
    requires divisor > 0
  {
    if CanProveDivisible(edge, divisor) then 0 else (-edge) % divisor
  }

  function PadDividend(split: Split, base: int, divisor: int, update: bool): Padded
    requires divisor > 0
  {
    var leftPad := base % divisor;
    var rightPad := RightPad(leftPad + split.extent, divisor);
    if !update then Padded(split, leftPad, false)
    else if leftPad == 0 && rightPad == 0 then Padded(split, 0, false)
    else Padded(split.(extent := leftPad + split.extent + rightPad), leftPad, true)
  }

  /** A first pass that needs no padding divides extents evenly. */
  lemma {:induction false} NoPadding(split: Split, base: int, divisor: int)
    requires divisor > 0 && !PadDividend(split, base, divisor, true).needed
    ensures base % divisor == 0 && split.extent % divisor == 0
    ensures PadDividend(split, base, divisor, true) == PadDividend(split, base, divisor, false)
  {
    EvenEither(split.extent, divisor);
  }

  lemma {:induction false} NothingToPad(split: Split, base: int, divisor: int, update: bool)
    requires divisor > 0 && base % divisor == 0 && split.extent % divisor == 0
    ensures PadDividend(split, base, divisor, update) == Padded(split, 0, false)
  {
    EvenEither(split.extent, divisor);
  }

  lemma {:induction false} EvenEither(e: int, d: int)
    requires d > 0
    ensures CanProveDivisible(e, d) <==> e % d == 0
    ensures (-e) % d == 0 <==> e % d == 0
  {
    if e % d == 0 {
      assert e == d * (e / d);
      assert -e == (-(e / d)) * d;
      DivUnique(-e, d, -(e / d), 0);
    }
    if (-e) % d == 0 {
      assert -e == d * ((-e) / d);
      assert e == (-((-e) / d)) * d;
      DivUnique(e, d, -((-e) / d), 0);
    }
    if CanProveDivisible(e, d) { I.ExactDiv(d, e); }
  }

  // ----- the quotient -----

  /** A split of an existing mark, or of a new mark that stands for `over`. */
  datatype Divided = Divided(over: Option<Split>, split: Split, base: int)

  /** next is the index a new mark would get. */
  function DivideUnit(padded: Split, leftPad: int, base: int, rhs: int, sourceExtent: int, next: nat): Divided
    requires rhs > 0
  {
    var e := padded.extent;
    var newBase := (base - leftPad) / rhs;
    if CanProveDivisible(e, rhs) then
      Divided(None, Split(padded.mark, padded.lower * rhs, I.FloorDiv(e, rhs), padded.scale), newBase)
    else if padded.lower == 1 && e == sourceExtent then
      Divided(None, Split(padded.mark, rhs, CeilDiv(e, rhs), padded.scale), newBase)
    else
      Divided(Some(padded), Split(next, rhs, CeilDiv(e, rhs), 1), newBase)
  }

  function CeilDiv(a: int, b: int): int
    requires b > 0
  {
    (a + b - 1) / b
  }

  lemma {:induction false} CeilCovers(a: int, b: int, y: int)
    requires b > 0 && 0 <= y < a
    ensures CeilDiv(a, b) > 0 && 0 <= y / b < CeilDiv(a, b)
  {
    var q, c := y / b, CeilDiv(a, b);
    var r := (a + b - 1) % b;
    assert a + b - 1 == b * c + r;
    assert y == b * q + y % b;
    if q >= c { MulMono(b, c, q); }
    if q < 0 { MulMono(b, q, -1); }
  }

  lemma MulMono(b: int, p: int, q: int)
    requires b > 0 && p <= q
    ensures b * p <= b * q
  {
  }

  /** (q % e) / r as one digit, when r divides e. */
  lemma {:induction false} EvenQuotient(x: int, lower: int, e: int, rhs: int)
    requires lower > 0 && e > 0 && rhs > 0 && CanProveDivisible(e, rhs)
    ensures lower * rhs > 0 && I.FloorDiv(e, rhs) > 0
    ensures (x / (lower * rhs)) % I.FloorDiv(e, rhs) == ((x / lower) % e) / rhs
  {
    I.ExactDiv(rhs, e);
    var m, q := I.FloorDiv(e, rhs), x / lower;
    assert e == rhs * m;
    PositiveFactor(m, rhs);
    SplitDivMod(x, lower, rhs);
    SplitDivMod(q, rhs, m);
    Commute((q / rhs) % m, rhs);
    DivUnique(q % e, rhs, (q / rhs) % m, q % rhs);
  }

  /** Without padding, the quotient's split is the dividend's digit divided by rhs. */
  lemma {:induction false} UnitQuotient(
    lhs: Split, leftPad: int, base: int, rhs: int, x: int, sourceExtent: int, next: nat)
    requires lhs.Valid() && lhs.scale == 1 && rhs > 0 && 0 <= x < sourceExtent
    ensures var r := DivideUnit(lhs, leftPad, base, rhs, sourceExtent, next);
      && r.split.Valid() && r.split.scale == 1
      && (r.over.None? ==> r.split.mark == lhs.mark && r.split.Digit(x) == lhs.Digit(x) / rhs)
      && (r.over.Some? ==>
        r.over.value == lhs && r.split.mark == next && r.split.Digit(lhs.Digit(x)) == lhs.Digit(x) / rhs)
  {
    if CanProveDivisible(lhs.extent, rhs) {
      EvenQuotient(x, lhs.lower, lhs.extent, rhs);
    } else if lhs.lower == 1 && lhs.extent == sourceExtent {
      CeilCovers(lhs.extent, rhs, x);
      DivUnique(x, 1, x, 0);
      DivUnique(x, sourceExtent, 0, x);
      DivUnique(x / rhs, CeilDiv(lhs.extent, rhs), 0, x / rhs);
    } else {
      var d := lhs.Digit(x);
      CeilCovers(lhs.extent, rhs, d);
      DivUnique(d / rhs, CeilDiv(lhs.extent, rhs), 0, d / rhs);
    }
  }

  // ----- when the unpadded forms are right -----

  /** How many values the digit takes while the source runs over [0, sourceExtent). */
  function Reach(lhs: Split, sourceExtent: int): int
    requires lhs.Valid()
  {
    var q := CeilDiv(sourceExtent, lhs.lower);
    if q <= lhs.extent then q else lhs.extent
  }

  lemma {:induction false} DigitReach(lhs: Split, sourceExtent: int, x: int)
    requires lhs.Valid() && 0 <= x < sourceExtent
    ensures 0 <= lhs.Digit(x) < Reach(lhs, sourceExtent)
  {
    CeilCovers(sourceExtent, lhs.lower, x);
    var q := x / lhs.lower;
    if q < lhs.extent { DivUnique(q, lhs.extent, 0, q); }
  }

  /** Every value below the reach is taken, at a multiple of the lower factor. */
  lemma {:induction false} DigitTaken(lhs: Split, sourceExtent: int, d: int)
    requires lhs.Valid() && sourceExtent > 0 && 0 <= d < Reach(lhs, sourceExtent)
    ensures 0 <= d * lhs.lower < sourceExtent && lhs.Digit(d * lhs.lower) == d
  {
    BelowCeil(sourceExtent, lhs.lower, d);
    DivUnique(d * lhs.lower, lhs.lower, d, 0);
    DivUnique(d, lhs.extent, 0, d);
  }

  lemma {:induction false} BelowCeil(a: int, b: int, d: int)
    requires b > 0 && a > 0 && 0 <= d < CeilDiv(a, b)
    ensures 0 <= d * b < a
  {
    var c, r := CeilDiv(a, b), (a + b - 1) % b;
    assert a + b - 1 == b * c + r;
    MulMono(b, d + 1, c);
    MulMono(b, 0, d);
    assert b * (d + 1) == d * b + b;
  }

  /** The quotient the rewriter returns when the dividend's digit is d, with no padding applied. */
  function QuotientValue(d: int, base: int, rhs: int): int
    requires rhs > 0
  {
    d / rhs + (base - base % rhs) / rhs
  }

  /**
   * The unpadded quotient is right on the whole range exactly when the base is a multiple of the
   * divisor, or base and digit together never reach the next multiple.
   */
  lemma {:induction false} QuotientExactIff(lhs: Split, base: int, rhs: int, sourceExtent: int)
    requires lhs.Valid() && rhs > 0 && sourceExtent > 0
    ensures (forall x :: 0 <= x < sourceExtent ==>
      QuotientValue(lhs.Digit(x), base, rhs) == (lhs.Digit(x) + base) / rhs)
      <==> base % rhs == 0 || Reach(lhs, sourceExtent) <= rhs - base % rhs
  {
    var p, q := base % rhs, base / rhs;
    forall d ensures QuotientValue(d, base, rhs) == (d + base) / rhs <==> d / rhs == (d + p) / rhs {
      BaseShift(d, base, rhs);
    }
    if p == 0 || Reach(lhs, sourceExtent) <= rhs - p {
      forall x | 0 <= x < sourceExtent
        ensures QuotientValue(lhs.Digit(x), base, rhs) == (lhs.Digit(x) + base) / rhs
      {
        var d := lhs.Digit(x);
        DigitReach(lhs, sourceExtent, x);
        if p != 0 {
          DivUnique(d, rhs, 0, d);
          DivUnique(d + p, rhs, 0, d + p);
        }
      }
    } else {
      var d := rhs - p;
      DigitTaken(lhs, sourceExtent, d);
      DivUnique(d, rhs, 0, d);
      DivUnique(d + p, rhs, 1, 0);
      assert QuotientValue(lhs.Digit(d * lhs.lower), base, rhs) != (lhs.Digit(d * lhs.lower) + base) / rhs;
    }
  }

  lemma {:induction false} BaseShift(d: int, base: int, rhs: int)
    requires rhs > 0
    ensures (d + base) / rhs == (d + base % rhs) / rhs + base / rhs
    ensures (base - base % rhs) / rhs == base / rhs
    ensures (d + base) % rhs == (d + base % rhs) % rhs
  {
    var p, q := base % rhs, base / rhs;
    assert base == q * rhs + p;
    AddMultiple(d + p, rhs, q);
    DivUnique(base - p, rhs, q, 0);
  }

  /** Where it fails: (x + 1) / 2 is rewritten to x / 2 for x in [0, 4). */
  lemma {:induction false} QuotientWrong()
    ensures QuotientValue(Split(0, 1, 4, 1).Digit(1), 1, 2) == 0 && (Split(0, 1, 4, 1).Digit(1) + 1) / 2 == 1
  {
    assert Split(0, 1, 4, 1).Digit(1) == 1;
  }

  /** The remainder the rewriter returns: the dividend's split with its extent replaced. */
  function RemainderSplit(lhs: Split, rhs: int): Split {
    lhs.(extent := rhs)
  }

  /**
   * The unpadded remainder is right on the whole range exactly when the base is a multiple of the
   * divisor and the old extent either is one too or never took effect.
   */
  lemma {:induction false} RemainderExactIff(lhs: Split, base: int, rhs: int, sourceExtent: int)
    requires lhs.Valid() && rhs > 0 && sourceExtent > 0
    ensures (forall x :: 0 <= x < sourceExtent ==> RemainderSplit(lhs, rhs).Digit(x) == (lhs.Digit(x) + base) % rhs)
      <==> base % rhs == 0 && (lhs.extent % rhs == 0 || CeilDiv(sourceExtent, lhs.lower) <= lhs.extent)
  {
    if base % rhs != 0 {
      RemainderWrongBase(lhs, base, rhs);
    } else if lhs.extent % rhs == 0 || CeilDiv(sourceExtent, lhs.lower) <= lhs.extent {
      forall x | 0 <= x < sourceExtent
        ensures RemainderSplit(lhs, rhs).Digit(x) == (lhs.Digit(x) + base) % rhs
      {
        RemainderRight(lhs, base, rhs, sourceExtent, x);
      }
    } else {
      RemainderWrongExtent(lhs, base, rhs, sourceExtent);
    }
  }

  lemma {:induction false} RemainderRight(lhs: Split, base: int, rhs: int, sourceExtent: int, x: int)
    requires lhs.Valid() && rhs > 0 && 0 <= x < sourceExtent && base % rhs == 0
    requires lhs.extent % rhs == 0 || CeilDiv(sourceExtent, lhs.lower) <= lhs.extent
    ensures RemainderSplit(lhs, rhs).Digit(x) == (lhs.Digit(x) + base) % rhs
  {
    var q := x / lhs.lower;
    BaseShift(lhs.Digit(x), base, rhs);
    CeilCovers(sourceExtent, lhs.lower, x);
    if lhs.extent % rhs == 0 {
      ModMod(q, lhs.extent, rhs);
    } else {
      DivUnique(q, lhs.extent, 0, q);
    }
  }

  lemma {:induction false} RemainderWrongBase(lhs: Split, base: int, rhs: int)
    requires lhs.Valid() && rhs > 0 && base % rhs != 0
    ensures RemainderSplit(lhs, rhs).Digit(0) != (lhs.Digit(0) + base) % rhs
  {
    DivUnique(0, lhs.lower, 0, 0);
    DivUnique(0, lhs.extent, 0, 0);
    DivUnique(0, rhs, 0, 0);
  }

  lemma {:induction false} RemainderWrongExtent(lhs: Split, base: int, rhs: int, sourceExtent: int)
    requires lhs.Valid() && rhs > 0 && sourceExtent > 0 && base % rhs == 0
    requires lhs.extent % rhs != 0 && CeilDiv(sourceExtent, lhs.lower) > lhs.extent
    ensures var x := lhs.extent * lhs.lower;
      0 <= x < sourceExtent && RemainderSplit(lhs, rhs).Digit(x) != (lhs.Digit(x) + base) % rhs
  {
    var x := lhs.extent * lhs.lower;
    BelowCeil(sourceExtent, lhs.lower, lhs.extent);
    DivUnique(x, lhs.lower, lhs.extent, 0);
    DivUnique(lhs.extent, lhs.extent, 1, 0);
  }

  lemma {:induction false} ModMod(q: int, e: int, r: int)
    requires e > 0 && r > 0 && e % r == 0
    ensures (q % e) % r == q % r
  {
    var m := e / r;
    assert e == r * m;
    PositiveFactor(m, r);
    SplitDivMod(q, r, m);
    Commute(r, (q / r) % m);
    AddMultiple(q % r, r, (q / r) % m);
    DivUnique(q % r, r, 0, q % r);
  }

  /** Where it fails: (x % 3) % 2 is rewritten to x % 2 for x in [0, 6). */
  lemma {:induction false} RemainderWrong()
    ensures RemainderSplit(Split(0, 1, 3, 1), 2).Digit(3) == 1 && (Split(0, 1, 3, 1).Digit(3) + 0) % 2 == 0
  {
    assert Split(0, 1, 3, 1).Digit(3) == 0;
  }
}
