// Padding an iterator so that every divisor met divides it: a first pass collects the divisors
// and the left paddings, a second builds the padded iterator and the predicate for its padding.
module IterPadding {
  import opened Expr
  import opened Radix
  import opened SplitCover
  import opened IterDivide
  import I = IntOperator

  /** What the padded iterator x + leftPad, of a multiple of the factor, looks like. */
  datatype PaddedMark = PaddedMark(leftPad: int, rightEdge: int, rightPad: int, extent: int)

  datatype PadInfo = PadInfo(factor: int, leftPad: int, padded: Option<PaddedMark>)

  /** A division of a split of the mark. */
  datatype Use = Use(mark: nat, lower: int, divisor: int)

  function InfoOf(table: map<nat, PadInfo>, mark: nat): PadInfo {
    if mark in table then table[mark] else PadInfo(1, 0, None)
  }

  predicate InfoOk(info: PadInfo) {
    info.factor > 0 && 0 <= info.leftPad < info.factor
  }

  ghost predicate Covered(table: map<nat, PadInfo>, u: Use) {
    u.lower > 0 && u.divisor > 0 && u.mark in table && I.Divides(u.divisor * u.lower, table[u.mark].factor)
  }

  /** The factor of every mark is a common multiple of divisor times lower factor over its uses. */
  ghost predicate Covers(table: map<nat, PadInfo>, uses: set<Use>) {
    && (forall k :: k in table ==> InfoOk(table[k]))
    && (forall u :: u in uses ==> Covered(table, u))
  }

  lemma {:induction false} LcmPositive(a: int, b: int)
    requires a > 0 && b > 0
    ensures var l := I.LeastCommonMultiple(a, b); l >= a && l >= b && I.Divides(a, l) && I.Divides(b, l)
  {
    I.BezoutUnimodular(a, b);
    I.BezoutIdentity(a, b);
    I.LcmFactors(a, b);
    var g := I.ExtGcd(a, b).0;
    var p, q := I.TruncDiv(a, g), I.TruncDiv(b, g);
    PositiveFactor(q, g);
    PositiveFactor(p, g);
    MulPos(a, q);
    MulPos(b, p);
    assert I.Divides(a, a * q) && I.Divides(b, b * p);
  }

  /** Predicate over the padded iterator's value y, as the rewriter builds it. */
  predicate PaddingPredicate(m: PaddedMark, factor: int, y: int)
    requires factor > 0
  {
    || (m.leftPad != 0 && y / factor == 0 && y % factor < m.leftPad)
    || (m.rightPad != 0 && y / factor == m.rightEdge / factor && y % factor >= m.rightEdge % factor)
  }

  function PadMark(markExtent: int, leftPad: int, factor: int): PaddedMark
    requires factor > 0
  {
    var edge := markExtent + leftPad;
    var rightPad := RightPad(edge, factor);
    PaddedMark(leftPad, edge, rightPad, edge + rightPad)
  }

  lemma {:induction false} PadMarkExtent(markExtent: int, leftPad: int, factor: int)
    requires factor > 0 && markExtent > 0 && leftPad >= 0
    ensures var m := PadMark(markExtent, leftPad, factor);
      && 0 <= m.rightPad < factor && m.extent % factor == 0 && I.Divides(factor, m.extent)
      && (m.rightPad != 0 ==> m.extent == (m.rightEdge / factor + 1) * factor)
  {
    var edge := markExtent + leftPad;
    EvenEither(edge, factor);
    EvenEither(edge + RightPad(edge, factor), factor);
    if edge % factor != 0 {
      var q, r := edge / factor, edge % factor;
      assert edge == q * factor + r;
      assert -edge == (-q - 1) * factor + (factor - r);
      DivUnique(-edge, factor, -q - 1, factor - r);
      assert (q + 1) * factor == q * factor + factor;
      DivUnique((q + 1) * factor, factor, q + 1, 0);
    }
  }

  /** The predicate holds exactly on the values that no value of the original iterator is shifted to. */
  lemma {:induction false} PaddingExact(markExtent: int, leftPad: int, factor: int, y: int)
    requires markExtent > 0 && 0 <= leftPad < factor && 0 <= y < PadMark(markExtent, leftPad, factor).extent
    ensures PaddingPredicate(PadMark(markExtent, leftPad, factor), factor, y) <==> !(0 <= y - leftPad < markExtent)
  {
    PadMarkExtent(markExtent, leftPad, factor);
    LeftSide(leftPad, factor, y);
    RightSide(PadMark(markExtent, leftPad, factor), factor, y);
  }

  lemma {:induction false} LeftSide(leftPad: int, factor: int, y: int)
    requires 0 <= leftPad < factor && 0 <= y
    ensures y / factor == 0 && y % factor < leftPad <==> y < leftPad
  {
    if y < factor {
      DivUnique(y, factor, 0, y);
    } else {
      assert y == factor * (y / factor) + y % factor;
    }
  }

  lemma {:induction false} RightSide(m: PaddedMark, factor: int, y: int)
    requires factor > 0 && 0 <= y < m.extent && m.extent == m.rightEdge + m.rightPad
    requires m.rightPad != 0 ==> m.extent == (m.rightEdge / factor + 1) * factor
    ensures m.rightPad != 0 && y / factor == m.rightEdge / factor && y % factor >= m.rightEdge % factor <==>
      y >= m.rightEdge
  {
    if m.rightPad != 0 {
      var q := m.rightEdge / factor;
      assert m.rightEdge == factor * q + m.rightEdge % factor;
      assert y == factor * (y / factor) + y % factor;
      if y >= m.rightEdge {
        assert (q + 1) * factor == factor * q + factor;
        DivUnique(y, factor, q, y - factor * q);
      }
    }
  }

  /** On the padded iterator every use divides evenly, so no further padding can be needed. */
  lemma {:induction false} UsesDivideEvenly(markExtent: int, info: PadInfo, u: Use)
    requires markExtent > 0 && InfoOk(info) && u.lower > 0 && u.divisor > 0
    requires I.Divides(u.divisor * u.lower, info.factor)
    ensures var p := PadMark(markExtent, info.leftPad, info.factor).extent;
      p % u.lower == 0 && (p / u.lower) % u.divisor == 0
  {
    PadMarkExtent(markExtent, info.leftPad, info.factor);
    var p := PadMark(markExtent, info.leftPad, info.factor).extent;
    I.DividesTrans(u.divisor * u.lower, info.factor, p);
    var k :| p == (u.divisor * u.lower) * k;
    Regroup4(u.divisor, u.lower, k);
    DivUnique(p, u.lower, u.divisor * k, 0);
    DivUnique(u.divisor * k, u.divisor, k, 0);
  }

  lemma Regroup4(d: int, l: int, k: int)
    ensures (d * l) * k == (d * k) * l
  {
  }

  class IterPads {
    var table: map<nat, PadInfo>
    var requiresPadding: bool
    ghost var uses: set<Use>

    ghost predicate Valid()
      reads this
    {
      Covers(table, uses)
    }

    constructor ()
      ensures Valid() && table == map[] && uses == {} && !requiresPadding
    {
      table, requiresPadding, uses := map[], false, {};
    }

    /** First pass: the mark's factor takes in the divisor, its left padding the split's. */
    method Collect(split: Split, base: int, divisor: int) returns (r: Split, leftPad: int)
      requires Valid() && split.Valid() && divisor > 0
      modifies this
      ensures Valid() && uses == old(uses) + {Use(split.mark, split.lower, divisor)}
      ensures table == old(table)[split.mark := CollectInfo(InfoOf(old(table), split.mark), split, base, divisor)]
      ensures requiresPadding <==> old(requiresPadding) || base % divisor != 0 || split.extent % divisor != 0
      ensures leftPad == base % divisor && r == split.(extent := r.extent) && r.extent % divisor == 0
      ensures split.extent + leftPad <= r.extent < split.extent + leftPad + divisor
    {
      leftPad := base % divisor;
      var edge := leftPad + split.extent;
      var rightPad := RightPad(edge, divisor);
      PadMarkExtent(split.extent, leftPad, divisor);
      EvenEither(edge, divisor);
      var info := InfoOf(table, split.mark);
      CollectInfoOk(info, split, base, divisor);
      info := info.(factor := I.LeastCommonMultiple(info.factor, divisor * split.lower));
      if leftPad != 0 || rightPad != 0 {
        requiresPadding := true;
        info := info.(leftPad := Larger(info.leftPad, leftPad * split.lower));
      }
      UsesKept(table, uses, info, split, divisor);
      table := table[split.mark := info];
      uses := uses + {Use(split.mark, split.lower, divisor)};
      r := split.(extent := edge + rightPad);
    }

    /** Second pass: the split over the padded mark, and the mark's padding predicate if it is new. */
    method Apply(split: Split, base: int, divisor: int, markExtent: int)
      returns (r: Option<Split>, leftPad: int, padding: Option<PaddedMark>)
      requires Valid() && split.Valid() && divisor > 0 && markExtent > 0
      requires split.mark in table && table[split.mark].padded.Some? ==>
        table[split.mark].padded.value == PadMark(markExtent, table[split.mark].leftPad, table[split.mark].factor)
      modifies this`table
      ensures Valid() && table.Keys == old(table).Keys
      ensures forall k :: k in table && k != split.mark ==> table[k] == old(table)[k]
      ensures split.mark in table ==> table[split.mark] == InfoAfter(old(table)[split.mark], split, divisor, markExtent)
      ensures split.mark !in table ==> r == Some(split) && leftPad == base % divisor
      ensures split.mark in table ==> (r, leftPad) == UseOf(old(table)[split.mark], split, base, divisor, markExtent)
      ensures padding.Some? <==> split.mark in table && old(table)[split.mark].padded != table[split.mark].padded
      ensures padding.Some? ==> padding == table[split.mark].padded
      ensures padding.Some? ==> forall y :: 0 <= y < padding.value.extent ==>
        var m := padding.value;
        (PaddingPredicate(m, table[split.mark].factor, y) <==> !(0 <= y - m.leftPad < markExtent))
      ensures r.Some? && Use(split.mark, split.lower, divisor) in uses && r.value != split ==>
        r.value.extent % divisor == 0 && r.value.lower == split.lower
    {
      leftPad := base % divisor;
      padding := None;
      if split.mark !in table {
        return Some(split), leftPad, None;
      }
      var info := table[split.mark];
      EvenEither(markExtent, info.factor);
      if info.leftPad == 0 && CanProveDivisible(markExtent, info.factor) {
        return Some(split), leftPad, None;
      }
      if !CanProveDivisible(info.factor, split.lower) || !CanProveDivisible(info.factor, divisor) {
        return None, leftPad, None;
      }
      var m := PadMark(markExtent, info.leftPad, info.factor);
      if info.padded.None? {
        if !CanProveDivisible(info.leftPad, split.lower) {
          return None, leftPad, None;
        }
        leftPad := I.FloorDiv(info.leftPad, split.lower);
        forall y | 0 <= y < m.extent
          ensures PaddingPredicate(m, info.factor, y) <==> !(0 <= y - m.leftPad < markExtent)
        {
          PaddingExact(markExtent, info.leftPad, info.factor, y);
        }
        padding := Some(m);
        table := table[split.mark := info.(padded := Some(m))];
        assert Valid() by { UsesSurvive(old(table), table, uses); }
      }
      if Use(split.mark, split.lower, divisor) in uses {
        UsesDivideEvenly(markExtent, info, Use(split.mark, split.lower, divisor));
      }
      r := Some(split.(extent := m.extent / split.lower));
    }
  }

  // ----- one use in the second pass -----

  /** The mark is left as it is: nothing to its left, and an even extent. */
  predicate NoNeed(info: PadInfo, markExtent: int)
    requires info.factor > 0
  {
    info.leftPad == 0 && CanProveDivisible(markExtent, info.factor)
  }

  /** The use is refused: the factor does not fit it, or a first use does not fit the left padding. */
  predicate Refuses(info: PadInfo, split: Split, divisor: int) {
    || !CanProveDivisible(info.factor, split.lower) || !CanProveDivisible(info.factor, divisor)
    || (info.padded.None? && !CanProveDivisible(info.leftPad, split.lower))
  }

  /** The split over the padded mark and the left padding taken off again; only the first use corrects the latter. */
  function UseOf(info: PadInfo, split: Split, base: int, divisor: int, markExtent: int): (Option<Split>, int)
    requires InfoOk(info) && split.Valid() && divisor > 0
  {
    if NoNeed(info, markExtent) then (Some(split), base % divisor)
    else if Refuses(info, split, divisor) then (None, base % divisor)
    else
      (Some(split.(extent := PadMark(markExtent, info.leftPad, info.factor).extent / split.lower)),
       if info.padded.None? then I.FloorDiv(info.leftPad, split.lower) else base % divisor)
  }

  function InfoAfter(info: PadInfo, split: Split, divisor: int, markExtent: int): PadInfo
    requires InfoOk(info)
  {
    if NoNeed(info, markExtent) || Refuses(info, split, divisor) || info.padded.Some? then info
    else info.(padded := Some(PadMark(markExtent, info.leftPad, info.factor)))
  }

  function Larger(a: int, b: int): int {
    if a < b then b else a
  }

  function CollectInfo(info: PadInfo, split: Split, base: int, divisor: int): PadInfo
    requires divisor > 0 && split.Valid()
  {
    var leftPad := base % divisor;
    MulPos(divisor, split.lower);
    var factor := I.LeastCommonMultiple(info.factor, divisor * split.lower);
    if leftPad == 0 && RightPad(leftPad + split.extent, divisor) == 0 then info.(factor := factor)
    else info.(factor := factor, leftPad := Larger(info.leftPad, leftPad * split.lower))
  }

  /** The collected factor is a multiple of the old one and of the new use; the left padding stays below it. */
  lemma {:induction false} CollectInfoOk(info: PadInfo, split: Split, base: int, divisor: int)
    requires InfoOk(info) && split.Valid() && divisor > 0
    ensures var r := CollectInfo(info, split, base, divisor);
      && InfoOk(r) && I.Divides(info.factor, r.factor) && I.Divides(divisor * split.lower, r.factor)
      && info.leftPad <= r.leftPad && (base % divisor) * split.lower <= r.leftPad
  {
    MulPos(divisor, split.lower);
    LcmPositive(info.factor, divisor * split.lower);
    ScaledBound(base % divisor, divisor, split.lower);
  }

  lemma {:induction false} UsesKept(table: map<nat, PadInfo>, uses: set<Use>, info: PadInfo, split: Split, divisor: int)
    requires Covers(table, uses) && InfoOk(info) && split.Valid() && divisor > 0
    requires I.Divides(InfoOf(table, split.mark).factor, info.factor) && I.Divides(divisor * split.lower, info.factor)
    ensures Covers(table[split.mark := info], uses + {Use(split.mark, split.lower, divisor)})
  {
    forall u | u in uses + {Use(split.mark, split.lower, divisor)}
      ensures Covered(table[split.mark := info], u)
    {
      if u in uses {
        assert Covered(table, u);
        if u.mark == split.mark { I.DividesTrans(u.divisor * u.lower, table[u.mark].factor, info.factor); }
      }
    }
  }

  lemma {:induction false} UsesSurvive(table: map<nat, PadInfo>, table': map<nat, PadInfo>, uses: set<Use>)
    requires Covers(table, uses) && table'.Keys == table.Keys
    requires forall k :: k in table ==> table'[k].factor == table[k].factor && table'[k].leftPad == table[k].leftPad
    ensures Covers(table', uses)
  {
    forall u | u in uses ensures Covered(table', u) { assert Covered(table, u); }
  }

  // ----- the value of a use -----

  /** The quotient of a use on the padded mark, whose value is x + pad, with leftPad taken off the base. */
  function PaddedQuotient(lower: int, base: int, divisor: int, pad: int, leftPad: int, x: int): int
    requires lower > 0 && divisor > 0
  {
    (x + pad) / lower / divisor + (base - leftPad) / divisor
  }

  /** That is what dividing the split over the padded mark gives. */
  lemma {:induction false} PaddedQuotientIsDivision(
    split: Split, base: int, divisor: int, markExtent: int, info: PadInfo, leftPad: int, x: int, next: nat)
    requires split.Valid() && split.scale == 1 && divisor > 0 && markExtent > 0 && InfoOk(info)
    requires I.Divides(split.lower, info.factor)
    requires 0 <= x < markExtent
    ensures var m := PadMark(markExtent, info.leftPad, info.factor);
      var d := DivideUnit(split.(extent := m.extent / split.lower), leftPad, base, divisor, m.extent, next);
      var y := x + info.leftPad;
      && 0 <= y < m.extent && d.split.Valid()
      && (if d.over.None? then d.split.Digit(y) else d.split.Digit(d.over.value.Digit(y))) + d.base
         == PaddedQuotient(split.lower, base, divisor, info.leftPad, leftPad, x)
  {
    var m, y := PadMark(markExtent, info.leftPad, info.factor), x + info.leftPad;
    var p := split.(extent := m.extent / split.lower);
    WholeDigit(split, markExtent, info, x);
    UnitQuotient(p, leftPad, base, divisor, y, m.extent, next);
  }

  /** Over the padded mark, the split reads its value from the place up, uncut. */
  lemma {:induction false} WholeDigit(split: Split, markExtent: int, info: PadInfo, x: int)
    requires split.Valid() && markExtent > 0 && InfoOk(info) && I.Divides(split.lower, info.factor)
    requires 0 <= x < markExtent
    ensures var m := PadMark(markExtent, info.leftPad, info.factor);
      var p := split.(extent := m.extent / split.lower);
      p.Valid() && 0 <= x + info.leftPad < m.extent && p.Digit(x + info.leftPad) == (x + info.leftPad) / split.lower
  {
    PadMarkExtent(markExtent, info.leftPad, info.factor);
    var m, y := PadMark(markExtent, info.leftPad, info.factor), x + info.leftPad;
    I.DividesTrans(split.lower, info.factor, m.extent);
    var k :| m.extent == split.lower * k;
    Commute(split.lower, k);
    DivUnique(m.extent, split.lower, k, 0);
    Below(y, split.lower, k);
    DivUnique(y / split.lower, k, 0, y / split.lower);
  }

  lemma {:induction false} Below(y: int, l: int, k: int)
    requires l > 0 && 0 <= y < l * k
    ensures 0 <= y / l < k
  {
    var q := y / l;
    assert y == l * q + y % l;
    if q >= k { MulMono(l, k, q); }
    if q < 0 { MulMono(l, q, -1); }
  }

  /** Shifts by a and by b reach the next multiples of n together, over the first e values. */
  predicate InStep(a: int, b: int, n: int, e: int)
    requires n > 0
  {
    a / n == b / n && (a % n == b % n || e <= n - Larger(a % n, b % n))
  }

  lemma {:induction false} InStepIff(a: int, b: int, n: int, e: int)
    requires n > 0 && e > 0
    ensures (forall x :: 0 <= x < e ==> Shifted(x, a, n) == Shifted(x, b, n)) <==> InStep(a, b, n, e)
  {
    if InStep(a, b, n, e) {
      forall x | 0 <= x < e ensures Shifted(x, a, n) == Shifted(x, b, n) { StepsTogether(a, b, n, e, x); }
    } else if a / n != b / n {
      assert Shifted(0, a, n) != Shifted(0, b, n);
    } else {
      var x := n - Larger(a % n, b % n);
      StepsApart(a, b, n, x);
      assert Shifted(x, a, n) != Shifted(x, b, n);
    }
  }

  function Shifted(x: int, a: int, n: int): int
    requires n > 0
  {
    (x + a) / n
  }

  lemma {:induction false} StepsTogether(a: int, b: int, n: int, e: int, x: int)
    requires n > 0 && InStep(a, b, n, e) && 0 <= x < e
    ensures (x + a) / n == (x + b) / n
  {
    var k := a / n;
    assert a == n * k + a % n && b == n * k + b % n;
    if a % n != b % n {
      Commute(n, k);
      DivUnique(x + a, n, k, x + a % n);
      DivUnique(x + b, n, k, x + b % n);
    }
  }

  lemma {:induction false} StepsApart(a: int, b: int, n: int, x: int)
    requires n > 0 && a / n == b / n && a % n != b % n && x == n - Larger(a % n, b % n)
    ensures (x + a) / n != (x + b) / n
  {
    var k := a / n;
    assert a == n * k + a % n && b == n * k + b % n;
    Commute(n, k);
    assert (k + 1) * n == k * n + n;
    if a % n > b % n {
      DivUnique(x + a, n, k + 1, 0);
      DivUnique(x + b, n, k, x + b % n);
    } else {
      DivUnique(x + a, n, k, x + a % n);
      DivUnique(x + b, n, k + 1, 0);
    }
  }

  /**
   * When the quotient of a use on the padded mark is right on the whole range: the shift by the
   * padding and the shift by the base keep in step, and a split that is cut off is constant.
   */
  predicate QuotientFits(split: Split, base: int, divisor: int, markExtent: int, pad: int, leftPad: int)
    requires split.Valid() && divisor > 0
  {
    MulPos(split.lower, divisor);
    var n := split.lower * divisor;
    var a, b := pad + (base - leftPad) / divisor * n, base * split.lower;
    if markExtent <= split.lower * split.extent then InStep(a, b, n, markExtent)
    else (markExtent - 1 + a) / n == a / n == base / divisor && (split.extent - 1 + base) / divisor == base / divisor
  }

  ghost predicate QuotientAgrees(split: Split, base: int, divisor: int, markExtent: int, pad: int, leftPad: int)
    requires split.Valid() && divisor > 0
  {
    forall x :: 0 <= x < markExtent ==> QuotientAt(split, base, divisor, pad, leftPad, x)
  }

  predicate QuotientAt(split: Split, base: int, divisor: int, pad: int, leftPad: int, x: int)
    requires split.Valid() && divisor > 0
  {
    PaddedQuotient(split.lower, base, divisor, pad, leftPad, x) == (split.Digit(x) + base) / divisor
  }

  lemma {:induction false} PaddedShift(lower: int, base: int, divisor: int, pad: int, leftPad: int, x: int)
    requires lower > 0 && divisor > 0
    ensures lower * divisor > 0
    ensures PaddedQuotient(lower, base, divisor, pad, leftPad, x) ==
      (x + (pad + (base - leftPad) / divisor * (lower * divisor))) / (lower * divisor)
    ensures (x / lower + base) / divisor == (x + base * lower) / (lower * divisor)
  {
    var n, q := lower * divisor, (base - leftPad) / divisor;
    SplitDivMod(x + pad, lower, divisor);
    AddMultiple(x + pad, n, q);
    AddMultiple(x, lower, base);
    SplitDivMod(x + base * lower, lower, divisor);
  }

  lemma {:induction false} UncutDigit(split: Split, markExtent: int, x: int)
    requires split.Valid() && 0 <= x < markExtent <= split.lower * split.extent
    ensures split.Digit(x) == x / split.lower
  {
    Below(x, split.lower, split.extent);
    DivUnique(x / split.lower, split.extent, 0, x / split.lower);
  }

  /** The exact condition. */
  lemma {:induction false} PaddedQuotientExactIff(
    split: Split, base: int, divisor: int, markExtent: int, pad: int, leftPad: int)
    requires split.Valid() && divisor > 0 && markExtent > 0
    ensures QuotientAgrees(split, base, divisor, markExtent, pad, leftPad) <==>
      QuotientFits(split, base, divisor, markExtent, pad, leftPad)
  {
    MulPos(split.lower, divisor);
    var n := split.lower * divisor;
    var a, b := pad + (base - leftPad) / divisor * n, base * split.lower;
    if markExtent <= split.lower * split.extent {
      InStepIff(a, b, n, markExtent);
      forall x | 0 <= x < markExtent
        ensures QuotientAt(split, base, divisor, pad, leftPad, x) <==> Shifted(x, a, n) == Shifted(x, b, n)
      {
        PaddedShift(split.lower, base, divisor, pad, leftPad, x);
        UncutDigit(split, markExtent, x);
      }
    } else {
      CutQuotient(split, base, divisor, markExtent, pad, leftPad);
    }
  }

  /** A split that is cut off: its digits start again, the padded quotient does not. */
  lemma {:induction false} CutQuotient(split: Split, base: int, divisor: int, markExtent: int, pad: int, leftPad: int)
    requires split.Valid() && divisor > 0 && markExtent > split.lower * split.extent
    ensures QuotientAgrees(split, base, divisor, markExtent, pad, leftPad) <==>
      QuotientFits(split, base, divisor, markExtent, pad, leftPad)
  {
    MulPos(split.lower, divisor);
    MulPos(split.lower, split.extent);
    var n, w := split.lower * divisor, split.lower * split.extent;
    var a := pad + (base - leftPad) / divisor * n;
    if QuotientAgrees(split, base, divisor, markExtent, pad, leftPad) {
      CutConstant(split, base, divisor, markExtent, pad, leftPad);
    }
    if QuotientFits(split, base, divisor, markExtent, pad, leftPad) {
      forall x | 0 <= x < markExtent ensures QuotientAt(split, base, divisor, pad, leftPad, x) {
        PaddedShift(split.lower, base, divisor, pad, leftPad, x);
        Monotone(a, x + a, markExtent - 1 + a, n);
        DigitRange(split, x);
        Monotone(base, split.Digit(x) + base, split.extent - 1 + base, divisor);
      }
    }
  }

  lemma {:induction false} DigitRange(split: Split, x: int)
    requires split.Valid()
    ensures 0 <= split.Digit(x) < split.extent
  {
  }

  lemma {:induction false} Monotone(x: int, y: int, z: int, n: int)
    requires n > 0 && x <= y <= z
    ensures x / n <= y / n <= z / n
  {
    Ordered(x, y, n);
    Ordered(y, z, n);
  }

  lemma {:induction false} Ordered(x: int, y: int, n: int)
    requires n > 0 && x <= y
    ensures x / n <= y / n
  {
    assert x == n * (x / n) + x % n && y == n * (y / n) + y % n;
    if x / n > y / n { MulMono(n, y / n + 1, x / n); }
  }

  /**
   * At the first value past the cut the digit is zero again, so both sides have been constant up to there and stay so.
   */
  lemma {:induction false} CutConstant(split: Split, base: int, divisor: int, markExtent: int, pad: int, leftPad: int)
    requires split.Valid() && divisor > 0 && markExtent > split.lower * split.extent
    requires QuotientAgrees(split, base, divisor, markExtent, pad, leftPad)
    ensures QuotientFits(split, base, divisor, markExtent, pad, leftPad)
  {
    MulPos(split.lower, divisor);
    MulPos(split.lower, split.extent);
    var l, n, w := split.lower, split.lower * divisor, split.lower * split.extent;
    var a := pad + (base - leftPad) / divisor * n;
    assert QuotientAt(split, base, divisor, pad, leftPad, 0);
    assert QuotientAt(split, base, divisor, pad, leftPad, w);
    PaddedShift(l, base, divisor, pad, leftPad, 0);
    PaddedShift(l, base, divisor, pad, leftPad, w);
    DivUnique(0, l, 0, 0);
    DivUnique(0, split.extent, 0, 0);
    Commute(l, split.extent);
    DivUnique(w, l, split.extent, 0);
    DivUnique(split.extent, split.extent, 1, 0);
    assert a / n == base / divisor && (w + a) / n == base / divisor;
    LastDigit(split, base, divisor, markExtent, pad, leftPad, a, n);
    ConstantOn(split, base, divisor, markExtent, pad, leftPad, a, n);
  }

  lemma {:induction false} LastDigit(
    split: Split, base: int, divisor: int, markExtent: int, pad: int, leftPad: int, a: int, n: int)
    requires split.Valid() && divisor > 0 && markExtent > split.lower * split.extent && n == split.lower * divisor > 0
    requires a == pad + (base - leftPad) / divisor * n
    requires QuotientAgrees(split, base, divisor, markExtent, pad, leftPad)
    requires a / n == base / divisor && (split.lower * split.extent + a) / n == base / divisor
    ensures (split.extent - 1 + base) / divisor == base / divisor
  {
    var l, t := split.lower, split.extent - 1;
    var x := l * t;
    assert l * split.extent == x + l;
    MulMono(l, 0, t);
    assert QuotientAt(split, base, divisor, pad, leftPad, x);
    PaddedShift(l, base, divisor, pad, leftPad, x);
    Commute(l, t);
    DivUnique(x, l, t, 0);
    DivUnique(t, split.extent, 0, t);
    Monotone(a, x + a, l * split.extent + a, n);
  }

  /** Both sides are constant: the digits by the last one, the padded quotient because it follows them. */
  lemma {:induction false} ConstantOn(
    split: Split, base: int, divisor: int, markExtent: int, pad: int, leftPad: int, a: int, n: int)
    requires split.Valid() && divisor > 0 && markExtent > 0 && n == split.lower * divisor > 0
    requires a == pad + (base - leftPad) / divisor * n
    requires QuotientAgrees(split, base, divisor, markExtent, pad, leftPad)
    requires (split.extent - 1 + base) / divisor == base / divisor
    ensures (markExtent - 1 + a) / n == base / divisor
  {
    var x := markExtent - 1;
    assert QuotientAt(split, base, divisor, pad, leftPad, x);
    PaddedShift(split.lower, base, divisor, pad, leftPad, x);
    DigitRange(split, x);
    Monotone(base, split.Digit(x) + base, split.extent - 1 + base, divisor);
  }

  /** A use whose own left padding is the mark's, and whose base it was taken from, is right. */
  lemma {:induction false} CorrectedFits(split: Split, base: int, divisor: int, markExtent: int, pad: int, leftPad: int)
    requires split.Valid() && divisor > 0 && 0 < markExtent <= split.lower * split.extent
    requires pad == leftPad * split.lower && (base - leftPad) % divisor == 0
    ensures QuotientFits(split, base, divisor, markExtent, pad, leftPad)
  {
    MulPos(split.lower, divisor);
    var l, q := split.lower, (base - leftPad) / divisor;
    assert base - leftPad == q * divisor;
    assert q * (l * divisor) == (q * divisor) * l;
    assert pad + q * (l * divisor) == base * l;
  }

  const WHOLE := Split(0, 1, 8, 1)

  /** The uses (x + 3) // 4 and (x + 1) // 2 over x in [0, 8) pad the mark by three on the left, to twelve. */
  lemma {:induction false} TwoUsesCollected()
    ensures CollectInfo(CollectInfo(PadInfo(1, 0, None), WHOLE, 3, 4), WHOLE, 1, 2) == PadInfo(4, 3, None)
    ensures PadMark(8, 3, 4) == PaddedMark(3, 11, 1, 12)
  {
    SmallLcms();
    NotDivisible();
    assert CollectInfo(PadInfo(1, 0, None), WHOLE, 3, 4) == PadInfo(4, 3, None);
  }

  /** The first takes three off again, the second only its own one. */
  lemma {:induction false} TwoUsesApplied()
    ensures UseOf(PadInfo(4, 3, None), WHOLE, 3, 4, 8) == (Some(WHOLE.(extent := 12)), 3)
    ensures InfoAfter(PadInfo(4, 3, None), WHOLE, 4, 8) == PadInfo(4, 3, Some(PadMark(8, 3, 4)))
    ensures UseOf(PadInfo(4, 3, Some(PadMark(8, 3, 4))), WHOLE, 1, 2, 8) == (Some(WHOLE.(extent := 12)), 1)
  {
    TwoUsesCollected();
    NotDivisible();
  }

  /** So the first is right. */
  lemma {:induction false} FirstUseFits()
    ensures QuotientFits(WHOLE, 3, 4, 8, 3, 3)
  {
    DivUnique(0, 4, 0, 0);
    CorrectedFits(WHOLE, 3, 4, 8, 3, 3);
  }

  /** But the second is (x + 3) // 2: one instead of zero at x == 0. */
  lemma {:induction false} SecondUseFails()
    ensures !QuotientAt(WHOLE, 1, 2, 3, 1, 0) && !QuotientAgrees(WHOLE, 1, 2, 8, 3, 1)
  {
    AtZero(WHOLE, 1, 2, 3, 1);
  }

  lemma {:induction false} AtZero(split: Split, base: int, divisor: int, pad: int, leftPad: int)
    requires split.Valid() && split.lower == 1 && divisor > 0
    ensures QuotientAt(split, base, divisor, pad, leftPad, 0) <==>
      pad / divisor + (base - leftPad) / divisor == base / divisor
  {
    SmallQuotients(pad, split.lower);
    SmallQuotients(0, split.lower);
    DivUnique(0, split.extent, 0, 0);
    assert split.Digit(0) == 0;
  }

  lemma SmallQuotients(x: int, d: int)
    requires d == 1
    ensures x / d == x
  {
  }

  lemma {:induction false} SmallLcms()
    ensures I.LeastCommonMultiple(1, 4) == 4 && I.LeastCommonMultiple(4, 2) == 4
  {
    LcmPositive(1, 4);
    LcmPositive(4, 2);
    assert I.Divides(4, 4) by { assert 4 == 4 * 1; }
    assert I.Divides(1, 4) by { assert 4 == 1 * 4; }
    assert I.Divides(2, 4) by { assert 4 == 2 * 2; }
    I.LcmSpec(1, 4, 4);
    I.LcmSpec(4, 2, 4);
    OnlyMultiple(I.LeastCommonMultiple(1, 4));
    OnlyMultiple(I.LeastCommonMultiple(4, 2));
  }

  lemma OnlyMultiple(l: int)
    requires l >= 4 && I.Divides(l, 4)
    ensures l == 4
  {
  }

  lemma {:induction false} NotDivisible()
    ensures !CanProveDivisible(11, 4) && CanProveDivisible(12, 4) && CanProveDivisible(4, 1) && CanProveDivisible(4, 4)
    ensures CanProveDivisible(4, 2) && CanProveDivisible(3, 1) && CanProveDivisible(10, 2) && I.FloorDiv(3, 1) == 3
  {
    EvenEither(11, 4);
    EvenEither(12, 4);
    EvenEither(4, 1);
    EvenEither(4, 4);
    EvenEither(4, 2);
    EvenEither(3, 1);
    EvenEither(10, 2);
  }

  // ----- remainders -----

  /** The remainder of a use on the padded mark; the base is not looked at. */
  function PaddedRemainder(lower: int, divisor: int, pad: int, x: int): int
    requires lower > 0 && divisor > 0
  {
    (x + pad) / lower % divisor
  }

  lemma {:induction false} PaddedRemainderIsSplit(split: Split, divisor: int, markExtent: int, info: PadInfo, x: int)
    requires split.Valid() && divisor > 0 && markExtent > 0 && InfoOk(info) && 0 <= x < markExtent
    ensures RemainderSplit(split, divisor).Digit(x + info.leftPad) ==
      PaddedRemainder(split.lower, divisor, info.leftPad, x)
  {
  }

  /** When the remainder of a use on the padded mark is right on the whole range. */
  predicate RemainderFits(split: Split, base: int, divisor: int, markExtent: int, pad: int)
    requires split.Valid() && divisor > 0
  {
    MulPos(split.lower, divisor);
    var l, n := split.lower, split.lower * divisor;
    var p, b := pad % n, base * l % n;
    || divisor == 1
    || (if markExtent <= l * split.extent then p / l == b / l && (p == b || markExtent <= l - p % l)
        else p == b && split.extent % divisor == 0)
  }

  predicate RemainderAt(split: Split, base: int, divisor: int, pad: int, x: int)
    requires split.Valid() && divisor > 0
  {
    PaddedRemainder(split.lower, divisor, pad, x) == (split.Digit(x) + base) % divisor
  }

  ghost predicate RemainderAgrees(split: Split, base: int, divisor: int, markExtent: int, pad: int)
    requires split.Valid() && divisor > 0
  {
    forall x :: 0 <= x < markExtent ==> RemainderAt(split, base, divisor, pad, x)
  }

  /** The digit of x + p at place l and radix d depends only on p modulo l * d. */
  lemma {:induction false} DigitShift(l: int, d: int, x: int, p: int)
    requires l > 0 && d > 0
    ensures l * d > 0 && (x + p) / l % d == (x + p % (l * d)) / l % d
  {
    MulPos(l, d);
    var n := l * d;
    var q, r := p / n, p % n;
    assert p == n * q + r;
    assert n * q == (q * d) * l;
    AddMultiple(x + r, l, q * d);
    AddMultiple((x + r) / l, d, q);
  }

  lemma {:induction false} BaseShift2(l: int, d: int, x: int, base: int)
    requires l > 0 && d > 0
    ensures (x / l + base) % d == (x + base * l) / l % d
  {
    AddMultiple(x, l, base);
  }

  /** The reduced base is a multiple of the place. */
  lemma {:induction false} BasePlace(l: int, d: int, base: int)
    requires l > 0 && d > 0
    ensures l * d > 0 && base * l % (l * d) == l * (base % d) && base * l % (l * d) / l == base % d
  {
    MulPos(l, d);
    CancelScale(base, d, l);
    Commute(l, d);
    Commute(l, base % d);
    DivUnique(l * (base % d), l, base % d, 0);
  }

  /** Up to the first step of the padded digit the two digits agree; there they part. */
  lemma {:induction false} RemainderStep(l: int, d: int, base: int, p: int, x: int)
    requires l > 0 && d > 1 && 0 <= p < l * d && p / l == base % d && 0 <= x
    ensures x < l - p % l ==> (x + p) / l % d == (x + l * (base % d)) / l % d
    ensures p % l > 0 && x == l - p % l ==> (x + p) / l % d != (x + l * (base % d)) / l % d
  {
    var k, t := base % d, p % l;
    assert p == l * k + t;
    Commute(l, k);
    assert (k + 1) * l == k * l + l;
    if x < l - t {
      DivUnique(x + p, l, k, x + t);
      DivUnique(x + l * k, l, k, x);
    } else if t > 0 && x == l - t {
      DivUnique(x + p, l, k + 1, 0);
      DivUnique(x + l * k, l, k, x);
      NextDigit(k, d);
    }
  }

  lemma {:induction false} NextDigit(k: int, d: int)
    requires d > 1 && 0 <= k < d
    ensures (k + 1) % d != k % d
  {
    DivUnique(k, d, 0, k);
    if k + 1 < d { DivUnique(k + 1, d, 0, k + 1); } else { DivUnique(k + 1, d, 1, 0); }
  }

  /** Both digits as digits of the reduced shifts. */
  lemma {:induction false} RemainderAtReduced(split: Split, base: int, divisor: int, pad: int, x: int)
    requires split.Valid() && divisor > 0
    ensures var l, n := split.lower, split.lower * divisor;
      && n > 0 && PaddedRemainder(l, divisor, pad, x) == (x + pad % n) / l % divisor
      && (x / l + base) % divisor == (x + l * (base % divisor)) / l % divisor
  {
    DigitShift(split.lower, divisor, x, pad);
    BaseShift2(split.lower, divisor, x, base);
    DigitShift(split.lower, divisor, x, base * split.lower);
    BasePlace(split.lower, divisor, base);
  }

  predicate DigitsMeet(l: int, d: int, p: int, k: int, x: int)
    requires l > 0 && d > 0
  {
    (x + p) / l % d == (x + l * k) / l % d
  }

  lemma {:induction false} DigitsMeetIff(l: int, d: int, p: int, base: int, e: int)
    requires l > 0 && d > 1 && 0 <= p < l * d && e > 0
    ensures (forall x :: 0 <= x < e ==> DigitsMeet(l, d, p, base % d, x)) <==>
      p / l == base % d && (p == l * (base % d) || e <= l - p % l)
  {
    var k := base % d;
    Below(p, l, d);
    Commute(l, k);
    DivUnique(l * k, l, k, 0);
    DivUnique(p / l, d, 0, p / l);
    DivUnique(k, d, 0, k);
    if p / l != k {
      assert !DigitsMeet(l, d, p, k, 0);
    } else if p != l * k && e > l - p % l {
      assert p == l * k + p % l;
      RemainderStep(l, d, base, p, l - p % l);
      assert !DigitsMeet(l, d, p, k, l - p % l);
    } else {
      forall x | 0 <= x < e ensures DigitsMeet(l, d, p, k, x) {
        if p != l * k { RemainderStep(l, d, base, p, x); }
      }
    }
  }

  /** The exact condition, for a split that is not cut off. */
  lemma {:induction false} UncutRemainder(split: Split, base: int, divisor: int, markExtent: int, pad: int)
    requires split.Valid() && divisor > 1 && 0 < markExtent <= split.lower * split.extent
    ensures RemainderAgrees(split, base, divisor, markExtent, pad) <==>
      RemainderFits(split, base, divisor, markExtent, pad)
  {
    MulPos(split.lower, divisor);
    var l, n := split.lower, split.lower * divisor;
    var p, k := pad % n, base % divisor;
    BasePlace(l, divisor, base);
    DigitsMeetIff(l, divisor, p, base, markExtent);
    forall x | 0 <= x < markExtent
      ensures RemainderAt(split, base, divisor, pad, x) <==> DigitsMeet(l, divisor, p, k, x)
    {
      RemainderAtReduced(split, base, divisor, pad, x);
      UncutDigit(split, markExtent, x);
    }
  }

  lemma {:induction false} CutRemainder(split: Split, base: int, divisor: int, markExtent: int, pad: int)
    requires split.Valid() && divisor > 1 && markExtent > split.lower * split.extent
    ensures RemainderAgrees(split, base, divisor, markExtent, pad) <==>
      RemainderFits(split, base, divisor, markExtent, pad)
  {
    MulPos(split.lower, divisor);
    MulPos(split.lower, split.extent);
    var l, n, w := split.lower, split.lower * divisor, split.lower * split.extent;
    UncutRemainder(split, base, divisor, w, pad);
    if RemainderAgrees(split, base, divisor, markExtent, pad) {
      assert RemainderAgrees(split, base, divisor, w, pad);
      PastCut(split, base, divisor, pad);
    }
    if RemainderFits(split, base, divisor, markExtent, pad) {
      forall x | 0 <= x < markExtent ensures RemainderAt(split, base, divisor, pad, x) {
        BasePlace(l, divisor, base);
        RemainderAtReduced(split, base, divisor, pad, x);
        DropMultiple(x / l, split.extent, base, divisor);
      }
    }
  }

  lemma {:induction false} DropMultiple(y: int, e: int, base: int, d: int)
    requires d > 0 && e > 0 && e % d == 0
    ensures (y % e + base) % d == (y + base) % d
  {
    assert y == e * (y / e) + y % e;
    assert e == d * (e / d);
    assert e * (y / e) == ((e / d) * (y / e)) * d;
    AddMultiple(y % e + base, d, (e / d) * (y / e));
  }

  /** At the first value past the cut. */
  lemma {:induction false} PastCut(split: Split, base: int, divisor: int, pad: int)
    requires split.Valid() && divisor > 1
    requires RemainderFits(split, base, divisor, split.lower * split.extent, pad)
    requires RemainderAt(split, base, divisor, pad, split.lower * split.extent)
    ensures split.lower * divisor > 0
    ensures pad % (split.lower * divisor) == base * split.lower % (split.lower * divisor) && split.extent % divisor == 0
  {
    MulPos(split.lower, divisor);
    MulPos(split.lower, split.extent);
    var l, n, w := split.lower, split.lower * divisor, split.lower * split.extent;
    BasePlace(l, divisor, base);
    WholeStep(l, pad % n, base % divisor, split.extent);
    RemainderAtReduced(split, base, divisor, pad, w);
    CutDigit(split);
    assert (split.extent + base) % divisor == base % divisor;
    Periodic(split.extent, base, divisor);
  }

  /** A cut at least as long as a place leaves no room for a part of one. */
  lemma {:induction false} WholeStep(l: int, p: int, k: int, e: int)
    requires l > 0 && e > 0 && p / l == k && (p == l * k || l * e <= l - p % l)
    ensures p == l * k
  {
    MulPos(l, e);
    assert p == l * (p / l) + p % l;
  }

  lemma {:induction false} CutDigit(split: Split)
    requires split.Valid()
    ensures split.lower * split.extent / split.lower == split.extent && split.Digit(split.lower * split.extent) == 0
  {
    Commute(split.lower, split.extent);
    DivUnique(split.lower * split.extent, split.lower, split.extent, 0);
    DivUnique(split.extent, split.extent, 1, 0);
  }

  lemma {:induction false} Periodic(e: int, base: int, d: int)
    requires d > 0 && (e + base) % d == base % d
    ensures e % d == 0
  {
    var q := (e + base) / d - base / d;
    assert e + base == d * ((e + base) / d) + (e + base) % d && base == d * (base / d) + base % d;
    assert e == q * d;
    DivUnique(e, d, q, 0);
  }

  /** The exact condition. */
  lemma {:induction false} PaddedRemainderExactIff(split: Split, base: int, divisor: int, markExtent: int, pad: int)
    requires split.Valid() && divisor > 0 && markExtent > 0
    ensures RemainderAgrees(split, base, divisor, markExtent, pad) <==>
      RemainderFits(split, base, divisor, markExtent, pad)
  {
    if divisor > 1 {
      if markExtent <= split.lower * split.extent {
        UncutRemainder(split, base, divisor, markExtent, pad);
      } else {
        CutRemainder(split, base, divisor, markExtent, pad);
      }
    }
  }
}
