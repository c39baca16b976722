// Dividing a comparison by the common divisor of its scales.
module CanonicalCompare {
  import opened Expr
  import opened DivModes
  import opened CanonicalForm
  import opened CanonicalSign
  import opened CanonicalSum
  import opened CanonicalMerge
  import opened CanonicalSplit
  import opened CanonicalSimplify
  import opened CanonicalAffine
  import I = IntOperator

  // ----- the two cases -----

  /** d * D + E < 0 with E a proper fraction of d. */
  lemma {:induction false} DropFraction(d: int, D: int, E: int)
    requires d > 0 && 0 <= E < d
    ensures d * D + E < 0 <==> D < 0
  {
    if D < 0 { assert d * D <= -d; } else { assert d * D >= 0; }
  }

  /** As many whole d as E holds may move into D. */
  lemma {:induction false} MoveWhole(d: int, D: int, E: int)
    requires d > 0
    ensures d * D + E < 0 <==> D + I.FloorDiv(E, d) < 0
  {
    QuotRem(Floor, E, d);
    var q, r := I.FloorDiv(E, d), I.FloorMod(E, d);
    assert d * D + E == d * (D + q) + r by { Spread2(d, D, q); }
    DropFraction(d, D + q, r);
  }

  /** The extra term as the comparison uses it: (index / (d * lower)) % (upper / (d * lower)). */
  function ExtraTerm(s: SplitExpr, d: int, v: int): int
    requires s.Valid() && s.upper.Some? && d * s.lower != 0 && Divisible(s.upper.value, d * s.lower)
  {
    var l := d * s.lower;
    var k := I.FloorDiv(s.upper.value, l);
    if k == 0 then 0 else I.FloorMod(I.FloorDiv(v, l), k)
  }

  lemma {:induction false} ExtraIsQuotient(s: SplitExpr, d: int, v: int)
    requires s.Valid() && s.mode == Floor && s.upper.Some? && d > 0 && s.lower > 0 && s.upper.value > 0
    requires d * s.lower != 0 && Divisible(s.upper.value, d * s.lower)
    ensures ExtraTerm(s, d, v) == I.FloorDiv(Core(s, v), d)
  {
    var l, u := d * s.lower, s.upper.value;
    I.ExactDiv(l, u);
    var k := I.FloorDiv(u, l);
    assert l > 0 by { Signs(d, s.lower); }
    PositiveCofactor(l, k);
    RemOfQuot(Floor, v, l, k);
    Nest(Floor, I.FloorMod(v, u), s.lower, d);
    assert s.lower * d == l;
  }

  /** The split a comparison may be simplified by, with the factors such a split is meant to hold. */
  ghost predicate Usable(s: SplitExpr, d: int) {
    && s.Valid() && (s.scale == 1 || s.scale == -1) && d > 1 && s.lower > 0 && s.upper.Some? && s.upper.value > 0
    && d * s.lower != 0 && Divisible(s.upper.value, d * s.lower)
  }

  /** The comparison and its simplified form agree. */
  predicate Agree(s: SplitExpr, d: int, D: int, v: int)
    requires s.Valid() && s.upper.Some? && d * s.lower != 0 && Divisible(s.upper.value, d * s.lower)
  {
    d * D + s.scale * Core(s, v) < 0 <==> D + ExtraTerm(s, d, v) < 0
  }

  /** The comparison's simplification is right for all values exactly when the term is floored and of scale one. */
  lemma {:induction false} ExtraExactIff(s: SplitExpr, d: int)
    requires Usable(s, d)
    ensures (forall D, v :: Agree(s, d, D, v)) <==> s.scale == 1 && s.mode == Floor
  {
    if s.scale == 1 && s.mode == Floor {
      forall D, v ensures Agree(s, d, D, v) {
        ExtraIsQuotient(s, d, v);
        MoveWhole(d, D, Core(s, v));
      }
    } else {
      var v := if s.scale == -1 then s.lower else -s.lower;
      ExtraWrong(s, d, v);
      assert d * 0 == 0;
      assert !Agree(s, d, 0, v);
    }
  }

  /** At D == 0 the term is minus one, and the simplified comparison fails to see it. */
  lemma {:induction false} ExtraWrong(s: SplitExpr, d: int, v: int)
    requires Usable(s, d) && !(s.scale == 1 && s.mode == Floor) && v == if s.scale == -1 then s.lower else -s.lower
    ensures s.scale * Core(s, v) == -1 && ExtraTerm(s, d, v) >= 0
  {
    var l, u := d * s.lower, s.upper.value;
    I.ExactDiv(l, u);
    var k := I.FloorDiv(u, l);
    assert l > 0 by { Signs(d, s.lower); }
    PositiveCofactor(l, k);
    Steps(s.lower, 1, d);
    assert s.lower * d == l;
    QuotUnique(s.mode, v, u, 0, v);
    QuotUnique(s.mode, v, s.lower, if s.scale == -1 then 1 else -1, 0);
    QuotRem(Floor, I.FloorDiv(v, l), k);
  }

  /** Where it fails: 8 * x - (y % 16) < 0 becomes x + (y / 8) % 2 < 0, which is wrong at x == 1, y == 15. */
  lemma {:induction false} NegatedExtraFails()
    ensures var s := SplitExpr(Var("y"), 1, Some(16), -1, Floor); Usable(s, 8) && !Agree(s, 8, 1, 15)
  {
    assert I.Divides(8, 16) by { assert 16 == 8 * 2; }
    assert I.Divides(1, 16) by { assert 16 == 1 * 16; }
    var s := SplitExpr(Var("y"), 1, Some(16), -1, Floor);
    QuotUnique(Floor, 15, 16, 0, 15);
    DivideByOne(Floor, 15);
    assert Core(s, 15) == 15;
    QuotUnique(Floor, 15, 8, 1, 7);
    QuotUnique(Floor, 16, 8, 2, 0);
    QuotUnique(Floor, 1, 2, 0, 1);
    assert ExtraTerm(s, 8, 15) == 1;
  }

  // ----- the visitor -----

  /** The gcd of the base and of the scales other than zero and plus or minus one. */
  /** k divides the base and, of the first n scales, those beyond one in magnitude. */
  ghost predicate DividesScales(k: int, sum: SumForm, n: nat)
    requires n <= |sum.args|
  {
    && I.Divides(k, sum.base)
    && forall i :: 0 <= i < n && I.Abs(sum.args[i].scale) > 1 ==> I.Divides(k, sum.args[i].scale)
  }

  method CommonScale(sum: SumForm) returns (d: int, some: bool)
    ensures some <==> exists i :: 0 <= i < |sum.args| && I.Abs(sum.args[i].scale) > 1
    ensures some ==> d >= 0 && DividesScales(d, sum, |sum.args|)
    ensures some ==> forall k: int :: DividesScales(k, sum, |sum.args|) ==> I.Divides(k, d)
  {
    d, some := sum.base, false;
    assert I.Divides(d, sum.base) by { assert sum.base == d * 1; }
    for i := 0 to |sum.args|
      invariant DividesScales(d, sum, i) && (some ==> d >= 0)
      invariant some <==> exists j :: 0 <= j < i && I.Abs(sum.args[j].scale) > 1
      invariant forall k: int :: DividesScales(k, sum, i) ==> I.Divides(k, d)
    {
      var s := sum.args[i].scale;
      if s > 1 || s < -1 {
        some := true;
        ghost var before := d;
        var a: int := I.Abs(s);
        d := I.ZeroAwareGCD(d, a);
        I.GcdSpec(before, a, d);
        I.DividesAbs(d, s);
        GcdDivides(before, a, d);
        I.DividesTrans(d, before, sum.base);
        forall j | 0 <= j < i && I.Abs(sum.args[j].scale) > 1 ensures I.Divides(d, sum.args[j].scale) {
          I.DividesTrans(d, before, sum.args[j].scale);
        }
        forall k: int | DividesScales(k, sum, i + 1) ensures I.Divides(k, d) {
          assert DividesScales(k, sum, i);
          I.DividesAbs(k, s);
          I.GcdSpec(before, a, k);
        }
      }
    }
  }

  lemma {:induction false} GcdDivides(a: int, b: int, g: int)
    requires g == I.Gcd(a, b)
    ensures I.Divides(g, a) && I.Divides(g, b)
  {
    I.GcdSpec(a, b, g);
    assert I.Divides(g, g) by { assert g == g * 1; }
  }

  /** The extra term that was taken as a floored one of scale one. */
  ghost predicate Fair(extra: Option<SplitExpr>) {
    extra.Some? ==>
      var s := extra.value;
      s.scale == 1 && s.mode == Floor && s.lower > 0 && s.upper.Some? && s.upper.value > 0
  }

  /** The term left over from a sum of mild floored terms is fair: its scale is one, not minus one. */
  lemma {:induction false} MildIsFair(args: seq<SplitExpr>, s: SplitExpr, d: int)
    requires AllMild(args, LEAN) && s in args && d > 1 && s.upper.Some? && !Divisible(s.scale, d)
    requires forall i :: 0 <= i < |args| && I.Abs(args[i].scale) > 1 ==> I.Divides(d, args[i].scale)
    ensures Fair(Some(s))
  {
    var i :| 0 <= i < |args| && args[i] == s;
    assert MildSplit(args[i], LEAN);
    assert I.Divides(d, 0) by { assert 0 == d * 0; }
  }

  // ----- comparisons that divide evenly -----

  /** k divides the base and every scale. */
  ghost predicate DividesAll(k: int, sum: SumForm) {
    I.Divides(k, sum.base) && forall i :: 0 <= i < |sum.args| ==> I.Divides(k, sum.args[i].scale)
  }

  /** The bounds on zero that the comparison may ask for are known. */
  ghost predicate KnowsZero(facts: Facts) {
    facts.nonneg(Const(0)) && forall d: int :: d > 0 ==> facts.below(Const(0), d)
  }

  /** q < 0 is the comparison divided by the greatest divisor of base and scales. */
  ghost predicate Lowest(sum: SumForm, q: Expr, d: int) {
    && d > 1 && (forall env :: SumVal(sum, env) == d * Eval(q, env))
    && (forall k: int :: DividesAll(k, sum) ==> I.Divides(k, d))
  }

  lemma {:induction false} NoUnitScale(k: int, s: int)
    requires k > 1 && I.Divides(k, s) && s != 0
    ensures I.Abs(s) > 1
  {
    var t :| s == k * t;
    if t > 0 { MultipleGrows(k, t); } else { MultipleGrows(k, -t); }
  }

  lemma MultipleGrows(k: int, t: int)
    requires k > 1 && t > 0
    ensures k * t > 1
  {
  }

  /** Where some k beyond one divides base and scales, so does the common scale, which is beyond one. */
  lemma {:induction false} CommonIsEven(sum: SumForm, k: int, d: int)
    requires k > 1 && DividesAll(k, sum) && !AllZero(sum.args) && d >= 0 && DividesScales(d, sum, |sum.args|)
    requires forall j: int :: DividesScales(j, sum, |sum.args|) ==> I.Divides(j, d)
    ensures d > 1 && DividesAll(d, sum)
    ensures forall j: int :: DividesAll(j, sum) ==> I.Divides(j, d)
  {
    forall i | 0 <= i < |sum.args| ensures I.Divides(d, sum.args[i].scale) {
      if sum.args[i].scale == 0 { assert 0 == d * 0; } else { NoUnitScale(k, sum.args[i].scale); }
    }
    forall j: int | DividesAll(j, sum) ensures I.Divides(j, d) { assert DividesScales(j, sum, |sum.args|); }
    var i :| 0 <= i < |sum.args| && sum.args[i].scale != 0;
    assert I.Divides(d, sum.args[i].scale) && I.Divides(k, d);
    NoUnitScale(k, d);
  }

  lemma {:induction false} EvenCommon(sum: SumForm, d: int, some: bool)
    requires !AllZero(sum.args) && exists k: int :: k > 1 && DividesAll(k, sum)
    requires some <==> exists i :: 0 <= i < |sum.args| && I.Abs(sum.args[i].scale) > 1
    requires some ==> d >= 0 && DividesScales(d, sum, |sum.args|)
    requires some ==> forall k: int :: DividesScales(k, sum, |sum.args|) ==> I.Divides(k, d)
    ensures some && d > 1 && DividesAll(d, sum)
    ensures forall j: int :: DividesAll(j, sum) ==> I.Divides(j, d)
  {
    var k: int :| k > 1 && DividesAll(k, sum);
    var i :| 0 <= i < |sum.args| && sum.args[i].scale != 0;
    NoUnitScale(k, sum.args[i].scale);
    CommonIsEven(sum, k, d);
  }

  lemma HeadIn(args: seq<SplitExpr>)
    ensures args == [] || exists i :: 0 <= i < |args| && args[i] in args
  {
    if args != [] { assert args[0] in args; }
  }

  lemma {:induction false} NoExtra(sum: SumForm, d: int, extra: SumForm)
    requires d > 1 && DividesAll(d, sum) && (Divisible(sum.base, d) ==> extra.base == 0)
    requires forall i :: 0 <= i < |extra.args| ==> !Divisible(extra.args[i].scale, d) && extra.args[i] in sum.args
    ensures extra.args == [] && extra.base == 0
  {
    assert forall s :: s in sum.args ==> I.Divides(d, s.scale);
    HeadIn(extra.args);
  }

  /** What a comparison of the sum with zero becomes. */
  method DivideComparison(
    sum: SumForm, facts: Facts, ghost ctx: iset<Env>) returns (r: Option<Cond>, ghost extraUsed: Option<SplitExpr>)
    requires Tidy(AsSum(sum)) && Sound(facts, ctx)
    ensures r.Some? && Fair(extraUsed) ==> forall env :: env in ctx ==> (Holds(r.value, env) <==> SumVal(sum, env) < 0)
    ensures ArgsCost(sum.args) == 0 ==> extraUsed.None?
    ensures r.Some? && (ArgsCost(sum.args) == 0 || AllMild(sum.args, LEAN)) ==>
      forall env :: env in ctx ==> (Holds(r.value, env) <==> SumVal(sum, env) < 0)
    ensures KnowsZero(facts) && !AllZero(sum.args) && (exists k: int :: k > 1 && DividesAll(k, sum)) ==>
      && r.Some? && r.value.LT? && r.value.y == Const(0)
      && exists d :: Lowest(sum, r.value.x, d)
  {
    var d, some := CommonScale(sum);
    ghost var even := !AllZero(sum.args) && exists k: int :: k > 1 && DividesAll(k, sum);
    if even { EvenCommon(sum, d, some); }
    if !some || d <= 1 {
      return None, None;
    }
    var quotient, part, extra, rest := DivideParts(sum, d);
    if even { assert rest == Const(0) by { NoExtra(sum, d, extra); } }
    var q := Normalize(AsSum(quotient));
    if facts.below(rest, d) && facts.nonneg(rest) {
      forall env | env in ctx ensures Eval(q, env) < 0 <==> SumVal(sum, env) < 0 {
        DropFraction(d, SumVal(quotient, env), Eval(rest, env));
      }
      r, extraUsed := Some(LT(q, Const(0))), None;
      assert even ==> Lowest(sum, q, d);
    } else if |extra.args| == 1 && CanMove(extra.args[0], d) {
      var s := extra.args[0];
      var term := FMod(FDiv(s.index, Const(d * s.lower)), Const(I.FloorDiv(s.upper.value, d * s.lower)));
      r, extraUsed := Some(LT(MkAdd(q, term), Const(0))), Some(s);
      assert ArgsCost(extra.args) >= SplitCost(s) >= 1;
      if AllMild(sum.args, LEAN) { MildIsFair(sum.args, s, d); }
      if Fair(extraUsed) {
        assert extra == SumForm([s], 0);
        forall env | env in ctx ensures Holds(r.value, env) <==> SumVal(sum, env) < 0 {
          ExtraHolds(s, d, term, q, quotient, extra, env);
        }
      }
    } else {
      r, extraUsed := None, None;
    }
  }

  /** The term's range is a whole number of steps of d times its lower factor. */
  predicate CanMove(s: SplitExpr, d: int) {
    s.upper.Some? && d * s.lower != 0 && Divisible(s.upper.value, d * s.lower)
  }

  lemma {:induction false} ExtraHolds(
    s: SplitExpr, d: int, term: Expr, q: Expr, quotient: SumForm, extra: SumForm, env: Env)
    requires Usable(s, d) && Fair(Some(s)) && extra == SumForm([s], 0) && Eval(q, env) == SumVal(quotient, env)
    requires term == FMod(FDiv(s.index, Const(d * s.lower)), Const(I.FloorDiv(s.upper.value, d * s.lower)))
    ensures Eval(MkAdd(q, term), env) < 0 <==> d * SumVal(quotient, env) + SumVal(extra, env) < 0
  {
    var v, l := Eval(s.index, env), d * s.lower;
    OneArgVal(s, extra.args, env);
    ExtraIsQuotient(s, d, v);
    MoveWhole(d, SumVal(quotient, env), Core(s, v));
    assert Eval(FDiv(s.index, Const(l)), env) == I.FloorDiv(v, l);
    assert Eval(term, env) == ExtraTerm(s, d, v);
  }

  /** k divides the difference of x and y, whatever the variables are. */
  ghost predicate DividesGap(k: int, x: Expr, y: Expr) {
    forall env :: I.Divides(k, Eval(x, env) - Eval(y, env))
  }

  /** q < 0 is x < y divided by the greatest divisor of their difference. */
  ghost predicate LowestTerms(x: Expr, y: Expr, q: Expr, d: int) {
    && d > 1 && (forall env :: Eval(x, env) - Eval(y, env) == d * Eval(q, env))
    && (forall k: int :: DividesGap(k, x, y) ==> I.Divides(k, d))
  }

  ghost predicate GapOf(x: Expr, y: Expr, sum: SumForm) {
    forall env :: SumVal(sum, env) == Eval(x, env) - Eval(y, env)
  }

  lemma {:induction false} GapTimes(x: Expr, y: Expr, sum: SumForm, q: Expr, d: int)
    requires GapOf(x, y, sum) && forall env :: SumVal(sum, env) == d * Eval(q, env)
    ensures forall env :: Eval(x, env) - Eval(y, env) == d * Eval(q, env)
  {
    forall env ensures Eval(x, env) - Eval(y, env) == d * Eval(q, env) {
      assert SumVal(sum, env) == d * Eval(q, env);
    }
  }

  /** What divides every value of a sum of variables divides its base and scales. */
  lemma {:induction false} GapDividesAll(k: int, x: Expr, y: Expr, sum: SumForm)
    requires Bares(sum.args) && GapOf(x, y, sum) && DividesGap(k, x, y)
    ensures DividesAll(k, sum)
  {
    var none: Env := map[];
    BaresAtZero(sum.args);
    assert I.Divides(k, Eval(x, none) - Eval(y, none)) && SumVal(sum, none) == sum.base;
    forall i | 0 <= i < |sum.args| ensures I.Divides(k, sum.args[i].scale) {
      assert Bare(sum.args[i]);
      var v := sum.args[i].index.name;
      var one: Env := map[v := 1];
      BareScale(sum.args, v);
      assert I.Divides(k, Eval(x, one) - Eval(y, one));
      I.DividesLinear(k, SumVal(sum, one), SumVal(sum, none), 1, -1);
      assert 1 * SumVal(sum, one) + -1 * SumVal(sum, none) == sum.args[i].scale;
    }
  }

  lemma {:induction false} GapLowest(x: Expr, y: Expr, sum: SumForm, q: Expr, d: int)
    requires Bares(sum.args) && GapOf(x, y, sum) && Lowest(sum, q, d)
    ensures LowestTerms(x, y, q, d)
  {
    GapTimes(x, y, sum, q, d);
    forall k: int | DividesGap(k, x, y) ensures I.Divides(k, d) { GapDividesAll(k, x, y, sum); }
  }

  /** The difference depends on a variable, and something beyond one divides it. */
  ghost predicate Reducible(x: Expr, y: Expr) {
    && AffineExpr(x) && AffineExpr(y)
    && (exists v :: Moves(Sub(x, y), v)) && (exists k: int :: k > 1 && DividesGap(k, x, y))
  }

  lemma {:induction false} ReducibleSum(x: Expr, y: Expr, c: Canon)
    requires Reducible(x, y) && AffineForm(Sub(x, y), c) && NoSplit(c)
    ensures c.AsSum? && Bares(c.sum.args) && !AllZero(c.sum.args) && exists k: int :: k > 1 && DividesAll(k, c.sum)
    ensures GapOf(x, y, c.sum)
  {
    var v :| Moves(Sub(x, y), v);
    assert CanonVal(c, map[v := 1]) != CanonVal(c, map[]);
    assert c.AsSum? && GapOf(x, y, c.sum) by {
      forall env ensures CanonVal(c, env) == Eval(x, env) - Eval(y, env) {
        assert CanonVal(c, env) == Eval(Sub(x, y), env);
      }
    }
    BareScale(c.sum.args, v);
    var k: int :| k > 1 && DividesGap(k, x, y);
    GapDividesAll(k, x, y, c.sum);
  }

  /** x < y, through x - y < 0. */
  method VisitLT(x: Expr, y: Expr, facts: Facts, ghost ctx: iset<Env>)
    returns (r: Cond, ghost folds: seq<Fold>, ghost extraUsed: Option<SplitExpr>)
    requires Sound(facts, ctx)
    ensures AllGood(folds) && Fair(extraUsed) ==> forall env :: env in ctx ==> (Holds(r, env) <==> Holds(LT(x, y), env))
    ensures Mild(x, LEAN) && Divs(y) == 0 ==> forall env :: env in ctx ==> (Holds(r, env) <==> Holds(LT(x, y), env))
    ensures Divs(x) + Divs(y) == 0 ==> forall env :: env in ctx ==> (Holds(r, env) <==> Holds(LT(x, y), env))
    ensures KnowsZero(facts) && Reducible(x, y) ==>
      r.LT? && r.y == Const(0) && exists d :: LowestTerms(x, y, r.x, d)
  {
    if Divs(y) == 0 { UndividedIsSafe(y); }
    if Mild(x, LEAN) { MildIsSafe(x, LEAN); }
    assert Mild(x, LEAN) && Divs(y) == 0 ==> Mild(Sub(x, y), LEAN) && Safe(Sub(x, y));
    var simplifier := new CanonicalSimplifier(facts, ctx);
    var c := simplifier.CanonicalMutate(Sub(x, y));
    r, folds, extraUsed := LT(x, y), simplifier.folds, None;
    if Reducible(x, y) { ReducibleSum(x, y, c.value); }
    if c.Some? && c.value.AsSum? {
      var d;
      d, extraUsed := DivideComparison(c.value.sum, facts, ctx);
      if d.Some? {
        r := d.value;
      }
      if KnowsZero(facts) && Reducible(x, y) {
        ghost var k :| Lowest(c.value.sum, r.x, k);
        GapLowest(x, y, c.value.sum, r.x, k);
      }
    }
  }
}
