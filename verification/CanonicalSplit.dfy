// Division and remainder of a split by a positive constant.
module CanonicalSplit {
  import opened Expr
  import opened DivModes
  import opened CanonicalForm
  import opened CanonicalSign
  import I = IntOperator

  function Whole(e: Expr, m: DivMode): SplitExpr {
    SplitExpr(e, 1, None, 1, m)
  }

  lemma {:induction false} WholeVal(e: Expr, m: DivMode, env: Env)
    ensures Whole(e, m).Valid() && SplitVal(Whole(e, m), env) == Eval(e, env) && SplitCost(Whole(e, m)) == Divs(e)
  {
    DivideByOne(m, Eval(e, env));
  }

  /** The same value in the given mode; what cannot be re-read becomes an index of its own. */
  function ConvertDivMode(s: SplitExpr, m: DivMode): SplitExpr {
    if s.CompatibleTo(m) then s.(mode := m) else Whole(NormalizeWithScale(s, 1), m)
  }

  lemma {:induction false} ConvertVal(s: SplitExpr, m: DivMode, env: Env)
    requires s.Valid()
    ensures var r := ConvertDivMode(s, m);
      r.Valid() && r.mode == m && SplitVal(r, env) == SplitVal(s, env) && SplitCost(r) <= SplitCost(s)
  {
    if s.CompatibleTo(m) {
      if s.mode != m {
        DivideByOne(m, Eval(s.index, env));
        DivideByOne(s.mode, Eval(s.index, env));
      }
    } else {
      NormalizeSplitVal(s, 1, env);
      WholeVal(NormalizeWithScale(s, 1), m, env);
    }
  }

  // ----- division -----

  /** The division is folded into the lower factor. */
  predicate Folds(s: SplitExpr, c: int)
    requires c > 0
  {
    !Divisible(s.scale, c) && s.scale != 0 && Divisible(c, s.scale)
  }

  /** What a fold multiplies the lower factor by. */
  function FoldFactor(s: SplitExpr, c: int): (k: int)
    requires c > 0 && Folds(s, c)
    ensures k * s.scale == c && k != 0
  {
    I.ExactDiv(s.scale, c);
    I.TruncDiv(c, s.scale)
  }

  function DivideSplit(s: SplitExpr, c: int, m: DivMode): SplitExpr
    requires c > 0
  {
    if Divisible(s.scale, c) then s.(scale := I.TruncDiv(s.scale, c))
    else if Folds(s, c) then
      var lower := s.lower * FoldFactor(s, c);
      if s.upper.None? || (lower != 0 && Divisible(s.upper.value, lower)) then s.(scale := 1, lower := lower)
      else if s.upper.value <= lower then Whole(Const(0), Trunc)
      else s.(index := MkMod(m, s.index, s.upper.value), upper := None, scale := 1, lower := lower)
    else Whole(NormalizeWithScale(s, 1), m).(lower := c)
  }

  function SplitDivConst(s: SplitExpr, c: int, m: DivMode): SplitExpr
    requires c > 0
  {
    DivideSplit(ConvertDivMode(s, m), c, m)
  }

  /** A fold that nests the two divisions rightly, over a range that starts at zero. */
  predicate DivGood(s: SplitExpr, c: int, m: DivMode)
    requires c > 0
  {
    Folds(s, c) ==> CanNest(m, s.lower, FoldFactor(s, c)) && (s.upper.Some? ==> s.upper.value > 0)
  }

  lemma {:induction false} DivideSplitOk(s: SplitExpr, c: int, m: DivMode)
    requires s.Valid() && s.mode == m && c > 0
    ensures DivideSplit(s, c, m).Valid() && SplitCost(DivideSplit(s, c, m)) <= SplitCost(s) + 1
  {
    if Folds(s, c) && !Divisible(s.scale, c) {
      NonZero(s.lower, FoldFactor(s, c));
      DivDivs(m, s.index, if s.upper.Some? then s.upper.value else 1);
    } else if !Divisible(s.scale, c) {
      NormalizeSplitVal(s, 1, map[]);
    }
  }

  /** Where every fold is good, the quotient is right for every valuation. */
  lemma {:induction false} DivideSplitVal(s: SplitExpr, c: int, m: DivMode, env: Env)
    requires s.Valid() && s.mode == m && c > 0 && DivGood(s, c, m)
    ensures SplitVal(DivideSplit(s, c, m), env) == Quot(m, SplitVal(s, env), c)
  {
    DivideSplitOk(s, c, m);
    var v := Eval(s.index, env);
    if Divisible(s.scale, c) {
      DivideScale(s, c, m, v);
    } else if Folds(s, c) {
      FoldVal(s, c, m, env);
    } else {
      var w := Whole(NormalizeWithScale(s, 1), m);
      NormalizeSplitVal(s, 1, env);
      WholeVal(NormalizeWithScale(s, 1), m, env);
      assert Core(w.(lower := c), Eval(w.index, env)) == Quot(m, SplitVal(s, env), c);
    }
  }

  lemma {:induction false} DivideScale(s: SplitExpr, c: int, m: DivMode, v: int)
    requires s.Valid() && c > 0 && Divisible(s.scale, c)
    ensures I.TruncDiv(s.scale, c) * Core(s, v) == Quot(m, s.scale * Core(s, v), c)
    ensures Rem(m, s.scale * Core(s, v), c) == 0
  {
    I.ExactDiv(c, s.scale);
    var k, q := I.TruncDiv(s.scale, c), Core(s, v);
    Assoc(c, k, q);
    Exact(m, c, k * q);
  }

  /** scale * q divided by c is q divided by the fold factor. */
  lemma {:induction false} FoldCancel(s: SplitExpr, c: int, m: DivMode, q: int)
    requires c > 0 && Folds(s, c)
    ensures Quot(m, s.scale * q, c) == Quot(m, q, FoldFactor(s, c))
    ensures Rem(m, s.scale * q, c) == s.scale * Rem(m, q, FoldFactor(s, c))
  {
    Cancel(m, q, FoldFactor(s, c), s.scale);
    assert q * s.scale == s.scale * q;
  }

  lemma {:induction false} FoldVal(s: SplitExpr, c: int, m: DivMode, env: Env)
    requires s.Valid() && s.mode == m && c > 0 && Folds(s, c) && DivGood(s, c, m)
    ensures SplitVal(DivideSplit(s, c, m), env) == Quot(m, SplitVal(s, env), c)
  {
    DivideSplitOk(s, c, m);
    var v, k := Eval(s.index, env), FoldFactor(s, c);
    var y := Reduced(s, v);
    FoldCancel(s, c, m, Core(s, v));
    Nest(m, y, s.lower, k);
    var lower := s.lower * k;
    if s.upper.None? || Divisible(s.upper.value, lower) {
    } else if s.upper.value <= lower {
      QuotRem(m, v, s.upper.value);
      QuotUnique(m, y, lower, 0, y);
      WholeVal(Const(0), Trunc, env);
    } else {
      MkModVal(m, s.index, s.upper.value, env);
    }
  }

  /** For the factors the form is meant to hold, the floored quotient is right exactly when this is so. */
  predicate DivExact(s: SplitExpr, c: int)
    requires c > 0
  {
    Folds(s, c) ==> s.scale > 0 || s.lower == 1
  }

  lemma {:induction false} DivExactIff(s: SplitExpr, c: int, x: VarName)
    requires s.Valid() && s.mode == Floor && c > 0 && s.index == Var(x) && s.lower > 0
    requires (s.upper.Some? ==> s.upper.value > 0)
    ensures (forall env :: SplitVal(DivideSplit(s, c, Floor), env) == I.FloorDiv(SplitVal(s, env), c)) <==>
      DivExact(s, c)
  {
    if DivExact(s, c) {
      if Folds(s, c) { FactorSign(FoldFactor(s, c), s.scale, c); }
      forall env ensures SplitVal(DivideSplit(s, c, Floor), env) == I.FloorDiv(SplitVal(s, env), c) {
        DivideSplitVal(s, c, Floor, env);
      }
    } else {
      var env: Env := map[x := 1];
      FoldWrong(s, c, x);
      assert SplitVal(DivideSplit(s, c, Floor), env) != I.FloorDiv(SplitVal(s, env), c);
    }
  }

  lemma FactorSign(k: int, s: int, c: int)
    requires k * s == c && c > 0
    ensures s > 0 ==> k > 0
    ensures s < 0 ==> k < 0
  {
  }

  /** At one, the folded quotient is minus one instead of zero. */
  lemma {:induction false} FoldWrong(s: SplitExpr, c: int, x: VarName)
    requires s.Valid() && s.mode == Floor && c > 0 && s.index == Var(x) && s.lower > 1 && s.scale < 0 && Folds(s, c)
    requires s.upper.Some? ==> s.upper.value > 0
    ensures SplitVal(DivideSplit(s, c, Floor), map[x := 1]) == -1 && I.FloorDiv(SplitVal(s, map[x := 1]), c) == 0
  {
    var env: Env := map[x := 1];
    var k := FoldFactor(s, c);
    FactorSign(k, s.scale, c);
    DivideSplitOk(s, c, Floor);
    if s.upper.Some? {
      UpperAtLeast(s.upper.value, s.lower);
      QuotUnique(Floor, 1, s.upper.value, 0, 1);
      MkModVal(Floor, s.index, s.upper.value, env);
    }
    QuotUnique(Floor, 1, s.lower, 0, 1);
    assert Core(s, 1) == 0;
    assert SplitVal(s, env) == s.scale * 0;
    QuotUnique(Floor, 0, c, 0, 0);
    var lower := s.lower * k;
    NegativeFactor(s.lower, k);
    QuotUnique(Floor, 1, lower, -1, 1 + lower);
  }

  lemma {:induction false} UpperAtLeast(u: int, l: int)
    requires u > 0 && l > 1 && I.Divides(l, u)
    ensures u >= l
  {
    var k :| u == l * k;
    PositiveCofactor(l, k);
  }

  lemma PositiveCofactor(l: int, k: int)
    requires l > 0 && l * k > 0
    ensures k >= 1 && l * k >= l
  {
  }

  lemma NegativeFactor(l: int, k: int)
    requires l > 1 && k < 0
    ensures l * k < -1
  {
    assert l * k <= -l;
  }

  // ----- remainder -----

  /** A finished remainder, or a smaller upper factor the index is to be simplified under again. */
  datatype ModPlan = Done(split: SplitExpr) | Revisit(factor: int)

  function PlanMod(s: SplitExpr, c: int, m: DivMode): ModPlan
    requires c > 0
  {
    if Divisible(s.scale, c) then Done(s.(scale := 0))
    else if Folds(s, c) then
      var factor := s.lower * FoldFactor(s, c);
      if s.upper.None? || (factor != 0 && Divisible(s.upper.value, factor)) then
        if s.upper.Some? && factor < s.upper.value then Revisit(factor) else Done(s.(upper := Some(factor)))
      else if s.upper.value != 0 && Divisible(factor, s.upper.value) then Done(s)
      else Done(ModWhole(s, c, m))
    else Done(ModWhole(s, c, m))
  }

  function ModWhole(s: SplitExpr, c: int, m: DivMode): SplitExpr {
    Whole(NormalizeWithScale(s, 1), m).(upper := Some(c))
  }

  /** As DivGood; and where the old remainder is kept, it must be smaller than the new factor. */
  predicate ModGood(s: SplitExpr, c: int, m: DivMode)
    requires c > 0
  {
    Folds(s, c) ==>
      var factor := s.lower * FoldFactor(s, c);
      && CanNest(m, s.lower, FoldFactor(s, c))
      && (KeepsRem(s, factor) ==> s.upper.value > 0 && (m == Trunc || factor > 0))
  }

  /** The new factor is a proper multiple of the old upper one. */
  predicate KeepsRem(s: SplitExpr, factor: int) {
    s.upper.Some? && factor != 0 && s.upper.value != 0 && !Divisible(s.upper.value, factor) &&
      Divisible(factor, s.upper.value)
  }

  /** The value a plan stands for: revisiting gives scale * ((index % factor) / lower). */
  function PlanVal(s: SplitExpr, p: ModPlan, env: Env): int {
    match p
    case Done(t) => SplitVal(t, env)
    case Revisit(f) => SplitVal(s.(upper := Some(f)), env)
  }

  predicate PlanOk(s: SplitExpr, p: ModPlan) {
    match p
    case Done(t) => t.Valid() && SplitCost(t) <= SplitCost(s) + 1
    case Revisit(f) => f != 0 && s.(upper := Some(f)).Valid() && s.upper.Some?
  }

  lemma {:induction false} PlanModOk(s: SplitExpr, c: int, m: DivMode)
    requires s.Valid() && s.mode == m && c > 0
    ensures PlanOk(s, PlanMod(s, c, m))
  {
    NormalizeSplitVal(s, 1, map[]);
    assert Divisible(c, 1) by { assert c == 1 * c; }
    if Folds(s, c) {
      var k := FoldFactor(s, c);
      NonZero(s.lower, k);
      assert I.Divides(s.lower, s.lower * k);
    }
  }

  /** Where every fold is good, the remainder is right for every valuation. */
  lemma {:induction false} PlanModVal(s: SplitExpr, c: int, m: DivMode, env: Env)
    requires s.Valid() && s.mode == m && c > 0 && ModGood(s, c, m)
    ensures PlanVal(s, PlanMod(s, c, m), env) == Rem(m, SplitVal(s, env), c)
  {
    PlanModOk(s, c, m);
    var v := Eval(s.index, env);
    if Divisible(s.scale, c) {
      DivideScale(s, c, m, v);
    } else if Folds(s, c) {
      FoldCancel(s, c, m, Core(s, v));
      var k := FoldFactor(s, c);
      NonZero(s.lower, k);
      var factor := s.lower * k;
      if s.upper.None? || Divisible(s.upper.value, factor) {
        FoldRem(s, k, m, v);
        assert Core(s.(upper := Some(factor)), v) == Rem(m, Core(s, v), k);
      } else if Divisible(factor, s.upper.value) {
        KeepRem(s, k, m, v);
      } else {
        ModWholeVal(s, c, m, env);
      }
    } else {
      ModWholeVal(s, c, m, env);
    }
  }

  lemma {:induction false} ModWholeVal(s: SplitExpr, c: int, m: DivMode, env: Env)
    requires s.Valid() && c > 0
    ensures ModWhole(s, c, m).Valid() && SplitVal(ModWhole(s, c, m), env) == Rem(m, SplitVal(s, env), c)
  {
    NormalizeSplitVal(s, 1, env);
    assert Divisible(c, 1) by { assert c == 1 * c; }
    DivideByOne(m, Rem(m, SplitVal(s, env), c));
  }

  /** The new upper factor takes the remainder before the division. */
  lemma {:induction false} FoldRem(s: SplitExpr, k: int, m: DivMode, v: int)
    requires s.Valid() && s.mode == m && k != 0 && CanNest(m, s.lower, k) && s.lower * k != 0
    requires s.upper.Some? ==> Divisible(s.upper.value, s.lower * k)
    ensures Quot(m, Rem(m, v, s.lower * k), s.lower) == Rem(m, Core(s, v), k)
  {
    RemOfQuot(m, Reduced(s, v), s.lower, k);
    if s.upper.Some? { RemRem(m, v, s.upper.value, s.lower * k); }
  }

  /** A remainder by a factor that the new one is a multiple of is small enough already. */
  lemma {:induction false} KeepRem(s: SplitExpr, k: int, m: DivMode, v: int)
    requires s.Valid() && s.mode == m && k != 0 && CanNest(m, s.lower, k) && s.lower * k != 0
    requires s.upper.Some? && s.upper.value > 0 && Divisible(s.lower * k, s.upper.value)
    requires (m == Trunc || s.lower * k > 0)
    ensures Rem(m, Core(s, v), k) == Core(s, v)
  {
    var y, f, u := Reduced(s, v), s.lower * k, s.upper.value;
    QuotRem(m, v, u);
    var t :| f == u * t;
    MultipleAtLeast(u, t);
    QuotUnique(m, y, f, 0, y);
    RemOfQuot(m, y, s.lower, k);
  }

  lemma MultipleAtLeast(u: int, t: int)
    requires u > 0 && u * t != 0
    ensures I.Abs(u * t) >= u
  {
  }

  /** For the factors the form is meant to hold, the floored remainder is right exactly when this is so. */
  predicate ModExact(s: SplitExpr, c: int)
    requires c > 0
  {
    Folds(s, c) ==>
      var factor := s.lower * FoldFactor(s, c);
      || s.scale > 0
      || (if s.upper.None? || (factor != 0 && Divisible(s.upper.value, factor)) then s.lower == 1
          else s.upper.value != 0 && Divisible(factor, s.upper.value) ==> s.upper.value == s.lower)
  }

  lemma {:induction false} ModExactIff(s: SplitExpr, c: int, x: VarName)
    requires s.Valid() && s.mode == Floor && c > 0 && s.index == Var(x) && s.lower > 0
    requires (s.upper.Some? ==> s.upper.value > 0)
    ensures (forall env :: PlanVal(s, PlanMod(s, c, Floor), env) == I.FloorMod(SplitVal(s, env), c)) <==> ModExact(s, c)
  {
    if ModExact(s, c) {
      forall env ensures PlanVal(s, PlanMod(s, c, Floor), env) == I.FloorMod(SplitVal(s, env), c) {
        ModExactVal(s, c, env);
      }
    } else {
      var k := FoldFactor(s, c);
      FactorSign(k, s.scale, c);
      NonZero(s.lower, k);
      var factor := s.lower * k;
      if s.upper.None? || Divisible(s.upper.value, factor) {
        ModWrongAtOne(s, c, x);
        assert PlanVal(s, PlanMod(s, c, Floor), map[x := 1]) != I.FloorMod(SplitVal(s, map[x := 1]), c);
      } else {
        ModWrongAtLower(s, c, x);
        assert PlanVal(s, PlanMod(s, c, Floor), map[x := s.lower]) != I.FloorMod(SplitVal(s, map[x := s.lower]), c);
      }
    }
  }

  lemma {:induction false} ModExactVal(s: SplitExpr, c: int, env: Env)
    requires s.Valid() && s.mode == Floor && c > 0 && s.lower > 0 && (s.upper.Some? ==> s.upper.value > 0)
    requires ModExact(s, c)
    ensures PlanVal(s, PlanMod(s, c, Floor), env) == I.FloorMod(SplitVal(s, env), c)
  {
    if !Folds(s, c) {
      PlanModVal(s, c, Floor, env);
    } else {
      var k := FoldFactor(s, c);
      FactorSign(k, s.scale, c);
      NonZero(s.lower, k);
      var factor := s.lower * k;
      if s.scale > 0 {
        assert factor > 0 by { Signs(s.lower, k); }
        PlanModVal(s, c, Floor, env);
      } else if s.upper.None? || Divisible(s.upper.value, factor) {
        PlanModVal(s, c, Floor, env);
      } else if Divisible(factor, s.upper.value) {
        AlwaysZero(s, Eval(s.index, env));
        assert SplitVal(s, env) == s.scale * 0;
        QuotUnique(Floor, 0, c, 0, 0);
      } else {
        ModWholeVal(s, c, Floor, env);
      }
    }
  }

  lemma {:induction false} AlwaysZero(s: SplitExpr, v: int)
    requires s.Valid() && s.mode == Floor && s.upper == Some(s.lower) && s.lower > 0
    ensures Core(s, v) == 0
  {
    QuotRem(Floor, v, s.lower);
    SmallQuot(Floor, Reduced(s, v), s.lower);
  }

  lemma {:induction false} ModWrongAtOne(s: SplitExpr, c: int, x: VarName)
    requires s.Valid() && s.mode == Floor && c > 0 && s.index == Var(x) && s.lower > 1 && s.scale < 0 && Folds(s, c)
    requires s.upper.Some? ==> s.upper.value > 0
    requires var f := s.lower * FoldFactor(s, c); f != 0 && (s.upper.Some? ==> Divisible(s.upper.value, f))
    ensures PlanVal(s, PlanMod(s, c, Floor), map[x := 1]) != I.FloorMod(SplitVal(s, map[x := 1]), c)
  {
    var env: Env := map[x := 1];
    var k := FoldFactor(s, c);
    var f := s.lower * k;
    FactorSign(k, s.scale, c);
    PlanModOk(s, c, Floor);
    if s.upper.Some? {
      UpperAtLeast(s.upper.value, s.lower);
      QuotUnique(Floor, 1, s.upper.value, 0, 1);
    }
    QuotUnique(Floor, 1, s.lower, 0, 1);
    assert SplitVal(s, env) == s.scale * 0;
    QuotUnique(Floor, 0, c, 0, 0);
    NegativeFactor(s.lower, k);
    QuotUnique(Floor, 1, f, -1, 1 + f);
    assert 1 + f == k * s.lower + 1;
    QuotUnique(Floor, 1 + f, s.lower, k, 1);
    assert Core(s.(upper := Some(f)), 1) == k;
    NonZero(s.scale, k);
  }

  lemma {:induction false} ModWrongAtLower(s: SplitExpr, c: int, x: VarName)
    requires s.Valid() && s.mode == Floor && c > 0 && s.index == Var(x) && s.lower > 0 && s.scale < 0 && Folds(s, c)
    requires s.upper.Some? && s.upper.value > 0 && s.upper.value != s.lower
    requires var f := s.lower * FoldFactor(s, c); f != 0 && !Divisible(s.upper.value, f) && Divisible(f, s.upper.value)
    ensures PlanVal(s, PlanMod(s, c, Floor), map[x := s.lower]) != I.FloorMod(SplitVal(s, map[x := s.lower]), c)
  {
    var env: Env := map[x := s.lower];
    var u, l, k := s.upper.value, s.lower, FoldFactor(s, c);
    FactorSign(k, s.scale, c);
    var w :| u == l * w;
    PositiveCofactor(l, w);
    assert w != 1;
    assert u > l by { Steps(l, 1, w); }
    QuotUnique(Floor, l, u, 0, l);
    QuotUnique(Floor, l, l, 1, 0);
    assert SplitVal(s, env) == s.scale * 1;
    assert c * -1 == -c;
    assert k != -1;
    FoldCancel(s, c, Floor, 1);
    QuotUnique(Floor, 1, k, -1, 1 + k);
    assert s.scale * (1 + k) == s.scale + c by { Spread(1, k, 1, s.scale); }
  }

  // ----- upright splits -----

  lemma {:induction false} UprightConvert(s: SplitExpr, m: DivMode, k: Kind)
    requires UprightSplit(s, k) && (k.floored ==> m == Floor)
    ensures UprightSplit(ConvertDivMode(s, m), k)
  {
    UprightNormal(s, k);
  }

  lemma {:induction false} PositiveFold(s: SplitExpr, c: int)
    requires c > 0 && Folds(s, c) && s.scale >= 0 && s.lower > 0
    ensures FoldFactor(s, c) > 0 && s.lower * FoldFactor(s, c) > 0
  {
    FactorSign(FoldFactor(s, c), s.scale, c);
    PositiveProduct(s.lower, FoldFactor(s, c));
  }

  lemma PositiveProduct(a: int, b: int)
    requires a > 0 && b > 0
    ensures a * b > 0
  {
  }

  /** An upright split is folded rightly, and stays upright. */
  lemma {:induction false} UprightDivide(s: SplitExpr, c: int, m: DivMode, k: Kind)
    requires UprightSplit(s, k) && s.mode == m && c > 0 && (k.floored ==> m == Floor)
    ensures DivGood(s, c, m) && UprightSplit(DivideSplit(s, c, m), k)
  {
    if Folds(s, c) { PositiveFold(s, c); }
    if Divisible(s.scale, c) { QuotientSign(s.scale, c); }
    UprightNormal(s, k);
    if s.upper.Some? { UprightMod(m, s.index, s.upper.value, k); }
  }

  lemma {:induction false} QuotientSign(x: int, c: int)
    requires c > 0 && x >= 0
    ensures I.TruncDiv(x, c) >= 0
  {
    I.TruncDivMod(x, c);
  }

  predicate UprightStep(plan: ModPlan, k: Kind) {
    match plan
    case Done(d) => UprightSplit(d, k)
    case Revisit(factor) => factor > 0
  }

  lemma {:induction false} UprightPlan(s: SplitExpr, c: int, m: DivMode, k: Kind)
    requires UprightSplit(s, k) && s.mode == m && c > 0 && (k.floored ==> m == Floor)
    ensures ModGood(s, c, m)
    ensures UprightStep(PlanMod(s, c, m), k)
  {
    if Folds(s, c) { PositiveFold(s, c); }
    UprightNormal(s, k);
  }

  /** A whole index is folded rightly, whatever its scale. */
  lemma {:induction false} WholeGood(s: SplitExpr, c: int, m: DivMode)
    requires s.IsWhole() && c > 0
    ensures DivGood(s, c, m) && ModGood(s, c, m) && PlanMod(s, c, m).Done?
  {
  }
}
