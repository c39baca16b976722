// The canonical simplifier: expressions are brought into sums of splits, operation by operation.
module CanonicalSimplify {
  import opened Expr
  import opened DivModes
  import opened CanonicalForm
  import opened CanonicalSign
  import opened CanonicalSum
  import opened CanonicalMerge
  import opened CanonicalSplit
  import opened CanonicalAffine
  import I = IntOperator

  /** What the simplifier asks of the other analyses, in a context of admissible valuations. */
  datatype Facts = Facts(
    rewrite: Expr -> Expr,
    below: (Expr, int) -> bool,
    nonneg: Expr -> bool,
    within: (Expr, int) -> bool,
    atLeast: Expr -> Option<int>)

  ghost predicate Sound(f: Facts, ctx: iset<Env>) {
    && (forall e, env :: env in ctx ==> Eval(f.rewrite(e), env) == Eval(e, env))
    && (forall e :: Divs(f.rewrite(e)) <= Divs(e))
    && (forall e, c, env :: env in ctx && f.below(e, c) ==> Eval(e, env) < c)
    && (forall e, env :: env in ctx && f.nonneg(e) ==> Eval(e, env) >= 0)
    && (forall e, c, env :: env in ctx && f.within(e, c) ==> 0 <= Eval(e, env) < c)
    && (forall e, env :: env in ctx && f.atLeast(e).Some? ==> Eval(e, env) >= f.atLeast(e).value)
  }

  /** c has the value of e throughout the context. */
  ghost predicate Means(c: Canon, e: Expr, ctx: iset<Env>) {
    forall env :: env in ctx ==> CanonVal(c, env) == Eval(e, env)
  }

  /** Well-formed, and sums keep their segments. */
  ghost predicate Tidy(c: Canon) {
    CanonOk(c) && (c.AsSum? ==> Segmented(c.sum.args))
  }

  // ----- conversions -----

  method ToSplitExpr(c: Canon) returns (s: SplitExpr)
    requires CanonOk(c)
    ensures s.Valid() && SplitCost(s) <= Cost(c) && forall env :: SplitVal(s, env) == CanonVal(c, env)
    ensures forall k :: UprightCanon(c, k) ==> UprightSplit(s, k)
    ensures (forall k :: MildCanon(c, k) ==> MildSplit(s, k)) && (Cost(c) == 0 ==> s.IsWhole())
    ensures Scattered(c) && !c.AsSum? && !(c.Plain? && c.e.Const?) ==> Bare(s)
  {
    if c.AsSplit? {
      return c.split;
    }
    if c.AsSum? && c.sum.base == 0 && |c.sum.args| == 1 {
      s := c.sum.args[0];
      forall env ensures SplitVal(s, env) == CanonVal(c, env) { OneArgVal(s, c.sum.args, env); }
      return;
    }
    var e := Normalize(c);
    s := Whole(e, Trunc);
    forall env
      ensures s.Valid() && SplitVal(s, env) == CanonVal(c, env) && SplitCost(s) == Divs(e)
    {
      WholeVal(e, Trunc, env);
    }
    WholeVal(e, Trunc, map[]);
  }

  lemma {:induction false} OneArgVal(s: SplitExpr, args: seq<SplitExpr>, env: Env)
    requires args == [s]
    ensures ArgsVal(args, env) == SplitVal(s, env) && ArgsCost(args) == SplitCost(s)
  {
    assert args[1..] == [];
    assert ArgsVal(args, env) == SplitVal(s, env) + ArgsVal([], env);
    assert ArgsCost(args) == SplitCost(s) + ArgsCost([]);
  }

  method ToSumExpr(c: Canon) returns (sum: SumForm)
    requires Tidy(c)
    ensures Tidy(AsSum(sum)) && ArgsCost(sum.args) <= Cost(c) && forall env :: SumVal(sum, env) == CanonVal(c, env)
    ensures forall k :: (UprightCanon(c, k) ==> UprightSum(sum, k)) && (MildCanon(c, k) ==> AllMild(sum.args, k))
    ensures Scattered(c) ==> Scattered(AsSum(sum))
  {
    if c.AsSum? {
      return c.sum;
    }
    if c.Plain? && c.e.Const? {
      return SumForm([], c.e.value);
    }
    var s := ToSplitExpr(c);
    sum := SumForm([s], 0);
    forall env ensures SumVal(sum, env) == CanonVal(c, env) { OneArgVal(s, sum.args, env); }
    OneArgVal(s, sum.args, map[]);
  }

  // ----- sums and products -----

  method AddCanon(a: Canon, b: Canon, sign: int) returns (r: Canon)
    requires Tidy(a) && Tidy(b) && (sign == 1 || sign == -1)
    ensures Tidy(r) && Cost(r) <= Cost(a) + Cost(b)
    ensures forall env :: CanonVal(r, env) == CanonVal(a, env) + sign * CanonVal(b, env)
    ensures NoSplit(r) && (sign == 1 ==> forall k :: UprightCanon(a, k) && UprightCanon(b, k) ==> UprightCanon(r, k))
    ensures b.Plain? && b.e.Const? ==> forall k :: UprightCanon(a, k) && k.signed ==> UprightCanon(r, k)
    ensures sign == 1 || Cost(b) == 0 ==> forall k :: MildCanon(a, k) && MildCanon(b, k) ==> MildCanon(r, k)
    ensures Scattered(a) && Scattered(b) ==> Scattered(r)
  {
    if a.Plain? && b.Plain? && a.e.Const? && b.e.Const? {
      return Plain(Const(a.e.value + sign * b.e.value));
    }
    var sum := ToSumExpr(a);
    var node := new SumExprNode(sum);
    if b.Plain? && b.e.Const? {
      node.AddConst(sign * b.e.value);
    } else if b.AsSum? {
      node.AddSum(b.sum, sign);
    } else {
      var s := ToSplitExpr(b);
      node.AddSplit(s, sign);
    }
    r := AsSum(node.Contents());
  }

  method ScaleCanon(x: Canon, c: int) returns (r: Canon)
    requires Tidy(x)
    ensures Tidy(r) && Cost(r) <= Cost(x)
    ensures forall env :: CanonVal(r, env) == c * CanonVal(x, env)
    ensures c >= 0 ==> forall k :: UprightCanon(x, k) ==> UprightCanon(r, k)
    ensures c >= 0 ==> forall k :: MildCanon(x, k) ==> MildCanon(r, k)
    ensures x.Plain? && x.e.Const? ==> r == Plain(Const(x.e.value * c))
    ensures Scattered(x) ==> Scattered(r)
  {
    if x.Plain? && x.e.Const? {
      if x.e.value >= 0 && c >= 0 { NonNegative(x.e.value, c); }
      return Plain(Const(x.e.value * c));
    }
    if x.AsSum? {
      var node := new SumExprNode(x.sum);
      node.MulToSelf(c);
      r := AsSum(node.Contents());
    } else {
      var s := ToSplitExpr(x);
      r := AsSplit(s.(scale := s.scale * c));
      ScaleSigns(s, c);
      forall env ensures CanonVal(r, env) == c * CanonVal(x, env) { TermScaled(s, c, env); }
    }
  }

  method MulCanon(a: Canon, b: Canon) returns (r: Canon)
    requires Tidy(a) && Tidy(b)
    ensures Tidy(r) && Cost(r) <= Cost(a) + Cost(b)
    ensures forall env :: CanonVal(r, env) == CanonVal(a, env) * CanonVal(b, env)
    ensures a.Plain? && a.e.Const? && a.e.value >= 0 ==> forall k :: UprightCanon(b, k) ==> UprightCanon(r, k)
    ensures b.Plain? && b.e.Const? && b.e.value >= 0 ==> forall k :: UprightCanon(a, k) ==> UprightCanon(r, k)
    ensures forall k: Kind :: !k.signed && UprightCanon(a, k) && UprightCanon(b, k) ==> UprightCanon(r, k)
    ensures b.Plain? && b.e.Const? && b.e.value >= 0 ==> forall k :: MildCanon(a, k) ==> MildCanon(r, k)
    ensures Scattered(a) && Scattered(b) && ((a.Plain? && a.e.Const?) || (b.Plain? && b.e.Const?)) ==> Scattered(r)
  {
    if a.Plain? && a.e.Const? {
      r := ScaleCanon(b, a.e.value);
      if b.Plain? && b.e.Const? && b.e.value >= 0 && a.e.value >= 0 { NonNegative(b.e.value, a.e.value); }
    } else if b.Plain? && b.e.Const? {
      r := ScaleCanon(a, b.e.value);
      forall env ensures CanonVal(r, env) == CanonVal(a, env) * CanonVal(b, env) {
        assert b.e.value * CanonVal(a, env) == CanonVal(a, env) * b.e.value;
      }
    } else {
      var p := Normalize(a);
      var q := Normalize(b);
      r := Plain(MkMul(p, q));
      ProductDivs(p, q);
      forall k: Kind | !k.signed && UprightCanon(a, k) && UprightCanon(b, k)
        ensures UprightCanon(r, k)
      {
        UprightProduct(p, q, k);
      }
    }
  }

  lemma {:induction false} ProductDivs(a: Expr, b: Expr)
    ensures Divs(MkMul(a, b)) <= Divs(a) + Divs(b)
  {
  }

  // ----- parts divisible by a constant -----

  lemma {:induction false} AppendArg(args: seq<SplitExpr>, s: SplitExpr)
    ensures forall env :: ArgsVal(args + [s], env) == ArgsVal(args, env) + SplitVal(s, env)
    ensures ArgsCost(args + [s]) == ArgsCost(args) + SplitCost(s)
  {
    assert Insert(args, |args|, s) == args + [s];
    ArgsInsert(args, |args|, s);
  }

  /** The elements at increasing positions of args. */
  ghost predicate Picked(args: seq<SplitExpr>, at: seq<nat>, r: seq<SplitExpr>, bound: nat) {
    && |at| == |r| && (forall i :: 0 <= i < |at| ==> at[i] < bound <= |args| && r[i] == args[at[i]])
    && (forall i, j :: 0 <= i < j < |at| ==> at[i] < at[j])
  }

  lemma {:induction false} PickedSegmented(args: seq<SplitExpr>, at: seq<nat>, r: seq<SplitExpr>, bound: nat)
    requires Segmented(args) && Picked(args, at, r, bound)
    ensures Segmented(r)
  {
    forall i, j | 0 <= i < j < |r| && r[i].index == r[j].index
      ensures r[i].lower >= r[j].lower && forall t :: i < t < j ==> r[t].index == r[i].index
    {
      assert args[at[i]].index == args[at[j]].index;
      forall t | i < t < j ensures r[t].index == r[i].index {
        assert at[i] < at[t] < at[j];
      }
    }
  }

  lemma {:induction false} PickedSigns(args: seq<SplitExpr>, at: seq<nat>, r: seq<SplitExpr>, bound: nat)
    requires Picked(args, at, r, bound)
    ensures KeepsSigns(args, r)
  {
  }

  ghost predicate AllScalesDivisible(args: seq<SplitExpr>, c: int)
    requires c != 0
  {
    forall i :: 0 <= i < |args| ==> Divisible(args[i].scale, c)
  }

  /** The first i args, dealt out to two lists in order, the first of scales that c divides. */
  ghost predicate Dealt(
    args: seq<SplitExpr>, i: nat, c: int, d: seq<SplitExpr>, e: seq<SplitExpr>, at: seq<nat>, other: seq<nat>)
    requires i <= |args| && c != 0
  {
    && AllScalesDivisible(d, c) && (forall t :: 0 <= t < |e| ==> !Divisible(e[t].scale, c))
    && Picked(args, at, d, i) && Picked(args, other, e, i)
    && ArgsCost(d) + ArgsCost(e) == ArgsCost(args[..i])
    && forall env :: ArgsVal(d, env) + ArgsVal(e, env) == ArgsVal(args[..i], env)
  }

  lemma {:induction false} DealOne(
    args: seq<SplitExpr>, i: nat, c: int, d: seq<SplitExpr>, e: seq<SplitExpr>, at: seq<nat>, other: seq<nat>)
    requires i < |args| && c != 0 && Dealt(args, i, c, d, e, at, other)
    ensures Divisible(args[i].scale, c) ==> Dealt(args, i + 1, c, d + [args[i]], e, at + [i], other)
    ensures !Divisible(args[i].scale, c) ==> Dealt(args, i + 1, c, d, e + [args[i]], at, other + [i])
  {
    PrefixStep(args, i);
    AppendArg(d, args[i]);
    AppendArg(e, args[i]);
    if Divisible(args[i].scale, c) {
      PickOne(args, at, d, i);
    } else {
      PickOne(args, other, e, i);
    }
  }

  lemma {:induction false} PickOne(args: seq<SplitExpr>, at: seq<nat>, r: seq<SplitExpr>, i: nat)
    requires i < |args| && Picked(args, at, r, i)
    ensures Picked(args, at + [i], r + [args[i]], i + 1)
  {
  }

  method DealArgs(args: seq<SplitExpr>, c: int) returns (d: seq<SplitExpr>, e: seq<SplitExpr>)
    requires AllValid(args) && Segmented(args) && c != 0
    ensures AllValid(d) && Segmented(d) && AllValid(e) && Segmented(e) && AllScalesDivisible(d, c)
    ensures ArgsCost(d) + ArgsCost(e) == ArgsCost(args)
    ensures forall env :: ArgsVal(d, env) + ArgsVal(e, env) == ArgsVal(args, env)
    ensures KeepsSigns(args, d) && KeepsSigns(args, e)
    ensures forall i :: 0 <= i < |e| ==> !Divisible(e[i].scale, c) && e[i] in args
  {
    d, e := [], [];
    ghost var at: seq<nat>, other: seq<nat> := [], [];
    for i := 0 to |args|
      invariant Dealt(args, i, c, d, e, at, other)
    {
      DealOne(args, i, c, d, e, at, other);
      if Divisible(args[i].scale, c) {
        d, at := d + [args[i]], at + [i];
      } else {
        e, other := e + [args[i]], other + [i];
      }
    }
    assert args[..|args|] == args;
    PickedSegmented(args, at, d, |args|);
    PickedSegmented(args, other, e, |args|);
    PickedSigns(args, at, d, |args|);
    PickedSigns(args, other, e, |args|);
  }

  /** The terms, and the base, that the constant divides, and the others. */
  method SeparateDivisibleParts(sum: SumForm, c: int) returns (divisible: SumForm, extra: SumForm)
    requires Tidy(AsSum(sum)) && c != 0
    ensures Tidy(AsSum(divisible)) && Tidy(AsSum(extra)) && AllScalesDivisible(divisible.args, c)
    ensures Divisible(divisible.base, c)
    ensures ArgsCost(divisible.args) + ArgsCost(extra.args) == ArgsCost(sum.args)
    ensures forall env :: SumVal(divisible, env) + SumVal(extra, env) == SumVal(sum, env)
    ensures Divisible(sum.base, c) ==> extra.base == 0
    ensures forall k :: UprightSum(sum, k) ==> UprightSum(divisible, k) && UprightSum(extra, k)
    ensures forall k :: AllMild(sum.args, k) ==> AllMild(extra.args, k)
    ensures forall i :: 0 <= i < |extra.args| ==> !Divisible(extra.args[i].scale, c) && extra.args[i] in sum.args
  {
    assert I.Divides(c, 0) by { assert 0 == c * 0; }
    var d, e := DealArgs(sum.args, c);
    divisible := SumForm(d, if Divisible(sum.base, c) then sum.base else 0);
    extra := SumForm(e, if Divisible(sum.base, c) then 0 else sum.base);
  }

  // ----- quotients and remainders of sums -----

  /** Dividing an expression that is not split yet is always a good fold. */
  lemma {:induction false} WholeDivVal(e: Expr, c: int, m: DivMode, env: Env)
    requires c > 0
    ensures var r := SplitDivConst(Whole(e, Trunc), c, m);
      r.Valid() && SplitCost(r) <= Divs(e) + 1 && SplitVal(r, env) == Quot(m, Eval(e, env), c)
  {
    var s := ConvertDivMode(Whole(e, Trunc), m);
    WholeVal(e, Trunc, env);
    ConvertVal(Whole(e, Trunc), m, env);
    assert s == Whole(e, m);
    if Folds(s, c) { assert FoldFactor(s, c) * 1 == c; }
    DivideSplitOk(s, c, m);
    DivideSplitVal(s, c, m, env);
  }

  lemma {:induction false} WholeDivSigns(e: Expr, c: int, m: DivMode, k: Kind)
    requires c > 0 && Upright(e, k) && (k.floored ==> m == Floor)
    ensures UprightSplit(SplitDivConst(Whole(e, Trunc), c, m), k)
  {
    UprightConvert(Whole(e, Trunc), m, k);
    UprightDivide(ConvertDivMode(Whole(e, Trunc), m), c, m, k);
  }

  /** Adds the quotient of what is left over, unless that is known to be a proper fraction. */
  method AddQuotient(q: SumForm, temp: Expr, c: int, m: DivMode, small: bool) returns (r: SumForm)
    requires Tidy(AsSum(q)) && c > 1
    ensures Tidy(AsSum(r)) && ArgsCost(r.args) <= ArgsCost(q.args) + Divs(temp) + 1
    ensures forall env :: (small ==> 0 <= Eval(temp, env) < c) ==>
      SumVal(r, env) == SumVal(q, env) + Quot(m, Eval(temp, env), c)
    ensures forall k :: UprightSum(q, k) && Upright(temp, k) && (k.floored ==> m == Floor) ==> UprightSum(r, k)
  {
    var node := new SumExprNode(q);
    if temp.Const? {
      if temp.value >= 0 { ConstQuotient(m, temp.value, c); }
      node.AddConst(Quot(m, temp.value, c));
    } else if !small {
      var d := SplitDivConst(Whole(temp, Trunc), c, m);
      WholeDivVal(temp, c, m, map[]);
      forall k | Upright(temp, k) && (k.floored ==> m == Floor)
        ensures UprightSplit(d, k)
      {
        WholeDivSigns(temp, c, m, k);
      }
      node.AddSplit(d, 1);
      forall env ensures SplitVal(d, env) == Quot(m, Eval(temp, env), c) { WholeDivVal(temp, c, m, env); }
    } else {
      forall env | 0 <= Eval(temp, env) < c
        ensures Quot(m, Eval(temp, env), c) == 0
      {
        SmallQuot(m, Eval(temp, env), c);
      }
    }
    r := node.Contents();
  }

  lemma {:induction false} ConstQuotient(m: DivMode, x: int, c: int)
    requires x >= 0 && c > 0
    ensures Quot(m, x, c) >= 0 && Rem(m, x, c) >= 0
  {
    QuotRem(m, x, c);
    QuotientSign(x, c);
    QuotUnique(m, x, c, I.TruncDiv(x, c), I.TruncMod(x, c));
  }

  /** The parts of a sum: c * quotient and an expression for the rest. */
  method DivideParts(sum: SumForm, c: int) returns (quotient: SumForm, part: Expr, extra: SumForm, temp: Expr)
    requires Tidy(AsSum(sum)) && c > 1
    ensures Tidy(AsSum(extra)) && (Divisible(sum.base, c) ==> extra.base == 0)
    ensures ArgsCost(extra.args) <= ArgsCost(sum.args)
    ensures Tidy(AsSum(quotient)) && ArgsCost(quotient.args) + Divs(temp) <= ArgsCost(sum.args)
    ensures forall env :: Eval(part, env) == c * SumVal(quotient, env) && Eval(temp, env) == SumVal(extra, env)
    ensures forall env :: SumVal(sum, env) == c * SumVal(quotient, env) + Eval(temp, env)
    ensures forall k :: UprightSum(sum, k) ==> UprightSum(quotient, k) && Upright(temp, k)
    ensures forall i :: 0 <= i < |extra.args| ==> !Divisible(extra.args[i].scale, c) && extra.args[i] in sum.args
    ensures extra.args == [] ==> temp == Const(extra.base)
  {
    var lhs;
    lhs, extra := SeparateDivisibleParts(sum, c);
    var node := new SumExprNode(lhs);
    part := Normalize(AsSum(lhs));
    temp := Normalize(AsSum(extra));
    node.DivideBy(c);
    quotient := node.Contents();
  }

  /** The quotient of a sum: what the constant divides, and the quotient of the rest. */
  method FloorDivSum(sum: SumForm, c: int, facts: Facts, ghost ctx: iset<Env>) returns (r: Canon)
    requires Tidy(AsSum(sum)) && c > 1 && Sound(facts, ctx)
    ensures Tidy(r) && Cost(r) <= ArgsCost(sum.args) + 1
    ensures forall env :: env in ctx ==> CanonVal(r, env) == I.FloorDiv(SumVal(sum, env), c)
    ensures r.AsSum? && forall k :: UprightSum(sum, k) ==> UprightCanon(r, k)
  {
    var quotient, part, extra, temp := DivideParts(sum, c);
    var q := AddQuotient(quotient, temp, c, Floor, facts.below(temp, c) && facts.nonneg(temp));
    r := AsSum(q);
    forall env | env in ctx ensures CanonVal(r, env) == I.FloorDiv(SumVal(sum, env), c) {
      ShiftFloor(Eval(temp, env), c, SumVal(quotient, env));
    }
  }

  /** The truncated quotient of a sum of two parts that are both proved non-negative. */
  method TruncDivSum(sum: SumForm, c: int, facts: Facts, ghost ctx: iset<Env>) returns (r: Option<Canon>)
    requires Tidy(AsSum(sum)) && c > 1 && Sound(facts, ctx)
    ensures r.Some? ==> Tidy(r.value) && Cost(r.value) <= ArgsCost(sum.args) + 1
    ensures r.Some? ==> forall env :: env in ctx ==> CanonVal(r.value, env) == I.TruncDiv(SumVal(sum, env), c)
    ensures r.Some? ==> forall k :: UprightSum(sum, k) && !k.floored ==> UprightCanon(r.value, k)
  {
    var quotient, part, extra, temp := DivideParts(sum, c);
    if extra.base == 0 && extra.args == [] {
      forall env
        ensures SumVal(quotient, env) == I.TruncDiv(SumVal(sum, env), c)
      {
        Exact(Trunc, c, SumVal(quotient, env));
      }
      return Some(AsSum(quotient));
    }
    if !(facts.nonneg(part) && facts.nonneg(temp)) {
      return None;
    }
    var q := AddQuotient(quotient, temp, c, Trunc, facts.below(temp, c));
    r := Some(AsSum(q));
    forall env | env in ctx ensures CanonVal(r.value, env) == I.TruncDiv(SumVal(sum, env), c) {
      assert c * SumVal(quotient, env) == Eval(part, env);
      ShiftTrunc(Eval(temp, env), c, SumVal(quotient, env));
    }
  }

  /** What is left to take the remainder of: a value outright, or a sum of the same remainder. */
  datatype ModRest = Settled(c: Canon) | Left(sum: SumForm)

  ghost predicate RestOk(rest: ModRest, sum: SumForm) {
    match rest
    case Settled(c) => Tidy(c) && Cost(c) <= ArgsCost(sum.args)
    case Left(s) => Tidy(AsSum(s)) && ArgsCost(s.args) <= ArgsCost(sum.args)
  }

  /** What is left is upright, and mild, if the sum was. */
  ghost predicate RestUpright(rest: ModRest, sum: SumForm) {
    match rest
    case Settled(c) => forall k :: UprightSum(sum, k) ==> UprightCanon(c, k)
    case Left(s) =>
      forall k :: (UprightSum(sum, k) ==> UprightSum(s, k)) && (AllMild(sum.args, k) ==> AllMild(s.args, k))
  }

  predicate RestRight(rest: ModRest, sum: SumForm, c: int, m: DivMode, env: Env)
    requires c > 0
  {
    match rest
    case Settled(r) => CanonVal(r, env) == Rem(m, SumVal(sum, env), c)
    case Left(s) => Rem(m, SumVal(s, env), c) == Rem(m, SumVal(sum, env), c)
  }

  method FloorModSum(sum: SumForm, c: int, facts: Facts, ghost ctx: iset<Env>) returns (rest: ModRest)
    requires Tidy(AsSum(sum)) && c > 0 && Sound(facts, ctx)
    ensures RestOk(rest, sum) && forall env :: env in ctx ==> RestRight(rest, sum, c, Floor, env)
    ensures RestUpright(rest, sum)
  {
    var lhs, extra := SeparateDivisibleParts(sum, c);
    var temp := Normalize(AsSum(extra));
    forall env ensures I.FloorMod(SumVal(sum, env), c) == I.FloorMod(Eval(temp, env), c) {
      DropDivisible(lhs, c, Eval(temp, env), env);
    }
    if temp.Const? {
      QuotRem(Floor, temp.value, c);
      rest := Settled(Plain(Const(I.FloorMod(temp.value, c))));
    } else if facts.below(temp, c) && facts.nonneg(temp) {
      rest := Settled(Plain(temp));
      forall env | env in ctx ensures RestRight(rest, sum, c, Floor, env) { SmallQuot(Floor, Eval(temp, env), c); }
    } else {
      QuotRem(Floor, extra.base, c);
      rest := Left(extra.(base := I.FloorMod(extra.base, c)));
      forall env | env in ctx ensures RestRight(rest, sum, c, Floor, env) { ReduceBase(extra, c, env); }
    }
  }

  lemma {:induction false} DropDivisible(lhs: SumForm, c: int, rest: int, env: Env)
    requires c != 0 && AllScalesDivisible(lhs.args, c) && Divisible(lhs.base, c)
    ensures I.FloorMod(SumVal(lhs, env) + rest, c) == I.FloorMod(rest, c)
  {
    DivisiblePart(lhs, c, env);
    var k :| SumVal(lhs, env) == c * k;
    ShiftFloor(rest, c, k);
  }

  lemma {:induction false} ReduceBase(sum: SumForm, c: int, env: Env)
    requires c > 0
    ensures I.FloorMod(SumVal(sum.(base := I.FloorMod(sum.base, c)), env), c) == I.FloorMod(SumVal(sum, env), c)
  {
    QuotRem(Floor, sum.base, c);
    var k, r := I.FloorDiv(sum.base, c), sum.(base := I.FloorMod(sum.base, c));
    assert SumVal(sum, env) == c * k + SumVal(r, env);
    ShiftFloor(SumVal(r, env), c, k);
  }

  /**
   * The truncated case: parts proved non-negative may be dropped, and the base reduced while the sum stays non-
   * negative.
   */
  method TruncModSum(sum: SumForm, c: int, facts: Facts, ghost ctx: iset<Env>) returns (rest: ModRest)
    requires Tidy(AsSum(sum)) && c > 0 && Sound(facts, ctx)
    ensures RestOk(rest, sum) && forall env :: env in ctx ==> RestRight(rest, sum, c, Trunc, env)
    ensures RestUpright(rest, sum)
  {
    var lhs, extra := SeparateDivisibleParts(sum, c);
    if extra.base == 0 && extra.args == [] {
      rest := Settled(Plain(Const(0)));
      forall env | env in ctx ensures RestRight(rest, sum, c, Trunc, env) { NoRemainder(sum, lhs, c, env); }
      return;
    }
    var part := Normalize(AsSum(lhs));
    var temp := Normalize(AsSum(extra));
    if !(facts.nonneg(part) && facts.nonneg(temp)) {
      rest := ReduceOffset(sum, c, facts, ctx);
      return;
    }
    forall env | env in ctx
      ensures SumVal(extra, env) >= 0 && I.TruncMod(SumVal(sum, env), c) == I.TruncMod(SumVal(extra, env), c)
    {
      DropNonNegative(lhs, c, Eval(temp, env), env);
    }
    rest := TruncModRest(extra, temp, c, facts, ctx);
    RestOfPart(rest, extra, sum);
  }

  /** What is left of a part is left of the whole. */
  lemma {:induction false} RestOfPart(rest: ModRest, extra: SumForm, sum: SumForm)
    requires RestOk(rest, extra) && RestUpright(rest, extra) && ArgsCost(extra.args) <= ArgsCost(sum.args)
    requires forall k :: UprightSum(sum, k) ==> UprightSum(extra, k)
    requires forall k :: AllMild(sum.args, k) ==> AllMild(extra.args, k)
    ensures RestOk(rest, sum) && RestUpright(rest, sum)
  {
  }

  lemma {:induction false} NoRemainder(sum: SumForm, lhs: SumForm, c: int, env: Env)
    requires c > 0 && AllScalesDivisible(lhs.args, c) && Divisible(lhs.base, c) && SumVal(sum, env) == SumVal(lhs, env)
    ensures RestRight(Settled(Plain(Const(0))), sum, c, Trunc, env)
  {
    DivisiblePart(lhs, c, env);
    DivisibleExact(Trunc, SumVal(lhs, env), c);
  }

  /** A sum that is not negative, and its normal form. */
  method TruncModRest(sum: SumForm, e: Expr, c: int, facts: Facts, ghost ctx: iset<Env>) returns (rest: ModRest)
    requires Tidy(AsSum(sum)) && c > 0 && Sound(facts, ctx)
    requires Divs(e) <= ArgsCost(sum.args) && forall k :: UprightSum(sum, k) ==> Upright(e, k)
    requires forall env :: Eval(e, env) == SumVal(sum, env)
    requires forall env :: env in ctx ==> SumVal(sum, env) >= 0
    ensures RestOk(rest, sum) && forall env :: env in ctx ==> RestRight(rest, sum, c, Trunc, env)
    ensures RestUpright(rest, sum)
  {
    if e.Const? {
      if e.value >= 0 { ConstQuotient(Trunc, e.value, c); }
      return Settled(Plain(Const(I.TruncMod(e.value, c))));
    }
    if facts.below(e, c) {
      rest := Settled(Plain(e));
      forall env | env in ctx ensures RestRight(rest, sum, c, Trunc, env) { SmallQuot(Trunc, Eval(e, env), c); }
      return;
    }
    rest := ReduceOffset(sum, c, facts, ctx);
  }

  /** (x - 5) % 3 is (x - 2) % 3 when neither dividend is negative. */
  method ReduceOffset(sum: SumForm, c: int, facts: Facts, ghost ctx: iset<Env>) returns (rest: ModRest)
    requires Tidy(AsSum(sum)) && c > 0 && Sound(facts, ctx)
    ensures rest.Left? && RestOk(rest, sum) && forall env :: env in ctx ==> RestRight(rest, sum, c, Trunc, env)
    ensures RestUpright(rest, sum)
  {
    var whole := Normalize(AsSum(sum));
    var low := facts.atLeast(whole);
    var base := I.TruncMod(sum.base, c);
    if sum.base >= 0 { ConstQuotient(Trunc, sum.base, c); }
    if low.Some? && low.value >= 0 && low.value - sum.base + base >= 0 {
      rest := Left(sum.(base := base));
      forall env | env in ctx ensures RestRight(rest, sum, c, Trunc, env) {
        OffsetKept(SumVal(sum, env), sum.base, c);
      }
    } else {
      rest := Left(sum);
    }
  }

  lemma {:induction false} OffsetKept(x: int, base: int, c: int)
    requires c > 0 && x >= 0 && x - base + I.TruncMod(base, c) >= 0
    ensures I.TruncMod(x - base + I.TruncMod(base, c), c) == I.TruncMod(x, c)
  {
    QuotRem(Trunc, base, c);
    var q, k := I.TruncMod(base, c), I.TruncDiv(base, c);
    var y := x - base + q;
    assert c * k == base - q && c * (-k) == q - base;
    if base >= q {
      ShiftTrunc(y, c, k);
    } else {
      ShiftTrunc(x, c, -k);
    }
  }

  lemma {:induction false} DropNonNegative(lhs: SumForm, c: int, rest: int, env: Env)
    requires c > 0 && AllScalesDivisible(lhs.args, c) && Divisible(lhs.base, c) && SumVal(lhs, env) >= 0 && rest >= 0
    ensures I.TruncMod(SumVal(lhs, env) + rest, c) == I.TruncMod(rest, c)
  {
    DivisiblePart(lhs, c, env);
    var k :| SumVal(lhs, env) == c * k;
    ShiftTrunc(rest, c, k);
  }

  lemma {:induction false} DivisiblePart(sum: SumForm, c: int, env: Env)
    requires c != 0 && AllScalesDivisible(sum.args, c) && Divisible(sum.base, c)
    ensures I.Divides(c, SumVal(sum, env))
    decreases |sum.args|
  {
    if sum.args == [] {
    } else {
      var rest := SumForm(sum.args[1..], sum.base);
      DivisiblePart(rest, c, env);
      var s := sum.args[0];
      assert I.Divides(c, SplitVal(s, env)) by {
        if s.Valid() {
          var k :| s.scale == c * k;
          Assoc(c, k, Core(s, Eval(s.index, env)));
        } else {
          assert 0 == c * 0;
        }
      }
      I.DividesLinear(c, SplitVal(s, env), SumVal(rest, env), 1, 1);
      assert 1 * SplitVal(s, env) + 1 * SumVal(rest, env) == SumVal(sum, env);
    }
  }

  // ----- the visitors -----

  /** A split divided, or reduced, by a constant. */
  datatype Fold = Fold(split: SplitExpr, c: int, mode: DivMode, quotient: bool)

  predicate GoodFold(f: Fold) {
    f.c > 0 && if f.quotient then DivGood(f.split, f.c, f.mode) else ModGood(f.split, f.c, f.mode)
  }

  ghost predicate AllGood(folds: seq<Fold>) {
    forall i :: 0 <= i < |folds| ==> GoodFold(folds[i])
  }

  /** Folding this split is right, whatever the constant. */
  predicate SafeSplit(s: SplitExpr) {
    MildSplit(s, ANY)
  }

  ghost predicate SplitKept(s: SplitExpr, m: DivMode, r: SplitExpr) {
    forall k :: UprightSplit(s, k) && (k.floored ==> m == Floor) ==> UprightSplit(r, k)
  }

  /** No division of c that is met can be folded wrongly. */
  ghost predicate SafeDividend(c: Canon, floorQuotient: bool) {
    MildCanon(c, ANY) || (floorQuotient && NoSplit(c))
  }

  ghost predicate CanonKept(a: Canon, m: DivMode, r: Canon) {
    forall k :: UprightCanon(a, k) && (k.floored ==> m == Floor) ==> UprightCanon(r, k)
  }

  /** The canonical form of e has the signs that e promises. */
  ghost predicate SignsOf(e: Expr, c: Canon) {
    && (forall k :: Upright(e, k) ==> UprightCanon(c, k)) && (Summed(e) ==> NoSplit(c)) && (e.Const? ==> c == Plain(e))
    && (forall k :: Mild(e, k) ==> MildCanon(c, k))
  }

  class CanonicalSimplifier {
    const facts: Facts
    ghost const ctx: iset<Env>
    /** The folds met so far, and whether every one was good. */
    ghost var folds: seq<Fold>
    ghost var right: bool

    ghost predicate Valid()
      reads this
    {
      Sound(facts, ctx) && (right <==> AllGood(folds))
    }

    constructor (facts: Facts, ghost ctx: iset<Env>)
      requires Sound(facts, ctx)
      ensures Valid() && folds == [] && right && this.facts == facts && this.ctx == ctx
    {
      this.facts, this.ctx := facts, ctx;
      folds, right := [], true;
    }

    ghost method Meet(f: Fold)
      requires Valid()
      modifies this
      ensures Valid() && folds == old(folds) + [f] && (right <==> old(right) && GoodFold(f))
    {
      assert AllGood(folds + [f]) <==> AllGood(folds) && GoodFold(f) by {
        assert forall i :: 0 <= i < |folds| ==> (folds + [f])[i] == folds[i];
        assert (folds + [f])[|folds|] == f;
      }
      folds, right := folds + [f], right && GoodFold(f);
    }

    method DivSplit(s: SplitExpr, c: int, m: DivMode) returns (r: SplitExpr)
      requires Valid() && s.Valid() && c > 0
      modifies this
      ensures Valid() && (right ==> old(right)) && r.Valid() && SplitCost(r) <= SplitCost(s) + 1
      ensures right ==> forall env :: SplitVal(r, env) == Quot(m, SplitVal(s, env), c)
      ensures SplitKept(s, m, r) && (SafeSplit(s) ==> right == old(right))
    {
      var t := ConvertDivMode(s, m);
      FoldSigns(s, c, m);
      ConvertVal(s, m, map[]);
      r := SplitDivConst(s, c, m);
      DivideSplitOk(t, c, m);
      Meet(Fold(t, c, m, true));
      if right {
        forall env ensures SplitVal(r, env) == Quot(m, SplitVal(s, env), c) {
          ConvertVal(s, m, env);
          DivideSplitVal(t, c, m, env);
        }
      }
    }

    /** Nothing is returned where a lower factor that must be positive is not. */
    method SplitModConst(s: SplitExpr, c: int, m: DivMode) returns (r: Option<SplitExpr>)
      requires Valid() && s.Valid() && c > 0
      modifies this
      ensures Valid() && (right ==> old(right))
      ensures r.Some? ==> r.value.Valid() && SplitCost(r.value) <= SplitCost(s) + 1
      ensures r.Some? && right ==> forall env :: env in ctx ==> SplitVal(r.value, env) == Rem(m, SplitVal(s, env), c)
      ensures SafeSplit(s) ==> r.Some? && right == old(right)
      ensures r.Some? ==> SplitKept(s, m, r.value)
      decreases SplitCost(s), 2
    {
      var t := ConvertDivMode(s, m);
      PlanSigns(s, c, m);
      ConvertVal(s, m, map[]);
      PlanModOk(t, c, m);
      Meet(Fold(t, c, m, false));
      match PlanMod(t, c, m)
      case Done(d) =>
        r := Some(d);
        if right { PlanRight(s, c, m, d); }
      case Revisit(factor) =>
        r := Revisit(s, t, c, m, factor);
    }

    /** The index simplified under a smaller factor, divided and scaled again. */
    method Revisit(
      ghost s: SplitExpr, t: SplitExpr, ghost c: int, m: DivMode, factor: int) returns (r: Option<SplitExpr>)
      requires Valid() && s.Valid() && c > 0 && t == ConvertDivMode(s, m) && PlanMod(t, c, m) == ModPlan.Revisit(factor)
      requires t.Valid() && SplitCost(t) <= SplitCost(s) && t.upper.Some? && (right ==> ModGood(t, c, m))
      requires PlanKept(s, m, t, ModPlan.Revisit(factor))
      modifies this
      ensures Valid() && (right ==> old(right))
      ensures r.Some? ==> r.value.Valid() && SplitCost(r.value) <= SplitCost(s) + 1
      ensures r.Some? && right ==> forall env :: env in ctx ==> SplitVal(r.value, env) == Rem(m, SplitVal(s, env), c)
      ensures SafeSplit(s) ==> r.Some? && right == old(right)
      ensures r.Some? ==> SplitKept(s, m, r.value)
      decreases SplitCost(s), 2, 0
    {
      DivDivs(m, t.index, factor);
      if SafeSplit(s) { RevisitSafe(s, m, t, factor); }
      var e := VisitExpr(MkMod(m, t.index, factor));
      if e.None? || t.lower <= 0 {
        return None;
      }
      r := Some(Reapply(e.value, t, m));
      RevisitOk(e.value, t, m);
      RevisitSigns(s, m, factor, e.value);
      if right { RevisitRight(s, c, m, factor, e.value, ctx); }
    }

    method VisitExpr(e: Expr) returns (r: Option<Expr>)
      requires Valid()
      modifies this
      ensures Valid() && (right ==> old(right)) && (Divs(e) == 0 ==> folds == old(folds))
      ensures r.Some? ==> Divs(r.value) <= Divs(e)
      ensures r.Some? && right ==> forall env :: env in ctx ==> Eval(r.value, env) == Eval(e, env)
      ensures Safe(e) ==> r.Some? && right == old(right)
      ensures r.Some? ==> forall k :: Upright(e, k) ==> Upright(r.value, k)
      ensures AffineExpr(e) ==> r.Some? && Reduces(e, r.value)
      decreases Divs(e), 1, e, 2
    {
      var c := CanonicalMutate(e);
      if c.None? {
        return None;
      }
      var n := Normalize(c.value);
      if AffineExpr(e) { AffineReduces(e, c.value, n); }
      r := Some(n);
    }

    /** The canonical form of an expression, by its top operation. */
    method CanonicalMutate(e: Expr) returns (r: Option<Canon>)
      requires Valid()
      modifies this
      ensures Valid() && (right ==> old(right)) && (Divs(e) == 0 ==> folds == old(folds))
      ensures r.Some? ==> Tidy(r.value) && Cost(r.value) <= Divs(e) && (right ==> Means(r.value, e, ctx))
      ensures Safe(e) ==> r.Some? && right == old(right)
      ensures r.Some? ==> SignsOf(e, r.value)
      ensures (AffineExpr(e) ==> r.Some?) && (r.Some? ==> AffineForm(e, r.value))
      decreases Divs(e), 1, e, 1
    {
      match e
      case Const(_) => r := Some(Plain(e));
      case Var(_) => r := Some(Plain(e));
      case Min(_, _) => r := Some(Plain(facts.rewrite(e)));
      case Max(_, _) => r := Some(Plain(facts.rewrite(e)));
      case Select(_, _, _) => r := Some(Plain(facts.rewrite(e)));
      case _ => r := MutateBoth(e);
    }

    method MutateBoth(e: Expr) returns (r: Option<Canon>)
      requires Valid() && (e.Add? || e.Sub? || e.Mul? || e.TDiv? || e.TMod? || e.FDiv? || e.FMod?)
      modifies this
      ensures Valid() && (right ==> old(right)) && (Divs(e) == 0 ==> folds == old(folds))
      ensures r.Some? ==> Tidy(r.value) && Cost(r.value) <= Divs(e) && (right ==> Means(r.value, e, ctx))
      ensures Safe(e) ==> r.Some? && right == old(right)
      ensures r.Some? ==> SignsOf(e, r.value)
      ensures (AffineExpr(e) ==> r.Some?) && (r.Some? ==> AffineForm(e, r.value))
      decreases Divs(e), 1, e, 0
    {
      var a := CanonicalMutate(e.a);
      if a.None? {
        return None;
      }
      var b := CanonicalMutate(e.b);
      if b.None? {
        return None;
      }
      r := Operate(e, a.value, b.value);
    }

    method Operate(e: Expr, a: Canon, b: Canon) returns (r: Option<Canon>)
      requires Valid() && (e.Add? || e.Sub? || e.Mul? || e.TDiv? || e.TMod? || e.FDiv? || e.FMod?)
      requires Tidy(a) && Tidy(b) && Cost(a) <= Divs(e.a) && Cost(b) <= Divs(e.b) && SignsOf(e.a, a) && SignsOf(e.b, b)
      requires right ==> Means(a, e.a, ctx) && Means(b, e.b, ctx)
      requires AffineForm(e.a, a) && AffineForm(e.b, b)
      modifies this
      ensures Valid() && (right ==> old(right)) && (Divs(e) == 0 ==> folds == old(folds))
      ensures (AffineExpr(e) ==> r.Some?) && (r.Some? ==> AffineForm(e, r.value))
      ensures r.Some? ==> Tidy(r.value) && Cost(r.value) <= Divs(e) && (right ==> Means(r.value, e, ctx))
      ensures Safe(e) ==> r.Some? && right == old(right)
      ensures r.Some? ==> SignsOf(e, r.value)
      decreases Divs(e), 0
    {
      if e.Add? || e.Sub? {
        var c := AddCanon(a, b, if e.Add? then 1 else -1);
        SumSigns(e, a, b, c);
        r := Some(c);
      } else if e.Mul? {
        var c := MulCanon(a, b);
        ProductSigns(e, a, b, c);
        r := Some(c);
      } else {
        r := Divide(e, a, b);
      }
    }

    method Divide(e: Expr, a: Canon, b: Canon) returns (r: Option<Canon>)
      requires Valid() && (e.TDiv? || e.TMod? || e.FDiv? || e.FMod?)
      requires Tidy(a) && Tidy(b) && Cost(a) <= Divs(e.a) && Cost(b) <= Divs(e.b) && SignsOf(e.a, a) && SignsOf(e.b, b)
      requires right ==> Means(a, e.a, ctx) && Means(b, e.b, ctx)
      modifies this
      ensures Valid() && (right ==> old(right))
      ensures r.Some? ==> Tidy(r.value) && Cost(r.value) <= Divs(e) && (right ==> Means(r.value, e, ctx))
      ensures Safe(e) ==> r.Some? && right == old(right)
      ensures r.Some? ==> SignsOf(e, r.value)
      decreases Divs(e), 0, 0
    {
      var m := if e.FDiv? || e.FMod? then Floor else Trunc;
      if b.Plain? && b.e.Const? && b.e.value > 0 {
        if e.FDiv? || e.TDiv? {
          var c := DivConst(a, b.e.value, m);
          QuotientSigns(e, a, m, c);
          r := Some(c);
        } else {
          r := ModConst(a, b.e.value, m);
          if r.Some? { QuotientSigns(e, a, m, r.value); }
        }
      } else if a.Plain? && b.Plain? && a.e.Const? && b.e.Const? && b.e.value != 0 {
        r := Some(Plain(Const(if e.FDiv? || e.TDiv? then Quot(m, a.e.value, b.e.value)
          else Rem(m, a.e.value, b.e.value))));
        NegativeDivisor(e, b, r.value);
      } else {
        var x := Normalize(a);
        var y := Normalize(b);
        RebuildOk(e, a, b, x, y);
        r := Some(Plain(Rebuild(e, x, y)));
      }
    }

    method DivConst(a: Canon, c: int, m: DivMode) returns (r: Canon)
      requires Valid() && Tidy(a) && c > 0
      modifies this
      ensures Valid() && (right ==> old(right)) && Tidy(r) && Cost(r) <= Cost(a) + 1
      ensures right ==> forall env :: env in ctx ==> CanonVal(r, env) == Quot(m, CanonVal(a, env), c)
      ensures CanonKept(a, m, r) && (SafeDividend(a, m == Floor) ==> right == old(right))
      ensures m == Floor && NoSplit(a) ==> NoSplit(r)
    {
      if c == 1 {
        forall env ensures Quot(m, CanonVal(a, env), 1) == CanonVal(a, env) { DivideByOne(m, CanonVal(a, env)); }
        return a;
      }
      if a.Plain? && a.e.Const? {
        if a.e.value >= 0 { ConstQuotient(m, a.e.value, c); }
        return Plain(Const(Quot(m, a.e.value, c)));
      }
      if a.AsSum? {
        if m == Floor {
          r := FloorDivSum(a.sum, c, facts, ctx);
          return;
        }
        var t := TruncDivSum(a.sum, c, facts, ctx);
        if t.Some? {
          return t.value;
        }
      } else {
        var n := Normalize(a);
        if facts.within(n, c) {
          forall env | env in ctx ensures Quot(m, CanonVal(a, env), c) == 0 { SmallQuot(m, Eval(n, env), c); }
          return Plain(Const(0));
        }
      }
      var s := ToSplitExpr(a);
      var q := DivSplit(s, c, m);
      r := AsSplit(q);
    }

    method ModConst(a: Canon, c: int, m: DivMode) returns (r: Option<Canon>)
      requires Valid() && Tidy(a) && c > 0
      modifies this
      ensures Valid() && (right ==> old(right))
      ensures r.Some? ==> Tidy(r.value) && Cost(r.value) <= Cost(a) + 1
      ensures r.Some? && right ==> forall env :: env in ctx ==> CanonVal(r.value, env) == Rem(m, CanonVal(a, env), c)
      ensures SafeDividend(a, false) ==> r.Some? && right == old(right)
      ensures r.Some? ==> CanonKept(a, m, r.value)
      decreases Cost(a), 3
    {
      if a.Plain? && a.e.Const? {
        if a.e.value >= 0 { ConstQuotient(m, a.e.value, c); }
        return Some(Plain(Const(Rem(m, a.e.value, c))));
      }
      var dividend := a;
      if a.AsSum? {
        var rest: ModRest;
        if m == Floor {
          rest := FloorModSum(a.sum, c, facts, ctx);
        } else {
          rest := TruncModSum(a.sum, c, facts, ctx);
        }
        assert forall env :: env in ctx ==> RestRight(rest, a.sum, c, m, env);
        if rest.Settled? {
          return Some(rest.c);
        }
        dividend := AsSum(rest.sum);
      } else {
        var n := Normalize(a);
        if facts.within(n, c) {
          forall env | env in ctx
            ensures Rem(m, CanonVal(a, env), c) == CanonVal(a, env)
          {
            SmallQuot(m, Eval(n, env), c);
          }
          return Some(a);
        }
      }
      assert forall env :: env in ctx ==> Rem(m, CanonVal(dividend, env), c) == Rem(m, CanonVal(a, env), c);
      var s := ToSplitExpr(dividend);
      var t := SplitModConst(s, c, m);
      if t.None? {
        return None;
      }
      r := Some(AsSplit(t.value));
    }
  }

  lemma {:induction false} FoldSigns(s: SplitExpr, c: int, m: DivMode)
    requires s.Valid() && c > 0
    ensures SplitKept(s, m, SplitDivConst(s, c, m)) && (SafeSplit(s) ==> DivGood(ConvertDivMode(s, m), c, m))
  {
    var t := ConvertDivMode(s, m);
    forall k | UprightSplit(s, k) && (k.floored ==> m == Floor)
      ensures UprightSplit(SplitDivConst(s, c, m), k) && DivGood(t, c, m)
    {
      UprightConvert(s, m, k);
      ConvertVal(s, m, map[]);
      UprightDivide(t, c, m, k);
    }
    if s.IsWhole() { WholeGood(t, c, m); }
  }

  /** The plan for the remainder of s, read as t, keeps what s promises; a whole index is not revisited. */
  ghost predicate PlanKept(s: SplitExpr, m: DivMode, t: SplitExpr, plan: ModPlan) {
    && (forall k :: UprightSplit(s, k) && (k.floored ==> m == Floor) ==> UprightSplit(t, k) && UprightStep(plan, k))
    && (s.IsWhole() ==> plan.Done?)
  }

  lemma {:induction false} PlanSigns(s: SplitExpr, c: int, m: DivMode)
    requires s.Valid() && c > 0
    ensures SafeSplit(s) ==> ModGood(ConvertDivMode(s, m), c, m)
    ensures PlanKept(s, m, ConvertDivMode(s, m), PlanMod(ConvertDivMode(s, m), c, m))
  {
    var t := ConvertDivMode(s, m);
    forall k | UprightSplit(s, k) && (k.floored ==> m == Floor)
      ensures UprightSplit(t, k) && ModGood(t, c, m) && UprightStep(PlanMod(t, c, m), k)
    {
      UprightConvert(s, m, k);
      ConvertVal(s, m, map[]);
      UprightPlan(t, c, m, k);
    }
    if s.IsWhole() { WholeGood(t, c, m); }
  }

  lemma {:induction false} RevisitSafe(s: SplitExpr, m: DivMode, t: SplitExpr, factor: int)
    requires PlanKept(s, m, t, ModPlan.Revisit(factor)) && SafeSplit(s)
    ensures Safe(MkMod(m, t.index, factor)) && t.lower > 0
  {
    UprightIsSafe(t.index, ANY);
  }

  /** The lower factor and the scale of t, applied to a simplified index. */
  function Reapply(e: Expr, t: SplitExpr, m: DivMode): SplitExpr
    requires t.lower > 0
  {
    var u := if t.lower != 1 then SplitDivConst(Whole(e, Trunc), t.lower, m) else Whole(e, Trunc);
    u.(scale := u.scale * t.scale)
  }

  lemma {:induction false} RevisitSigns(s: SplitExpr, m: DivMode, factor: int, e: Expr)
    requires s.Valid()
    requires var t := ConvertDivMode(s, m);
      && t.lower > 0 && PlanKept(s, m, t, ModPlan.Revisit(factor))
      && forall k :: Upright(MkMod(m, t.index, factor), k) ==> Upright(e, k)
    ensures SplitKept(s, m, Reapply(e, ConvertDivMode(s, m), m))
  {
    var t := ConvertDivMode(s, m);
    var u := if t.lower != 1 then SplitDivConst(Whole(e, Trunc), t.lower, m) else Whole(e, Trunc);
    forall k | UprightSplit(s, k) && (k.floored ==> m == Floor)
      ensures UprightSplit(u.(scale := u.scale * t.scale), k)
    {
      assert UprightSplit(t, k);
      UprightMod(m, t.index, factor, k);
      WholeDivSigns(e, t.lower, m, k);
      assert UprightSplit(u, k);
      ScaleSigns(u, t.scale);
    }
  }

  lemma {:induction false} SumSigns(e: Expr, a: Canon, b: Canon, c: Canon)
    requires (e.Add? || e.Sub?) && SignsOf(e.a, a) && SignsOf(e.b, b) && NoSplit(c)
    requires Cost(a) <= Divs(e.a) && Cost(b) <= Divs(e.b) && Cost(c) <= Divs(e)
    requires e.Add? ==> forall k :: UprightCanon(a, k) && UprightCanon(b, k) ==> UprightCanon(c, k)
    requires b.Plain? && b.e.Const? ==> forall k :: UprightCanon(a, k) && k.signed ==> UprightCanon(c, k)
    requires e.Add? || Cost(b) == 0 ==> forall k :: MildCanon(a, k) && MildCanon(b, k) ==> MildCanon(c, k)
    ensures SignsOf(e, c)
  {
    forall k | Mild(e, k) ensures MildCanon(c, k) {
      if Divs(e) == 0 {
        FreeIsMild(c, k);
      } else if Upright(e, k) {
        assert UprightCanon(c, k);
      } else if e.Sub? {
        FreeIsMild(b, k);
      }
    }
  }

  lemma {:induction false} ProductSigns(e: Expr, a: Canon, b: Canon, c: Canon)
    requires e.Mul? && SignsOf(e.a, a) && SignsOf(e.b, b) && Cost(c) <= Divs(e)
    requires b.Plain? && b.e.Const? && b.e.value >= 0 ==> forall k :: MildCanon(a, k) ==> MildCanon(c, k)
    requires a.Plain? && a.e.Const? && a.e.value >= 0 ==> forall k :: UprightCanon(b, k) ==> UprightCanon(c, k)
    requires b.Plain? && b.e.Const? && b.e.value >= 0 ==> forall k :: UprightCanon(a, k) ==> UprightCanon(c, k)
    requires forall k: Kind :: !k.signed && UprightCanon(a, k) && UprightCanon(b, k) ==> UprightCanon(c, k)
    ensures SignsOf(e, c)
  {
    forall k | Upright(e, k) ensures UprightCanon(c, k) {
      var low := Kind(k.floored, false);
      if Upright(e.a, low) && Upright(e.b, low) {
        assert UprightCanon(c, low);
        SignedCanon(c, k.floored);
      }
    }
    forall k | Mild(e, k) ensures MildCanon(c, k) {
      if Divs(e) == 0 {
        FreeIsMild(c, k);
      } else if Upright(e, k) {
        assert UprightCanon(c, k);
      }
    }
  }

  lemma {:induction false} QuotientSigns(e: Expr, a: Canon, m: DivMode, c: Canon)
    requires (e.FDiv? || e.FMod? || e.TDiv? || e.TMod?) && SignsOf(e.a, a) && CanonKept(a, m, c)
    requires m == if e.FDiv? || e.FMod? then Floor else Trunc
    requires Summed(e) ==> NoSplit(c)
    ensures SignsOf(e, c)
  {
    forall k | Mild(e, k) ensures MildCanon(c, k) { assert Upright(e, k) && UprightCanon(c, k); }
  }

  /** The same division of other operands. */
  function Rebuild(e: Expr, x: Expr, y: Expr): Expr {
    if e.FDiv? then FDiv(x, y) else if e.FMod? then FMod(x, y) else if e.TDiv? then TDiv(x, y) else TMod(x, y)
  }

  lemma {:induction false} RebuildOk(e: Expr, a: Canon, b: Canon, x: Expr, y: Expr)
    requires (e.FDiv? || e.FMod? || e.TDiv? || e.TMod?) && SignsOf(e.a, a) && SignsOf(e.b, b)
    requires Divs(x) <= Divs(e.a) && Divs(y) <= Divs(e.b)
    requires (forall k :: UprightCanon(a, k) ==> Upright(x, k)) && forall k :: UprightCanon(b, k) ==> Upright(y, k)
    requires !(b.Plain? && b.e.Const? && b.e.value > 0)
    ensures SignsOf(e, Plain(Rebuild(e, x, y))) && Divs(Rebuild(e, x, y)) <= Divs(e)
    ensures forall env :: Eval(x, env) == Eval(e.a, env) && Eval(y, env) == Eval(e.b, env) ==>
      Eval(Rebuild(e, x, y), env) == Eval(e, env)
  {
  }

  /** The divisor of an upright expression is not a negative constant unless constants may be. */
  lemma {:induction false} NegativeDivisor(e: Expr, b: Canon, c: Canon)
    requires (e.FDiv? || e.FMod? || e.TDiv? || e.TMod?) && SignsOf(e.b, b) && b.Plain? && b.e.Const? && b.e.value < 0
    requires c.Plain? && c.e.Const?
    ensures SignsOf(e, c)
  {
    forall k | Upright(e, k) ensures UprightCanon(c, k) {
      assert UprightCanon(b, k);
    }
  }

  lemma {:induction false} PlanRight(s: SplitExpr, c: int, m: DivMode, d: SplitExpr)
    requires s.Valid() && c > 0 && ModGood(ConvertDivMode(s, m), c, m)
    requires PlanMod(ConvertDivMode(s, m), c, m) == Done(d)
    ensures forall env :: SplitVal(d, env) == Rem(m, SplitVal(s, env), c)
  {
    forall env ensures SplitVal(d, env) == Rem(m, SplitVal(s, env), c) {
      ConvertVal(s, m, env);
      PlanModVal(ConvertDivMode(s, m), c, m, env);
    }
  }

  lemma {:induction false} RevisitOk(e: Expr, t: SplitExpr, m: DivMode)
    requires t.lower > 0
    ensures Reapply(e, t, m).Valid() && SplitCost(Reapply(e, t, m)) <= Divs(e) + if t.lower != 1 then 1 else 0
  {
    WholeVal(e, Trunc, map[]);
    WholeDivVal(e, t.lower, m, map[]);
  }

  /** The index simplified under the smaller factor, divided and scaled again, is the remainder. */
  lemma {:induction false} RevisitRight(s: SplitExpr, c: int, m: DivMode, factor: int, e: Expr, ctx: iset<Env>)
    requires s.Valid() && c > 0 && ModGood(ConvertDivMode(s, m), c, m)
    requires PlanMod(ConvertDivMode(s, m), c, m) == ModPlan.Revisit(factor)
    requires var t := ConvertDivMode(s, m);
      t.lower > 0 && forall env :: env in ctx ==> Eval(e, env) == Eval(MkMod(m, t.index, factor), env)
    ensures forall env :: env in ctx ==>
      SplitVal(Reapply(e, ConvertDivMode(s, m), m), env) == Rem(m, SplitVal(s, env), c)
  {
    var t := ConvertDivMode(s, m);
    var u := if t.lower != 1 then SplitDivConst(Whole(e, Trunc), t.lower, m) else Whole(e, Trunc);
    forall env | env in ctx
      ensures SplitVal(u.(scale := u.scale * t.scale), env) == Rem(m, SplitVal(s, env), c)
    {
      ConvertVal(s, m, env);
      PlanModOk(t, c, m);
      PlanModVal(t, c, m, env);
      MkModVal(m, t.index, factor, env);
      WholeVal(e, Trunc, env);
      WholeDivVal(e, t.lower, m, env);
      DivideByOne(m, Eval(e, env));
      TermScaled(u, t.scale, env);
      assert SplitVal(u, env) == Core(t.(upper := Some(factor)), Eval(t.index, env));
    }
  }

  /**
   * Simplification keeps the value in every admissible valuation, if every fold met was good, and
   * never adds divisions; an expression without divisions meets no folds. What is left of an affine
   * expression uses just the variables it depends on.
   */
  method Simplify(e: Expr, facts: Facts, ghost ctx: iset<Env>) returns (r: Option<Expr>, ghost folds: seq<Fold>)
    requires Sound(facts, ctx)
    ensures r.Some? ==> Divs(r.value) <= Divs(e)
    ensures Divs(e) == 0 ==> folds == []
    ensures r.Some? && AllGood(folds) ==> forall env :: env in ctx ==> Eval(r.value, env) == Eval(e, env)
    ensures Safe(e) ==> r.Some? && forall env :: env in ctx ==> Eval(r.value, env) == Eval(e, env)
    ensures AffineExpr(e) ==> r.Some? && Reduces(e, r.value)
  {
    var simplifier := new CanonicalSimplifier(facts, ctx);
    r := simplifier.VisitExpr(e);
    folds := simplifier.folds;
  }
}
