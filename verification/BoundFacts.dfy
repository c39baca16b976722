// What the constant bounds alone let the canonical simplifier know: answers that hold for every valuation the
// analyzer's state admits, overflow and division by zero ruled out by the bounds themselves.
module BoundFacts {
  import opened Expr
  import opened DivModes
  import opened ConstBound
  import opened Domains
  import CanonicalForm
  import CanonicalAffine
  import CanonicalSign
  import Canonical = CanonicalSimplify
  import Compare = CanonicalCompare
  import M = ModularSet
  import I = IntOperator

  predicate Finite(b: Bound) {
    NEG < b.lo && b.hi < POS
  }

  predicate AwayFromZero(b: Bound) {
    b.lo > 0 || b.hi < 0
  }

  /** The bounds show that evaluation stays within the machine's range and never divides by zero. */
  predicate Settled(e: Expr, st: State) {
    match e
    case Const(c) => Inside(c)
    case Var(_) => Finite(BoundOf(e, st))
    case Add(a, b) => Settled(a, st) && Settled(b, st) && Finite(RawBound(e, st))
    case Sub(a, b) => Settled(a, st) && Settled(b, st) && Finite(RawBound(e, st))
    case Mul(a, b) => Settled(a, st) && Settled(b, st) && Finite(RawBound(e, st))
    case Min(a, b) => Settled(a, st) && Settled(b, st)
    case Max(a, b) => Settled(a, st) && Settled(b, st)
    case Select(_, t, f) => Settled(t, st) && Settled(f, st)
    case _ => Settled(e.a, st) && Settled(e.b, st) && AwayFromZero(BoundOf(e.b, st))
  }

  lemma {:induction false} SettledSized(e: Expr, st: State)
    requires Settled(e, st)
    ensures Sized(e)
  {
    match e
    case Const(_) =>
    case Var(_) =>
    case Select(_, t, f) => SettledSized(t, st); SettledSized(f, st);
    case _ => SettledSized(e.a, st); SettledSized(e.b, st);
  }

  // ----- one operation -----

  lemma {:induction false} SumInside(a: Bound, b: Bound, x: int, y: int)
    requires BoundOk(a) && BoundOk(b) && InB(x, a) && InB(y, b)
    requires Finite(Bound(InfAdd(a.lo, b.lo), InfAdd(a.hi, b.hi)))
    ensures Inside(x + y)
  {
  }

  lemma {:induction false} Corner(lo: int, hi: int, x: int, y: int, l: int, h: int)
    requires lo <= x <= hi && l <= y <= h
    requires Inside(lo * l) && Inside(lo * h) && Inside(hi * l) && Inside(hi * h)
    ensures Inside(x * y)
  {
    Edge(lo, hi, x, y);
    Edge(l, h, y, lo);
    Edge(l, h, y, hi);
    assert y * lo == lo * y && l * lo == lo * l && h * lo == lo * h;
    assert y * hi == hi * y && l * hi == hi * l && h * hi == hi * h;
  }

  lemma {:induction false} ProductInside(a: Bound, b: Bound, x: int, y: int)
    requires InB(x, a) && InB(y, b) && Finite(MulBound(a, b))
    ensures Inside(x * y)
  {
    InfMulIsClamp(a.lo, b.lo);
    InfMulIsClamp(a.hi, b.hi);
    InfMulIsClamp(a.lo, b.hi);
    InfMulIsClamp(a.hi, b.lo);
    Corner(a.lo, a.hi, x, y, b.lo, b.hi);
  }

  lemma {:induction false} QuotInside(m: DivMode, x: int, y: int)
    requires Inside(x) && y != 0
    ensures Inside(Quot(m, x, y))
  {
    if y > 0 {
      QuotSign(m, x, y);
    } else {
      Flip(m, x, y);
      QuotSign(m, -x, -y);
    }
  }

  lemma {:induction false} RemInside(m: DivMode, x: int, y: int)
    requires Inside(y) && y != 0
    ensures Inside(Rem(m, x, y))
  {
    QuotRem(m, x, y);
  }

  /** Operands that are calm and in their bounds make a settled operation calm. */
  lemma {:induction false} OperationCalm(e: Expr, st: State, env: Env)
    requires !e.Const? && !e.Var? && !e.Select? && StateOk(st) && Settled(e, st)
    requires Calm(e.a, env) && Calm(e.b, env) && Right(e.a, st, env) && Right(e.b, st, env)
    ensures Calm(e, env)
  {
    var a, b, x, y := BoundOf(e.a, st), BoundOf(e.b, st), Eval(e.a, env), Eval(e.b, env);
    SettledSized(e.a, st);
    SettledSized(e.b, st);
    BoundRanged(e.a, st);
    BoundRanged(e.b, st);
    match e
    case Add(_, _) => SumInside(a, b, x, y);
    case Sub(_, _) => SumInside(a, Bound(-b.hi, -b.lo), x, -y);
    case Mul(_, _) => ProductInside(a, b, x, y);
    case TDiv(_, _) => QuotInside(Trunc, x, y);
    case FDiv(_, _) => QuotInside(Floor, x, y);
    case TMod(_, _) => RemInside(Trunc, x, y);
    case FMod(_, _) => RemInside(Floor, x, y);
    case Min(_, _) =>
    case Max(_, _) =>
  }

  /** Finite ends come from the variable's own bound or from a constraint on it. */
  lemma {:induction false} NarrowInside(b: Bound, info: seq<Info>, e: Expr, env: Env)
    requires Finite(Narrow(b, info, e)) && forall i :: 0 <= i < |info| ==> InB(Eval(info[i].e, env), info[i].b)
    requires (b.lo > NEG ==> Eval(e, env) >= b.lo) && (b.hi < POS ==> Eval(e, env) <= b.hi)
    ensures Inside(Eval(e, env))
    decreases |info|
  {
    if info != [] {
      assert InB(Eval(info[0].e, env), info[0].b);
      NarrowInside(if info[0].e == e then IntersectB(b, info[0].b) else b, info[1..], e, env);
    }
  }

  /** The bounds alone make a settled expression calm, and the answers about it right, wherever the state admits. */
  lemma {:induction false} SettledCalm(e: Expr, st: State, env: Env)
    requires StateOk(st) && Admits(st, env) && Settled(e, st) && Fair(e, st)
    ensures Calm(e, env) && Right(e, st, env)
  {
    match e {
      case Const(_) =>
      case Var(v) =>
        assert RawBound(e, st) == VarBound(st, v) && BoundOf(e, st) == Narrow(RawBound(e, st), st.info, e);
        NarrowInside(VarBound(st, v), st.info, e, env);
      case Select(_, t, f) =>
        SettledCalm(t, st, env);
        SettledCalm(f, st, env);
      case _ =>
        SettledCalm(e.a, st, env);
        SettledCalm(e.b, st, env);
        OperationCalm(e, st, env);
    }
    SettledSized(e, st);
    AnalysisSound(e, st, env);
  }

  // ----- the facts -----

  predicate Known(e: Expr, st: State) {
    Settled(e, st) && Fair(e, st)
  }

  /** What the simplifier asks, answered from the bounds; nothing is rewritten. */
  function FactsOf(st: State): Canonical.Facts {
    Canonical.Facts(
      (e: Expr) => e,
      (e: Expr, c: int) => Known(e, st) && BoundOf(e, st).hi < c,
      (e: Expr) => Known(e, st) && BoundOf(e, st).lo >= 0,
      (e: Expr, c: int) => Known(e, st) && BoundOf(e, st).lo >= 0 && BoundOf(e, st).hi < c,
      (e: Expr) => if Known(e, st) then Some(BoundOf(e, st).lo) else None)
  }

  ghost function Admitted(st: State): iset<Env> {
    iset env: Env | Admits(st, env)
  }

  /** Every answer is right, with nothing left to assume. */
  lemma {:induction false} FactsSound(st: State)
    requires StateOk(st)
    ensures Canonical.Sound(FactsOf(st), Admitted(st))
  {
    forall e, env | env in Admitted(st) && Known(e, st) ensures InB(Eval(e, env), BoundOf(e, st)) {
      SettledCalm(e, st, env);
    }
  }

  /** Outside constraints the bounds of zero are known. */
  lemma {:induction false} ZeroKnown(st: State)
    requires st.info == []
    ensures Compare.KnowsZero(FactsOf(st))
  {
    assert BoundOf(Const(0), st) == Bound(0, 0);
  }

  /** Canonical simplification on the bounds of the state: a safe expression keeps its value wherever it admits. */
  method SimplifyBounded(e: Expr, st: State) returns (r: Option<Expr>)
    requires StateOk(st)
    ensures r.Some? ==> CanonicalForm.Divs(r.value) <= CanonicalForm.Divs(e)
    ensures CanonicalSign.Safe(e) ==> r.Some? && forall env :: Admits(st, env) ==> Eval(r.value, env) == Eval(e, env)
    ensures CanonicalAffine.AffineExpr(e) ==> r.Some? && CanonicalAffine.Reduces(e, r.value)
  {
    FactsSound(st);
    ghost var folds;
    r, folds := Canonical.Simplify(e, FactsOf(st), Admitted(st));
  }

  /** The same for a comparison. */
  method CompareBounded(x: Expr, y: Expr, st: State) returns (r: Cond)
    requires StateOk(st)
    ensures CanonicalSign.Mild(x, CanonicalSign.LEAN) && CanonicalForm.Divs(y) == 0 ==>
      forall env :: Admits(st, env) ==> (Holds(r, env) <==> Holds(LT(x, y), env))
    ensures st.info == [] && Compare.Reducible(x, y) ==>
      r.LT? && r.y == Const(0) && exists d :: Compare.LowestTerms(x, y, r.x, d)
  {
    FactsSound(st);
    if st.info == [] { ZeroKnown(st); }
    ghost var folds, extra;
    r, folds, extra := Compare.VisitLT(x, y, FactsOf(st), Admitted(st));
  }
}
