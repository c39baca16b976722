// The two abstract domains over expressions: congruence classes and constant bounds, each
// consulting the other.
module Domains {
  import opened Expr
  import opened DivModes
  import opened ConstBound
  import M = ModularSet
  import I = IntOperator

  /** A bound an open constraint gives to an expression. */
  datatype Info = Info(e: Expr, b: Bound)

  datatype State = State(vars: map<VarName, Bound>, info: seq<Info>, mods: map<VarName, M.ModEntry>)

  function VarBound(st: State, v: VarName): Bound {
    if v in st.vars then st.vars[v] else ANYTHING
  }

  function VarMod(st: State, v: VarName): M.ModEntry {
    if v in st.mods then st.mods[v] else M.EVERYTHING
  }

  /** Divisors are taken not to be zero. */
  function NoZero(b: Bound): Bound {
    if b.lo == 0 then Bound(1, b.hi) else b
  }

  function Narrow(b: Bound, info: seq<Info>, e: Expr): Bound
    decreases |info|
  {
    if info == [] then b
    else Narrow(if info[0].e == e then IntersectB(b, info[0].b) else b, info[1..], e)
  }

  function BoundOf(e: Expr, st: State): Bound
    decreases e, 1
  {
    Narrow(RawBound(e, st), st.info, e)
  }

  function RemBound(m: DivMode, a: Bound, b: Bound, cls: M.ModEntry): Bound {
    if b.lo > 0 then
      if b.lo == b.hi && I.Gcd(cls.coeff, b.lo) > 1 then TightMod(cls, b.lo) else PlainMod(m, a, b)
    else if m == Trunc then ANYTHING
    else SignedMod(b)
  }

  function RawBound(e: Expr, st: State): Bound
    decreases e, 0
  {
    match e
    case Const(c) => MakeBound(c, c)
    case Var(v) => VarBound(st, v)
    case Add(a, b) =>
      var x, y := BoundOf(a, st), BoundOf(b, st);
      Bound(InfAdd(x.lo, y.lo), InfAdd(x.hi, y.hi))
    case Sub(a, b) =>
      var x, y := BoundOf(a, st), BoundOf(b, st);
      Bound(InfAdd(x.lo, -y.hi), InfAdd(x.hi, -y.lo))
    case Mul(a, b) => MulBound(BoundOf(a, st), BoundOf(b, st))
    case TDiv(a, b) => DivBound(Trunc, BoundOf(a, st), NoZero(BoundOf(b, st)))
    case FDiv(a, b) => DivBound(Floor, BoundOf(a, st), NoZero(BoundOf(b, st)))
    case TMod(a, b) => RemBound(Trunc, BoundOf(a, st), NoZero(BoundOf(b, st)), ModOf(a, st))
    case FMod(a, b) => RemBound(Floor, BoundOf(a, st), NoZero(BoundOf(b, st)), ModOf(a, st))
    case Min(a, b) =>
      var x, y := BoundOf(a, st), BoundOf(b, st);
      Bound(Lesser(x.lo, y.lo), Lesser(x.hi, y.hi))
    case Max(a, b) =>
      var x, y := BoundOf(a, st), BoundOf(b, st);
      Bound(Greater(x.lo, y.lo), Greater(x.hi, y.hi))
    case Select(_, t, f) => UnionB(BoundOf(t, st), BoundOf(f, st))
  }

  function ModOf(e: Expr, st: State): M.ModEntry
    decreases e, 0
  {
    match e
    case Const(c) => M.MakeEntry(0, c)
    case Var(v) => VarMod(st, v)
    case Add(a, b) => M.AddEntry(ModOf(a, st), ModOf(b, st))
    case Sub(a, b) => M.SubEntry(ModOf(a, st), ModOf(b, st))
    case Mul(a, b) => M.MulEntry(ModOf(a, st), ModOf(b, st))
    case TDiv(a, b) => ByConst(ModOf(b, st), ModOf(a, st), BoundOf(a, st).lo >= 0, true)
    case FDiv(a, b) => ByConst(ModOf(b, st), ModOf(a, st), true, true)
    case TMod(a, b) => ByConst(ModOf(b, st), ModOf(a, st), BoundOf(a, st).lo >= 0, false)
    case FMod(a, b) => ByConst(ModOf(b, st), ModOf(a, st), true, false)
    case Min(a, b) => M.Union(ModOf(a, st), ModOf(b, st))
    case Max(a, b) => M.Union(ModOf(a, st), ModOf(b, st))
    case Select(_, t, f) => M.Union(ModOf(t, st), ModOf(f, st))
  }

  /** Quotient or remainder when the divisor is a known constant; the source refuses a zero one. */
  function ByConst(divisor: M.ModEntry, a: M.ModEntry, down: bool, quotient: bool): M.ModEntry {
    if divisor.coeff != 0 || divisor.base == 0 then M.EVERYTHING
    else if quotient then M.DivEntry(a, divisor.base, down)
    else M.ModByEntry(a, divisor.base, down)
  }

  // ----- what soundness is about -----

  predicate StateOk(st: State) {
    && (forall v :: v in st.vars ==> BoundOk(st.vars[v]))
    && (forall i :: 0 <= i < |st.info| ==> BoundOk(st.info[i].b))
    && (forall v :: v in st.mods ==> M.Normal(st.mods[v]))
  }

  /** The valuation respects what the state knows of variables and of constrained expressions. */
  ghost predicate Admits(st: State, env: Env) {
    && (forall v :: v in st.vars ==> InB(Lookup(env, v), st.vars[v]))
    && (forall i :: 0 <= i < |st.info| ==> InB(Eval(st.info[i].e, env), st.info[i].b))
    && (forall v :: v in st.mods ==> M.In(Lookup(env, v), st.mods[v]))
  }

  /** Constants are machine integers. */
  predicate Sized(e: Expr) {
    match e
    case Const(c) => Inside(c)
    case Var(_) => true
    case Select(_, t, f) => Sized(t) && Sized(f)
    case _ => Sized(e.a) && Sized(e.b)
  }

  /** Evaluation neither divides by zero nor leaves the machine's range, as of a valid program. */
  predicate Calm(e: Expr, env: Env) {
    && Inside(Eval(e, env))
    && match e
       case Const(_) => true
       case Var(_) => true
       case Select(c, t, f) => if Holds(c, env) then Calm(t, env) else Calm(f, env)
       case TDiv(a, b) => Calm(a, env) && Calm(b, env) && Eval(b, env) != 0
       case FDiv(a, b) => Calm(a, env) && Calm(b, env) && Eval(b, env) != 0
       case TMod(a, b) => Calm(a, env) && Calm(b, env) && Eval(b, env) != 0
       case FMod(a, b) => Calm(a, env) && Calm(b, env) && Eval(b, env) != 0
       case _ => Calm(e.a, env) && Calm(e.b, env)
  }

  /** A remainder whose bound is tightened has a base that fits, and if truncated a dividend that is not negative. */
  predicate FairRem(m: DivMode, a: Bound, b: Bound, cls: M.ModEntry) {
    b.lo > 0 && b.lo == b.hi && I.Gcd(cls.coeff, b.lo) > 1 ==> BaseFits(cls, b.lo) && (m == Floor || a.lo >= 0)
  }

  /** Every tightened remainder in e is fair. */
  predicate Fair(e: Expr, st: State) {
    match e
    case Const(_) => true
    case Var(_) => true
    case Select(_, t, f) => Fair(t, st) && Fair(f, st)
    case TMod(a, b) => Fair(a, st) && Fair(b, st) &&
      FairRem(Trunc, BoundOf(a, st), NoZero(BoundOf(b, st)), ModOf(a, st))
    case FMod(a, b) => Fair(a, st) && Fair(b, st) &&
      FairRem(Floor, BoundOf(a, st), NoZero(BoundOf(b, st)), ModOf(a, st))
    case _ => Fair(e.a, st) && Fair(e.b, st)
  }

  // ----- soundness -----

  lemma {:induction false} NarrowSound(b: Bound, info: seq<Info>, e: Expr, env: Env)
    requires BoundOk(b) && InB(Eval(e, env), b) && forall i :: 0 <= i < |info| ==>
      BoundOk(info[i].b) && InB(Eval(info[i].e, env), info[i].b)
    ensures InB(Eval(e, env), Narrow(b, info, e)) && BoundOk(Narrow(b, info, e))
    decreases |info|
  {
    if info != [] {
      assert InB(Eval(info[0].e, env), info[0].b);
      NarrowSound(if info[0].e == e then IntersectB(b, info[0].b) else b, info[1..], e, env);
    }
  }

  lemma {:induction false} NarrowRanged(b: Bound, info: seq<Info>, e: Expr)
    requires BoundOk(b) && forall i :: 0 <= i < |info| ==> BoundOk(info[i].b)
    ensures BoundOk(Narrow(b, info, e))
    decreases |info|
  {
    if info != [] {
      NarrowRanged(if info[0].e == e then IntersectB(b, info[0].b) else b, info[1..], e);
    }
  }

  lemma {:induction false} RemRanged(m: DivMode, a: Bound, b: Bound, cls: M.ModEntry)
    requires BoundOk(a) && BoundOk(b)
    ensures BoundOk(RemBound(m, a, b, cls))
  {
    InfAddRanged(b.hi, -1);
    InfAddRanged(b.lo, 1);
    if b.lo > 0 && b.lo == b.hi {
      BaseMod(cls.base, b.lo);
      I.GcdSpec(cls.coeff, b.lo, 1);
      GcdAtMost(cls.coeff, b.lo);
    }
  }

  lemma {:induction false} GcdAtMost(a: int, b: int)
    requires b > 0
    ensures 0 < I.Gcd(a, b) <= b
  {
    I.GcdSpec(a, b, 1);
    var g := I.Gcd(a, b);
    var k :| b == g * k;
    PositiveFactors(g, k);
  }

  lemma PositiveFactors(g: int, k: int)
    requires g > 0 && g * k > 0
    ensures g <= g * k
  {
  }

  lemma {:induction false} BoundRanged(e: Expr, st: State)
    requires StateOk(st) && Sized(e)
    ensures BoundOk(BoundOf(e, st))
    decreases e, 1
  {
    RawRanged(e, st);
    NarrowRanged(RawBound(e, st), st.info, e);
  }

  lemma {:induction false} RawRanged(e: Expr, st: State)
    requires StateOk(st) && Sized(e)
    ensures BoundOk(RawBound(e, st))
    decreases e, 0
  {
    match e
    case Const(_) =>
    case Var(_) =>
    case Select(_, t, f) =>
      BoundRanged(t, st);
      BoundRanged(f, st);
    case _ =>
      BoundRanged(e.a, st);
      BoundRanged(e.b, st);
      var x, y := BoundOf(e.a, st), BoundOf(e.b, st);
      OpRanged(e, st, x, y);
  }

  lemma {:induction false} OpRanged(e: Expr, st: State, x: Bound, y: Bound)
    requires !e.Const? && !e.Var? && !e.Select? && BoundOk(x) && BoundOk(y) && x == BoundOf(e.a, st)
    requires y == BoundOf(e.b, st)
    ensures BoundOk(RawBound(e, st))
  {
    match e
    case Add(_, _) =>
      InfAddRanged(x.lo, y.lo);
      InfAddRanged(x.hi, y.hi);
    case Sub(_, _) =>
      InfAddRanged(x.lo, -y.hi);
      InfAddRanged(x.hi, -y.lo);
    case Mul(_, _) => MulRanged(x, y);
    case TDiv(_, _) => DivRanged(Trunc, x, NoZero(y));
    case FDiv(_, _) => DivRanged(Floor, x, NoZero(y));
    case TMod(a, _) => RemRanged(Trunc, x, NoZero(y), ModOf(a, st));
    case FMod(a, _) => RemRanged(Floor, x, NoZero(y), ModOf(a, st));
    case Min(_, _) =>
    case Max(_, _) =>
  }

  lemma {:induction false} RemSound(m: DivMode, a: Bound, b: Bound, cls: M.ModEntry, x: int, y: int)
    requires BoundOk(a) && BoundOk(b) && InB(x, a) && Inside(x) && InB(y, b) && Inside(y) && y != 0
    requires M.In(x, cls) && FairRem(m, a, b, cls) && Inside(Rem(m, x, y))
    ensures InB(Rem(m, x, y), RemBound(m, a, b, cls))
  {
    if b.lo > 0 {
      if b.lo == b.hi && I.Gcd(cls.coeff, b.lo) > 1 {
        QuotRem(m, x, y);
        RemDivides(m, x, y);
        TightSound(cls, y, x, Rem(m, x, y));
      } else {
        PlainModSound(m, a, b, x, y);
      }
    } else if m == Floor {
      SignedModSound(b, x, y);
    }
  }

  /** Every value lies in the class and within the bound that the analysis gives. */
  ghost predicate Right(e: Expr, st: State, env: Env) {
    InB(Eval(e, env), BoundOf(e, st)) && M.In(Eval(e, env), ModOf(e, st))
  }

  lemma {:induction false} ClassNormal(e: Expr, st: State)
    requires StateOk(st)
    ensures M.Normal(ModOf(e, st))
  {
    match e
    case Const(c) => M.MakeEntryIn(0, c, 0);
    case Var(_) =>
    case Select(_, t, f) =>
      ClassNormal(t, st);
      UnionNormal(ModOf(t, st), ModOf(f, st));
    case Min(a, b) =>
      ClassNormal(a, st);
      UnionNormal(ModOf(a, st), ModOf(b, st));
    case Max(a, b) =>
      ClassNormal(a, st);
      UnionNormal(ModOf(a, st), ModOf(b, st));
    case Add(a, b) => M.MakeEntryIn(I.Gcd(ModOf(a, st).coeff, ModOf(b, st).coeff),
      ModOf(a, st).base + ModOf(b, st).base, 0);
    case Sub(a, b) => M.MakeEntryIn(I.Gcd(ModOf(a, st).coeff, ModOf(b, st).coeff),
      ModOf(a, st).base - ModOf(b, st).base, 0);
    case Mul(a, b) =>
      var x, y := ModOf(a, st), ModOf(b, st);
      M.MakeEntryIn(I.Gcd(x.coeff * y.coeff, I.Gcd(x.coeff * y.base, x.base * y.coeff)), x.base * y.base, 0);
    case TDiv(a, b) => ByConstNormal(ModOf(b, st), ModOf(a, st), BoundOf(a, st).lo >= 0, true);
    case FDiv(a, b) => ByConstNormal(ModOf(b, st), ModOf(a, st), true, true);
    case TMod(a, b) => ByConstNormal(ModOf(b, st), ModOf(a, st), BoundOf(a, st).lo >= 0, false);
    case FMod(a, b) => ByConstNormal(ModOf(b, st), ModOf(a, st), true, false);
  }

  lemma {:induction false} ByConstNormal(d: M.ModEntry, a: M.ModEntry, down: bool, quotient: bool)
    ensures M.Normal(ByConst(d, a, down, quotient))
  {
    if d.coeff == 0 && d.base != 0 {
      M.MakeEntryIn(I.Abs(I.TruncDiv(a.coeff, d.base)), 0, 0);
      M.MakeEntryIn(I.TruncDiv(a.coeff, d.base), I.TruncDiv(a.base, d.base), 0);
      var g := I.Gcd(a.coeff, d.base);
      I.GcdSpec(a.coeff, d.base, g);
      M.MakeEntryIn(g, I.TruncMod(a.base, g), 0);
    }
  }

  lemma {:induction false} UnionNormal(x: M.ModEntry, y: M.ModEntry)
    requires M.Normal(x)
    ensures M.Normal(M.Union(x, y))
  {
    var c := I.Gcd(x.coeff, y.coeff);
    if c != 0 {
      M.MakeEntryIn(c, I.TruncMod(x.base, c), 0);
      M.MakeEntryIn(I.Gcd(I.Gcd(I.TruncMod(x.base, c), I.TruncMod(y.base, c)), c), I.TruncMod(x.base, c), 0);
    }
  }

  lemma {:induction false} ByConstSound(
    d: M.ModEntry, a: M.ModEntry, x: int, y: int, m: DivMode, down: bool, quotient: bool)
    requires M.In(x, a) && M.In(y, d) && y != 0 && M.Normal(a) && (down ==> m == Floor || x >= 0)
    ensures M.In(if quotient then Quot(m, x, y) else Rem(m, x, y), ByConst(d, a, down, quotient))
  {
    M.EverythingHolds(if quotient then Quot(m, x, y) else Rem(m, x, y));
    if d.coeff == 0 && d.base != 0 {
      assert y == d.base;
      M.DivSound(a, y, x, m, down);
      M.ModSound(a, y, x, m, down);
    }
  }

  /** One operation keeps the congruence right. */
  lemma {:induction false} ClassStep(e: Expr, st: State, env: Env)
    requires !e.Const? && !e.Var? && !e.Select? && StateOk(st) && Right(e.a, st, env) && Right(e.b, st, env)
    requires e.TDiv? || e.FDiv? || e.TMod? || e.FMod? ==> Eval(e.b, env) != 0
    ensures M.In(Eval(e, env), ModOf(e, st))
  {
    var x, y, a, b := Eval(e.a, env), Eval(e.b, env), ModOf(e.a, st), ModOf(e.b, st);
    match e
    case Add(_, _) => M.AddSound(a, b, x, y);
    case Sub(_, _) => M.AddSound(a, b, x, y);
    case Mul(_, _) => M.MulSound(a, b, x, y);
    case Min(_, _) => M.UnionSound(a, b, Eval(e, env));
    case Max(_, _) => M.UnionSound(a, b, Eval(e, env));
    case TDiv(_, _) =>
      ClassNormal(e.a, st);
      ByConstSound(b, a, x, y, Trunc, BoundOf(e.a, st).lo >= 0, true);
    case FDiv(_, _) =>
      ClassNormal(e.a, st);
      ByConstSound(b, a, x, y, Floor, true, true);
    case TMod(_, _) =>
      ClassNormal(e.a, st);
      ByConstSound(b, a, x, y, Trunc, BoundOf(e.a, st).lo >= 0, false);
    case FMod(_, _) =>
      ClassNormal(e.a, st);
      ByConstSound(b, a, x, y, Floor, true, false);
  }

  /** One operation keeps the bound right. */
  lemma {:induction false} BoundStep(e: Expr, st: State, env: Env)
    requires !e.Const? && !e.Var? && !e.Select? && StateOk(st) && Sized(e) && Calm(e, env) && Fair(e, st)
    requires Right(e.a, st, env) && Right(e.b, st, env)
    ensures InB(Eval(e, env), RawBound(e, st))
  {
    BoundRanged(e.a, st);
    BoundRanged(e.b, st);
    var x, y, a, b := Eval(e.a, env), Eval(e.b, env), BoundOf(e.a, st), BoundOf(e.b, st);
    match e
    case Add(_, _) =>
      InfAddSound(a.lo, b.lo, x, y);
      InfAddSound(a.hi, b.hi, x, y);
    case Sub(_, _) =>
      InfAddSound(a.lo, -b.hi, x, -y);
      InfAddSound(a.hi, -b.lo, x, -y);
    case Mul(_, _) => MulSound(a, b, x, y);
    case TDiv(_, _) => DivSound(Trunc, a, NoZero(b), x, y);
    case FDiv(_, _) => DivSound(Floor, a, NoZero(b), x, y);
    case TMod(_, _) => RemSound(Trunc, a, NoZero(b), ModOf(e.a, st), x, y);
    case FMod(_, _) => RemSound(Floor, a, NoZero(b), ModOf(e.a, st), x, y);
    case Min(_, _) =>
    case Max(_, _) =>
  }

  /** Both analyses are sound for every expression whose tightened remainders are fair. */
  lemma {:induction false} AnalysisSound(e: Expr, st: State, env: Env)
    requires StateOk(st) && Admits(st, env) && Sized(e) && Calm(e, env) && Fair(e, st)
    ensures Right(e, st, env)
    decreases e, 1
  {
    if e.Const? {
      M.MakeEntryIn(0, e.value, e.value);
      assert e.value - e.value == 0 * 0;
    } else if e.Var? {
      M.EverythingHolds(Lookup(env, e.name));
    } else if e.Select? {
      SelectStep(e, st, env);
    } else {
      OperandsSound(e, st, env);
      ClassStep(e, st, env);
      BoundStep(e, st, env);
    }
    RawRanged(e, st);
    NarrowSound(RawBound(e, st), st.info, e, env);
  }

  lemma {:induction false} OperandsSound(e: Expr, st: State, env: Env)
    requires !e.Const? && !e.Var? && !e.Select?
    requires StateOk(st) && Admits(st, env) && Sized(e) && Calm(e, env) && Fair(e, st)
    ensures Right(e.a, st, env) && Right(e.b, st, env)
    ensures e.TDiv? || e.FDiv? || e.TMod? || e.FMod? ==> Eval(e.b, env) != 0
    decreases e, 0
  {
    AnalysisSound(e.a, st, env);
    AnalysisSound(e.b, st, env);
  }

  lemma {:induction false} SelectStep(e: Expr, st: State, env: Env)
    requires e.Select? && StateOk(st) && Admits(st, env) && Sized(e) && Calm(e, env) && Fair(e, st)
    ensures InB(Eval(e, env), RawBound(e, st)) && M.In(Eval(e, env), ModOf(e, st))
    decreases e, 0
  {
    if Holds(e.cond, env) {
      AnalysisSound(e.ifTrue, st, env);
    } else {
      AnalysisSound(e.ifFalse, st, env);
    }
    M.UnionSound(ModOf(e.ifTrue, st), ModOf(e.ifFalse, st), Eval(e, env));
  }
}
