// The canonical forms of integer expressions: splits ((index % upper) / lower) * scale, and sums
// of splits.
module CanonicalForm {
  import opened Expr
  import opened DivModes
  import I = IntOperator

  /** n % d == 0, as the machine computes it. */
  predicate Divisible(n: int, d: int)
    requires d != 0
    ensures Divisible(n, d) <==> I.Divides(d, n)
  {
    I.ModZero(n, d);
    I.TruncMod(n, d) == 0
  }

  /** No upper factor stands for a positive infinity. */
  datatype SplitExpr = SplitExpr(index: Expr, lower: int, upper: Option<int>, scale: int, mode: DivMode) {
    predicate Valid() {
      lower != 0 && (upper.Some? ==> upper.value != 0 && Divisible(upper.value, lower))
    }

    /** A whole index, which reads the same in either mode. */
    predicate IsWhole() { lower == 1 && upper.None? }

    predicate CompatibleTo(m: DivMode) { mode == m || IsWhole() }
  }

  /** A variable, scaled. */
  predicate Bare(s: SplitExpr) {
    s.index.Var? && s.IsWhole()
  }

  /** Different variables, scaled. */
  predicate Bares(args: seq<SplitExpr>) {
    && (forall i :: 0 <= i < |args| ==> Bare(args[i]))
    && (forall i, j :: 0 <= i < j < |args| ==> args[i].index != args[j].index)
  }

  /** index % upper. */
  function Reduced(s: SplitExpr, v: int): int
    requires s.Valid()
  {
    if s.upper.Some? then Rem(s.mode, v, s.upper.value) else v
  }

  /** (index % upper) / lower. */
  function Core(s: SplitExpr, v: int): int
    requires s.Valid()
  {
    Quot(s.mode, Reduced(s, v), s.lower)
  }

  function SplitVal(s: SplitExpr, env: Env): int {
    if s.Valid() then s.scale * Core(s, Eval(s.index, env)) else 0
  }

  datatype SumForm = SumForm(args: seq<SplitExpr>, base: int)

  function ArgsVal(args: seq<SplitExpr>, env: Env): int {
    if args == [] then 0 else SplitVal(args[0], env) + ArgsVal(args[1..], env)
  }

  function SumVal(s: SumForm, env: Env): int {
    ArgsVal(s.args, env) + s.base
  }

  predicate AllValid(args: seq<SplitExpr>) {
    forall i :: 0 <= i < |args| ==> args[i].Valid()
  }

  /** An expression, or one of the two canonical forms. */
  datatype Canon = Plain(e: Expr) | AsSplit(split: SplitExpr) | AsSum(sum: SumForm)

  predicate CanonOk(c: Canon) {
    match c
    case Plain(_) => true
    case AsSplit(s) => s.Valid()
    case AsSum(sum) => AllValid(sum.args)
  }

  function CanonVal(c: Canon, env: Env): int {
    match c
    case Plain(e) => Eval(e, env)
    case AsSplit(s) => SplitVal(s, env)
    case AsSum(sum) => SumVal(sum, env)
  }

  // ----- the number of divisions -----

  /** Divisions and remainders in e; simplification never adds any. */
  function Divs(e: Expr): nat {
    match e
    case Const(_) => 0
    case Var(_) => 0
    case TDiv(a, b) => Divs(a) + Divs(b) + 1
    case TMod(a, b) => Divs(a) + Divs(b) + 1
    case FDiv(a, b) => Divs(a) + Divs(b) + 1
    case FMod(a, b) => Divs(a) + Divs(b) + 1
    case Add(a, b) => Divs(a) + Divs(b)
    case Sub(a, b) => Divs(a) + Divs(b)
    case Mul(a, b) => Divs(a) + Divs(b)
    case Min(a, b) => Divs(a) + Divs(b)
    case Max(a, b) => Divs(a) + Divs(b)
    case Select(_, t, f) => Divs(t) + Divs(f)
  }

  function SplitCost(s: SplitExpr): nat {
    Divs(s.index) + (if s.upper.Some? then 1 else 0) + (if s.lower != 1 then 1 else 0)
  }

  function ArgsCost(args: seq<SplitExpr>): nat {
    if args == [] then 0 else SplitCost(args[0]) + ArgsCost(args[1..])
  }

  function Cost(c: Canon): nat {
    match c
    case Plain(e) => Divs(e)
    case AsSplit(s) => SplitCost(s)
    case AsSum(sum) => ArgsCost(sum.args)
  }

  lemma {:induction false} ArgsUpdate(args: seq<SplitExpr>, i: nat, s: SplitExpr)
    requires i < |args|
    ensures forall env :: ArgsVal(args[i := s], env) == ArgsVal(args, env) - SplitVal(args[i], env) + SplitVal(s, env)
    ensures ArgsCost(args[i := s]) == ArgsCost(args) - SplitCost(args[i]) + SplitCost(s)
  {
    if i == 0 {
      assert args[i := s][1..] == args[1..];
    } else {
      assert args[i := s][1..] == args[1..][i - 1 := s];
      ArgsUpdate(args[1..], i - 1, s);
    }
  }

  function Insert(args: seq<SplitExpr>, i: nat, s: SplitExpr): seq<SplitExpr>
    requires i <= |args|
  {
    args[..i] + [s] + args[i..]
  }

  lemma {:induction false} ArgsInsert(args: seq<SplitExpr>, i: nat, s: SplitExpr)
    requires i <= |args|
    ensures forall env :: ArgsVal(Insert(args, i, s), env) == ArgsVal(args, env) + SplitVal(s, env)
    ensures ArgsCost(Insert(args, i, s)) == ArgsCost(args) + SplitCost(s)
  {
    if i == 0 {
      assert Insert(args, i, s)[1..] == args;
    } else {
      assert Insert(args, i, s)[1..] == Insert(args[1..], i - 1, s);
      ArgsInsert(args[1..], i - 1, s);
    }
  }

  // ----- back to expressions -----

  function MkMod(m: DivMode, a: Expr, c: int): Expr {
    if m == Trunc then TMod(a, Const(c)) else FMod(a, Const(c))
  }

  function MkDiv(m: DivMode, a: Expr, c: int): Expr {
    if m == Trunc then TDiv(a, Const(c)) else FDiv(a, Const(c))
  }

  lemma {:induction false} MkModVal(m: DivMode, a: Expr, c: int, env: Env)
    requires c != 0
    ensures Eval(MkMod(m, a, c), env) == Rem(m, Eval(a, env), c)
  {
  }

  lemma {:induction false} MkDivVal(m: DivMode, a: Expr, c: int, env: Env)
    requires c != 0
    ensures Eval(MkDiv(m, a, c), env) == Quot(m, Eval(a, env), c)
  {
  }

  function ReducedExpr(s: SplitExpr): Expr {
    if s.upper.Some? then MkMod(s.mode, s.index, s.upper.value) else s.index
  }

  function CoreExpr(s: SplitExpr): Expr {
    if s.lower != 1 then MkDiv(s.mode, ReducedExpr(s), s.lower) else ReducedExpr(s)
  }

  function NormalizeWithScale(s: SplitExpr, sscale: int): Expr {
    if s.scale == 0 then Const(0)
    else if sscale * s.scale != 1 then MkMul(CoreExpr(s), Const(sscale * s.scale))
    else CoreExpr(s)
  }

  lemma {:induction false} ReducedExprVal(s: SplitExpr, env: Env)
    requires s.Valid()
    ensures Eval(ReducedExpr(s), env) == Reduced(s, Eval(s.index, env))
    ensures Divs(ReducedExpr(s)) == Divs(s.index) + if s.upper.Some? then 1 else 0
  {
    if s.upper.Some? { MkModVal(s.mode, s.index, s.upper.value, env); }
  }

  lemma {:induction false} CoreExprVal(s: SplitExpr, env: Env)
    requires s.Valid()
    ensures Eval(CoreExpr(s), env) == Core(s, Eval(s.index, env))
    ensures Divs(CoreExpr(s)) == SplitCost(s)
  {
    var e := ReducedExpr(s);
    ReducedExprVal(s, env);
    if s.lower != 1 {
      MkDivVal(s.mode, e, s.lower, env);
      DivDivs(s.mode, e, s.lower);
    } else {
      DivideByOne(s.mode, Eval(e, env));
    }
  }

  lemma {:induction false} DivDivs(m: DivMode, e: Expr, c: int)
    ensures Divs(MkDiv(m, e, c)) == Divs(e) + 1 && Divs(MkMod(m, e, c)) == Divs(e) + 1
  {
  }

  lemma DivideByOne(m: DivMode, x: int)
    ensures Quot(m, x, 1) == x
  {
    QuotUnique(m, x, 1, x, 0);
  }

  /** The normal form has the split's value, times the extra scale, and no more divisions. */
  lemma {:induction false} NormalizeSplitVal(s: SplitExpr, sscale: int, env: Env)
    requires s.Valid()
    ensures Eval(NormalizeWithScale(s, sscale), env) == sscale * SplitVal(s, env)
    ensures Divs(NormalizeWithScale(s, sscale)) <= SplitCost(s)
  {
    CoreExprVal(s, env);
    var c := Core(s, Eval(s.index, env));
    if s.scale == 0 {
      assert s.scale * c == 0;
    } else {
      Assoc(sscale, s.scale, c);
      MulDivs(CoreExpr(s), sscale * s.scale);
    }
  }

  lemma Assoc(a: int, b: int, c: int)
    ensures (a * b) * c == a * (b * c) && c * (a * b) == a * (b * c)
  {
  }

  lemma {:induction false} MulDivs(e: Expr, c: int)
    ensures Divs(MkMul(e, Const(c))) <= Divs(e)
  {
  }
}
