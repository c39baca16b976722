// The expression language the analyses work on, and its meaning over a valuation.
module Expr {
  import I = IntOperator

  type VarName = string

  /** A valuation; a variable it does not mention is zero. */
  type Env = map<VarName, int>

  function Lookup(env: Env, v: VarName): int {
    if v in env then env[v] else 0
  }

  datatype Option<+T> = None | Some(value: T)

  datatype Expr =
    | Const(value: int)
    | Var(name: VarName)
    | Add(a: Expr, b: Expr)
    | Sub(a: Expr, b: Expr)
    | Mul(a: Expr, b: Expr)
    | TDiv(a: Expr, b: Expr)
    | TMod(a: Expr, b: Expr)
    | FDiv(a: Expr, b: Expr)
    | FMod(a: Expr, b: Expr)
    | Min(a: Expr, b: Expr)
    | Max(a: Expr, b: Expr)
    | Select(cond: Cond, ifTrue: Expr, ifFalse: Expr)

  datatype Cond =
    | Bool(value: bool)
    | LT(x: Expr, y: Expr)
    | LE(x: Expr, y: Expr)
    | GT(x: Expr, y: Expr)
    | GE(x: Expr, y: Expr)
    | EQ(x: Expr, y: Expr)
    | NE(x: Expr, y: Expr)
    | And(p: Cond, q: Cond)
    | Or(p: Cond, q: Cond)
    | Not(p: Cond)

  // Division by zero has no meaning in the source; it is given the value zero here
  // and `Defined` says which valuations avoid it.
  function TDivVal(x: int, y: int): int { if y == 0 then 0 else I.TruncDiv(x, y) }
  function TModVal(x: int, y: int): int { if y == 0 then 0 else I.TruncMod(x, y) }
  function FDivVal(x: int, y: int): int { if y == 0 then 0 else I.FloorDiv(x, y) }
  function FModVal(x: int, y: int): int { if y == 0 then 0 else I.FloorMod(x, y) }

  function Eval(e: Expr, env: Env): int {
    match e
    case Const(c) => c
    case Var(v) => Lookup(env, v)
    case Add(a, b) => Eval(a, env) + Eval(b, env)
    case Sub(a, b) => Eval(a, env) - Eval(b, env)
    case Mul(a, b) => Eval(a, env) * Eval(b, env)
    case TDiv(a, b) => TDivVal(Eval(a, env), Eval(b, env))
    case TMod(a, b) => TModVal(Eval(a, env), Eval(b, env))
    case FDiv(a, b) => FDivVal(Eval(a, env), Eval(b, env))
    case FMod(a, b) => FModVal(Eval(a, env), Eval(b, env))
    case Min(a, b) => var x, y := Eval(a, env), Eval(b, env); if x < y then x else y
    case Max(a, b) => var x, y := Eval(a, env), Eval(b, env); if x > y then x else y
    case Select(c, t, f) => if Holds(c, env) then Eval(t, env) else Eval(f, env)
  }

  predicate Holds(c: Cond, env: Env) {
    match c
    case Bool(b) => b
    case LT(x, y) => Eval(x, env) < Eval(y, env)
    case LE(x, y) => Eval(x, env) <= Eval(y, env)
    case GT(x, y) => Eval(x, env) > Eval(y, env)
    case GE(x, y) => Eval(x, env) >= Eval(y, env)
    case EQ(x, y) => Eval(x, env) == Eval(y, env)
    case NE(x, y) => Eval(x, env) != Eval(y, env)
    case And(p, q) => Holds(p, env) && Holds(q, env)
    case Or(p, q) => Holds(p, env) || Holds(q, env)
    case Not(p) => !Holds(p, env)
  }

  function EvalVec(es: seq<Expr>, env: Env): (r: seq<int>)
    ensures |r| == |es|
    ensures forall i :: 0 <= i < |es| ==> r[i] == Eval(es[i], env)
  {
    seq(|es|, i requires 0 <= i < |es| => Eval(es[i], env))
  }

  /** No division by zero is met while evaluating e; only the chosen branch of a Select counts. */
  predicate Defined(e: Expr, env: Env) {
    match e
    case Const(_) => true
    case Var(_) => true
    case Add(a, b) => Defined(a, env) && Defined(b, env)
    case Sub(a, b) => Defined(a, env) && Defined(b, env)
    case Mul(a, b) => Defined(a, env) && Defined(b, env)
    case TDiv(a, b) => Defined(a, env) && Defined(b, env) && Eval(b, env) != 0
    case TMod(a, b) => Defined(a, env) && Defined(b, env) && Eval(b, env) != 0
    case FDiv(a, b) => Defined(a, env) && Defined(b, env) && Eval(b, env) != 0
    case FMod(a, b) => Defined(a, env) && Defined(b, env) && Eval(b, env) != 0
    case Min(a, b) => Defined(a, env) && Defined(b, env)
    case Max(a, b) => Defined(a, env) && Defined(b, env)
    case Select(c, t, f) => DefinedCond(c, env) && if Holds(c, env) then Defined(t, env) else Defined(f, env)
  }

  predicate DefinedCond(c: Cond, env: Env) {
    match c
    case Bool(_) => true
    case LT(x, y) => Defined(x, env) && Defined(y, env)
    case LE(x, y) => Defined(x, env) && Defined(y, env)
    case GT(x, y) => Defined(x, env) && Defined(y, env)
    case GE(x, y) => Defined(x, env) && Defined(y, env)
    case EQ(x, y) => Defined(x, env) && Defined(y, env)
    case NE(x, y) => Defined(x, env) && Defined(y, env)
    case And(p, q) => DefinedCond(p, env) && (Holds(p, env) ==> DefinedCond(q, env))
    case Or(p, q) => DefinedCond(p, env) && (!Holds(p, env) ==> DefinedCond(q, env))
    case Not(p) => DefinedCond(p, env)
  }

  /** Variable v occurs in e. */
  predicate Uses(e: Expr, v: VarName) {
    match e
    case Const(_) => false
    case Var(w) => v == w
    case Select(c, t, f) => UsesCond(c, v) || Uses(t, v) || Uses(f, v)
    case _ => Uses(e.a, v) || Uses(e.b, v)
  }

  predicate UsesCond(c: Cond, v: VarName) {
    match c
    case Bool(_) => false
    case And(p, q) => UsesCond(p, v) || UsesCond(q, v)
    case Or(p, q) => UsesCond(p, v) || UsesCond(q, v)
    case Not(p) => UsesCond(p, v)
    case _ => Uses(c.x, v) || Uses(c.y, v)
  }

  predicate UsesAny(e: Expr, s: set<VarName>) {
    exists v :: v in s && Uses(e, v)
  }

  /** The valuations agree on every variable e uses. */
  ghost predicate Agree(e: Expr, env: Env, env': Env) {
    forall v :: Uses(e, v) ==> Lookup(env, v) == Lookup(env', v)
  }

  ghost predicate AgreeCond(c: Cond, env: Env, env': Env) {
    forall v :: UsesCond(c, v) ==> Lookup(env, v) == Lookup(env', v)
  }

  /** The meaning of an expression depends only on the variables it uses. */
  lemma {:induction false} Coincidence(e: Expr, env: Env, env': Env)
    requires Agree(e, env, env')
    ensures Eval(e, env) == Eval(e, env')
    decreases e
  {
    match e
    case Const(_) =>
    case Var(_) =>
    case Select(c, t, f) =>
      CoincidenceCond(c, env, env');
      Coincidence(t, env, env');
      Coincidence(f, env, env');
    case _ =>
      Coincidence(e.a, env, env');
      Coincidence(e.b, env, env');
  }

  lemma {:induction false} CoincidenceCond(c: Cond, env: Env, env': Env)
    requires AgreeCond(c, env, env')
    ensures Holds(c, env) == Holds(c, env')
    decreases c
  {
    match c
    case Bool(_) =>
    case And(p, q) => CoincidenceCond(p, env, env'); CoincidenceCond(q, env, env');
    case Or(p, q) => CoincidenceCond(p, env, env'); CoincidenceCond(q, env, env');
    case Not(p) => CoincidenceCond(p, env, env');
    case _ => Coincidence(c.x, env, env'); Coincidence(c.y, env, env');
  }

  // ----- constant-folding constructors -----

  function MkAdd(a: Expr, b: Expr): (r: Expr)
    ensures forall v :: Uses(r, v) ==> Uses(a, v) || Uses(b, v)
    ensures forall env :: Eval(r, env) == Eval(a, env) + Eval(b, env)
  {
    if a.Const? && b.Const? then Const(a.value + b.value)
    else if a == Const(0) then b
    else if b == Const(0) then a
    else Add(a, b)
  }

  function MkSub(a: Expr, b: Expr): (r: Expr)
    ensures forall v :: Uses(r, v) ==> Uses(a, v) || Uses(b, v)
    ensures forall env :: Eval(r, env) == Eval(a, env) - Eval(b, env)
  {
    if a.Const? && b.Const? then Const(a.value - b.value)
    else if b == Const(0) then a
    else Sub(a, b)
  }

  function MkNeg(a: Expr): (r: Expr)
    ensures forall v :: Uses(r, v) ==> Uses(a, v)
    ensures forall env :: Eval(r, env) == -Eval(a, env)
  {
    MkSub(Const(0), a)
  }

  function MkMul(a: Expr, b: Expr): (r: Expr)
    ensures forall v :: Uses(r, v) ==> Uses(a, v) || Uses(b, v)
    ensures forall env :: Eval(r, env) == Eval(a, env) * Eval(b, env)
  {
    if a.Const? && b.Const? then Const(a.value * b.value)
    else if a == Const(1) then b
    else if a == Const(0) then a
    else if b == Const(1) then a
    else if b == Const(0) then b
    else Mul(a, b)
  }

  // ----- substitution -----

  type Subst = map<VarName, Expr>

  function SubstExpr(e: Expr, m: Subst): Expr {
    match e
    case Const(_) => e
    case Var(v) => if v in m then m[v] else e
    case Add(a, b) => Add(SubstExpr(a, m), SubstExpr(b, m))
    case Sub(a, b) => Sub(SubstExpr(a, m), SubstExpr(b, m))
    case Mul(a, b) => Mul(SubstExpr(a, m), SubstExpr(b, m))
    case TDiv(a, b) => TDiv(SubstExpr(a, m), SubstExpr(b, m))
    case TMod(a, b) => TMod(SubstExpr(a, m), SubstExpr(b, m))
    case FDiv(a, b) => FDiv(SubstExpr(a, m), SubstExpr(b, m))
    case FMod(a, b) => FMod(SubstExpr(a, m), SubstExpr(b, m))
    case Min(a, b) => Min(SubstExpr(a, m), SubstExpr(b, m))
    case Max(a, b) => Max(SubstExpr(a, m), SubstExpr(b, m))
    case Select(c, t, f) => Select(SubstCond(c, m), SubstExpr(t, m), SubstExpr(f, m))
  }

  function SubstCond(c: Cond, m: Subst): Cond {
    match c
    case Bool(_) => c
    case LT(x, y) => LT(SubstExpr(x, m), SubstExpr(y, m))
    case LE(x, y) => LE(SubstExpr(x, m), SubstExpr(y, m))
    case GT(x, y) => GT(SubstExpr(x, m), SubstExpr(y, m))
    case GE(x, y) => GE(SubstExpr(x, m), SubstExpr(y, m))
    case EQ(x, y) => EQ(SubstExpr(x, m), SubstExpr(y, m))
    case NE(x, y) => NE(SubstExpr(x, m), SubstExpr(y, m))
    case And(p, q) => And(SubstCond(p, m), SubstCond(q, m))
    case Or(p, q) => Or(SubstCond(p, m), SubstCond(q, m))
    case Not(p) => Not(SubstCond(p, m))
  }

  /** The valuation that gives each substituted variable the value of its replacement. */
  function Apply(env: Env, m: Subst): Env {
    env + map v | v in m :: Eval(m[v], env)
  }

  lemma {:induction false} SubstEval(e: Expr, m: Subst, env: Env)
    ensures Eval(SubstExpr(e, m), env) == Eval(e, Apply(env, m))
    decreases e
  {
    match e
    case Const(_) =>
    case Var(_) =>
    case Select(c, t, f) =>
      SubstHolds(c, m, env);
      SubstEval(t, m, env);
      SubstEval(f, m, env);
    case _ =>
      SubstEval(e.a, m, env);
      SubstEval(e.b, m, env);
  }

  lemma {:induction false} SubstHolds(c: Cond, m: Subst, env: Env)
    ensures Holds(SubstCond(c, m), env) == Holds(c, Apply(env, m))
    decreases c
  {
    match c
    case Bool(_) =>
    case And(p, q) => SubstHolds(p, m, env); SubstHolds(q, m, env);
    case Or(p, q) => SubstHolds(p, m, env); SubstHolds(q, m, env);
    case Not(p) => SubstHolds(p, m, env);
    case _ => SubstEval(c.x, m, env); SubstEval(c.y, m, env);
  }
}
