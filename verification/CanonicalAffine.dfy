// Expressions of first degree in their variables, and the canonical forms they take.
module CanonicalAffine {
  import opened Expr
  import opened DivModes
  import opened CanonicalForm
  import opened CanonicalMerge

  /** Sums and differences of variables and constants, multiplied by constants. */
  predicate AffineExpr(e: Expr) {
    match e
    case Const(_) => true
    case Var(_) => true
    case Add(x, y) => AffineExpr(x) && AffineExpr(y)
    case Sub(x, y) => AffineExpr(x) && AffineExpr(y)
    case Mul(x, y) => AffineExpr(x) && AffineExpr(y) && (x.Const? || y.Const?)
    case _ => false
  }

  /** A constant, or different variables, scaled. */
  predicate Scattered(c: Canon) {
    match c
    case Plain(e) => e.Const? || e.Var?
    case AsSplit(s) => Bare(s)
    case AsSum(sum) => Bares(sum.args)
  }

  /** The form of an affine expression is scattered and has its value everywhere. */
  ghost predicate AffineForm(e: Expr, c: Canon) {
    AffineExpr(e) ==> Scattered(c) && forall env :: CanonVal(c, env) == Eval(e, env)
  }

  /** The value changes when v goes from zero to one. */
  ghost predicate Moves(e: Expr, v: VarName) {
    Eval(e, map[v := 1]) != Eval(e, map[])
  }

  ghost predicate MovesForm(c: Canon, v: VarName) {
    CanonVal(c, map[v := 1]) != CanonVal(c, map[])
  }

  /** r has the value of e, uses just the variables e depends on, and is a constant if there are none. */
  ghost predicate Reduces(e: Expr, r: Expr) {
    && (forall env :: Eval(r, env) == Eval(e, env))
    && (forall v :: Uses(r, v) <==> Moves(e, v))
    && ((forall v :: !Moves(e, v)) ==> r.Const?)
  }

  lemma {:induction false} BareVal(s: SplitExpr, env: Env)
    requires Bare(s)
    ensures SplitVal(s, env) == s.scale * Lookup(env, s.index.name)
  {
    DivideByOne(s.mode, Lookup(env, s.index.name));
  }

  /** A variable moves the sum by its scale. */
  lemma {:induction false} BareScale(args: seq<SplitExpr>, v: VarName)
    requires Bares(args)
    ensures forall i :: 0 <= i < |args| && args[i].index == Var(v) ==>
      ArgsVal(args, map[v := 1]) == ArgsVal(args, map[]) + args[i].scale
    ensures (forall i :: 0 <= i < |args| ==> args[i].index != Var(v)) ==>
      ArgsVal(args, map[v := 1]) == ArgsVal(args, map[])
  {
    if args != [] {
      assert Bare(args[0]);
      BareVal(args[0], map[v := 1]);
      BareVal(args[0], map[]);
      var rest := args[1..];
      BareScale(rest, v);
      if args[0].index == Var(v) {
        assert forall i :: 0 <= i < |rest| ==> rest[i].index != Var(v);
      } else {
        forall i | 0 <= i < |args| && args[i].index == Var(v)
          ensures ArgsVal(args, map[v := 1]) == ArgsVal(args, map[]) + args[i].scale
        {
          assert rest[i - 1] == args[i];
        }
      }
    }
  }

  lemma {:induction false} BaresAtZero(args: seq<SplitExpr>)
    requires Bares(args)
    ensures ArgsVal(args, map[]) == 0
  {
    if args != [] {
      assert Bare(args[0]);
      BareVal(args[0], map[]);
      BaresAtZero(args[1..]);
    }
  }

  lemma {:induction false} ReadsMoves(sum: SumForm, v: VarName)
    requires Bares(sum.args) && Reads(sum.args, v)
    ensures MovesForm(AsSum(sum), v)
  {
    var i :| 0 <= i < |sum.args| && sum.args[i].scale != 0 && Uses(sum.args[i].index, v);
    assert sum.args[i].index == Var(v);
    BareScale(sum.args, v);
  }

  lemma {:induction false} StillZero(sum: SumForm)
    requires Bares(sum.args) && forall v :: !MovesForm(AsSum(sum), v)
    ensures AllZero(sum.args)
  {
    forall i | 0 <= i < |sum.args| ensures sum.args[i].scale == 0 {
      assert Bare(sum.args[i]);
      var v := sum.args[i].index.name;
      BareScale(sum.args, v);
      assert !MovesForm(AsSum(sum), v);
    }
  }

  /** The normal expression n of a scattered form uses only what moves it. */
  lemma {:induction false} ScatteredNormal(c: Canon, n: Expr)
    requires Scattered(c) && NormalOf(c, n)
    ensures forall v :: Uses(n, v) ==> MovesForm(c, v)
    ensures (forall v :: !MovesForm(c, v)) ==> n.Const?
  {
    match c
    case Plain(e) =>
      if e.Var? { assert MovesForm(c, e.name); }
    case AsSplit(s) =>
      BareVal(s, map[s.index.name := 1]);
      BareVal(s, map[]);
      if s.scale != 0 { assert MovesForm(c, s.index.name); }
      assert !Uses(Const(s.scale), s.index.name);
    case AsSum(sum) =>
      forall v | Uses(n, v) ensures MovesForm(c, v) { ReadsMoves(sum, v); }
      if forall v :: !MovesForm(c, v) { StillZero(sum); }
  }

  /** So of an affine expression the normal form uses just what it depends on. */
  lemma {:induction false} AffineReduces(e: Expr, c: Canon, n: Expr)
    requires AffineExpr(e) && AffineForm(e, c) && forall env :: Eval(n, env) == CanonVal(c, env)
    requires NormalOf(c, n)
    ensures Reduces(e, n)
  {
    ScatteredNormal(c, n);
    forall v ensures Uses(n, v) <==> Moves(e, v) {
      assert MovesForm(c, v) <==> Moves(e, v);
      if !Uses(n, v) { Coincidence(n, map[v := 1], map[]); }
    }
    if forall v :: !Moves(e, v) {
      forall v ensures !MovesForm(c, v) { assert !Moves(e, v); }
    }
  }

  ghost predicate Equal(a: Expr, b: Expr) {
    forall env :: Eval(a, env) == Eval(b, env)
  }

  lemma {:induction false} EqualStill(a: Expr, b: Expr, v: VarName)
    requires Equal(a, b)
    ensures !Moves(Sub(a, b), v)
  {
    var one: Env, none: Env := map[v := 1], map[];
    assert Eval(a, one) == Eval(b, one) && Eval(a, none) == Eval(b, none);
    assert Eval(Sub(a, b), one) == 0 && Eval(Sub(a, b), none) == 0;
  }

  lemma {:induction false} EqualIsZero(a: Expr, b: Expr, r: Expr)
    requires Reduces(Sub(a, b), r) && Equal(a, b)
    ensures r == Const(0)
  {
    var none: Env := map[];
    forall v ensures !Moves(Sub(a, b), v) { EqualStill(a, b, v); }
    assert Eval(r, none) == Eval(Sub(a, b), none) == Eval(a, none) - Eval(b, none) == 0;
    assert r == Const(Eval(r, none));
  }

  /** The difference of equal expressions is reduced to zero, and only theirs. */
  lemma {:induction false} EqualIffZero(a: Expr, b: Expr, r: Expr)
    requires Reduces(Sub(a, b), r)
    ensures r == Const(0) <==> Equal(a, b)
  {
    if Equal(a, b) { EqualIsZero(a, b, r); }
    if r == Const(0) {
      forall env ensures Eval(a, env) == Eval(b, env) { assert Eval(r, env) == Eval(Sub(a, b), env); }
    }
  }
}
