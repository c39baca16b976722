// Reading an expression as a linear form in given variables.
module DetectLinear {
  import opened Expr
  import opened Matrix

  /** base + coeff * v, a missing part counting as zero. */
  datatype Entry = Entry(base: Option<Expr>, coeff: Option<Expr>)

  function PartVal(p: Option<Expr>, env: Env): int {
    match p case None => 0 case Some(e) => Eval(e, env)
  }

  predicate PartUses(p: Option<Expr>, v: VarName) {
    p.Some? && Uses(p.value, v)
  }

  function AddCombine(a: Option<Expr>, b: Option<Expr>): Option<Expr> {
    if a.None? then b else if b.None? then a else Some(MkAdd(a.value, b.value))
  }

  function SubCombine(a: Option<Expr>, b: Option<Expr>): Option<Expr> {
    if b.None? then a else if a.None? then Some(MkNeg(b.value)) else Some(MkSub(a.value, b.value))
  }

  function MulCombine(a: Option<Expr>, b: Option<Expr>): Option<Expr> {
    if a.None? then a else if b.None? then b else Some(MkMul(a.value, b.value))
  }

  function AddEntries(x: Entry, y: Entry): Entry {
    Entry(AddCombine(x.base, y.base), AddCombine(x.coeff, y.coeff))
  }

  function SubEntries(x: Entry, y: Entry): Entry {
    Entry(SubCombine(x.base, y.base), SubCombine(x.coeff, y.coeff))
  }

  /** A product is linear only when one factor has no coefficient. */
  function MulEntries(x: Entry, y: Entry): Option<Entry> {
    var (p, q) := if x.coeff.Some? then (y, x) else (x, y);
    if p.coeff.Some? then None
    else Some(Entry(MulCombine(p.base, q.base), MulCombine(p.base, q.coeff)))
  }

  /** None when e is not recognized as linear in v. */
  function Visit(e: Expr, v: VarName): Option<Entry> {
    match e
    case Add(a, b) =>
      var x, y := Visit(a, v), Visit(b, v);
      if x.None? || y.None? then None else Some(AddEntries(x.value, y.value))
    case Sub(a, b) =>
      var x, y := Visit(a, v), Visit(b, v);
      if x.None? || y.None? then None else Some(SubEntries(x.value, y.value))
    case Mul(a, b) =>
      var x, y := Visit(a, v), Visit(b, v);
      if x.None? || y.None? then None else MulEntries(x.value, y.value)
    case Var(w) => Some(if w == v then Entry(None, Some(Const(1))) else Entry(Some(e), None))
    case _ => if Uses(e, v) then None else Some(Entry(Some(e), None))
  }

  /** r has the value val, and neither part of it mentions v. */
  ghost predicate Represents(r: Entry, val: int, v: VarName, env: Env) {
    && val == PartVal(r.base, env) + PartVal(r.coeff, env) * Lookup(env, v)
    && !PartUses(r.base, v) && !PartUses(r.coeff, v)
  }

  lemma {:induction false} CombineVal(a: Option<Expr>, b: Option<Expr>, env: Env)
    ensures PartVal(AddCombine(a, b), env) == PartVal(a, env) + PartVal(b, env)
    ensures PartVal(SubCombine(a, b), env) == PartVal(a, env) - PartVal(b, env)
    ensures PartVal(MulCombine(a, b), env) == PartVal(a, env) * PartVal(b, env)
  {
  }

  lemma {:induction false} CombineUses(a: Option<Expr>, b: Option<Expr>, u: VarName)
    requires !PartUses(a, u) && !PartUses(b, u)
    ensures !PartUses(AddCombine(a, b), u) && !PartUses(SubCombine(a, b), u) && !PartUses(MulCombine(a, b), u)
  {
  }

  lemma SumTimes(t: int, c: int, d: int, w: int)
    requires t == c + d
    ensures t * w == c * w + d * w
    ensures (-d) * w == -(d * w)
  {
  }

  lemma ScaleLinear(p: int, q: int, b: int, c: int, w: int, pb: int, pc: int)
    requires q == b + c * w && pb == p * b && pc == p * c
    ensures p * q == pb + pc * w
  {
    assert p * (c * w) == (p * c) * w;
  }

  lemma {:induction false} EntriesRepresent(x: Entry, y: Entry, p: int, q: int, v: VarName, env: Env)
    requires Represents(x, p, v, env) && Represents(y, q, v, env)
    ensures Represents(AddEntries(x, y), p + q, v, env)
    ensures Represents(SubEntries(x, y), p - q, v, env)
  {
    CombineVal(x.base, y.base, env);
    CombineVal(x.coeff, y.coeff, env);
    CombineUses(x.base, y.base, v);
    CombineUses(x.coeff, y.coeff, v);
    var c, d, w := PartVal(x.coeff, env), PartVal(y.coeff, env), Lookup(env, v);
    SumTimes(PartVal(AddCombine(x.coeff, y.coeff), env), c, d, w);
    SumTimes(PartVal(SubCombine(x.coeff, y.coeff), env), c, -d, w);
  }

  lemma {:induction false} ProductRepresents(x: Entry, y: Entry, p: int, q: int, v: VarName, env: Env)
    requires Represents(x, p, v, env) && Represents(y, q, v, env) && MulEntries(x, y).Some?
    ensures Represents(MulEntries(x, y).value, p * q, v, env)
  {
    if x.coeff.Some? { Scaled(y, x, q, p, v, env); } else { Scaled(x, y, p, q, v, env); }
  }

  /** p is free of v, so multiplying by it scales both parts of q. */
  lemma {:induction false} Scaled(x: Entry, y: Entry, p: int, q: int, v: VarName, env: Env)
    requires Represents(x, p, v, env) && Represents(y, q, v, env) && x.coeff.None?
    ensures Represents(Entry(MulCombine(x.base, y.base), MulCombine(x.base, y.coeff)), p * q, v, env)
  {
    CombineVal(x.base, y.base, env);
    CombineVal(x.base, y.coeff, env);
    CombineUses(x.base, y.base, v);
    CombineUses(x.base, y.coeff, v);
    var w := Lookup(env, v);
    ScaleLinear(p, q, PartVal(y.base, env), PartVal(y.coeff, env), w, PartVal(MulCombine(x.base, y.base), env),
                PartVal(MulCombine(x.base, y.coeff), env));
  }

  /** A recognized entry has the value of the expression, and neither part mentions v. */
  lemma {:induction false} VisitSound(e: Expr, v: VarName, env: Env)
    requires Visit(e, v).Some?
    ensures Represents(Visit(e, v).value, Eval(e, env), v, env)
  {
    match e
    case Add(a, b) =>
      VisitSound(a, v, env);
      VisitSound(b, v, env);
      EntriesRepresent(Visit(a, v).value, Visit(b, v).value, Eval(a, env), Eval(b, env), v, env);
    case Sub(a, b) =>
      VisitSound(a, v, env);
      VisitSound(b, v, env);
      EntriesRepresent(Visit(a, v).value, Visit(b, v).value, Eval(a, env), Eval(b, env), v, env);
    case Mul(a, b) =>
      VisitSound(a, v, env);
      VisitSound(b, v, env);
      ProductRepresents(Visit(a, v).value, Visit(b, v).value, Eval(a, env), Eval(b, env), v, env);
    case _ =>
  }

  /** Nothing is mentioned that the expression does not mention. */
  lemma {:induction false} VisitWithin(e: Expr, v: VarName, u: VarName)
    requires Visit(e, v).Some? && !Uses(e, u)
    ensures !PartUses(Visit(e, v).value.base, u) && !PartUses(Visit(e, v).value.coeff, u)
  {
    if e.Add? || e.Sub? || e.Mul? {
      VisitWithin(e.a, v, u);
      VisitWithin(e.b, v, u);
      var x, y := Visit(e.a, v).value, Visit(e.b, v).value;
      CombineUses(x.base, y.base, u);
      CombineUses(x.coeff, y.coeff, u);
      CombineUses(x.base, y.coeff, u);
      CombineUses(y.base, x.coeff, u);
      CombineUses(y.base, x.base, u);
    }
  }

  function OrZero(p: Option<Expr>): Expr {
    match p case None => Const(0) case Some(e) => e
  }

  function VarVals(vars: seq<VarName>, env: Env): (r: Vec)
    ensures |r| == |vars|
    ensures forall i :: 0 <= i < |vars| ==> r[i] == Lookup(env, vars[i])
  {
    seq(|vars|, i requires 0 <= i < |vars| => Lookup(env, vars[i]))
  }

  lemma {:induction false} DotAppend(u: Vec, v: Vec, a: int, b: int)
    requires |u| == |v|
    ensures Dot(u + [a], v + [b]) == Dot(u, v) + a * b
  {
    if |u| == 0 {
      assert (u + [a])[1..] == [] && (v + [b])[1..] == [];
    } else {
      assert (u + [a])[1..] == u[1..] + [a] && (v + [b])[1..] == v[1..] + [b];
      DotAppend(u[1..], v[1..], a, b);
    }
  }

  /** coeffs . vars + base has the value of e, for every valuation. */
  ghost predicate LinearForm(e: Expr, vars: seq<VarName>, coeffs: seq<Expr>, base: Expr)
    requires |coeffs| == |vars|
  {
    forall env :: Eval(e, env) == Dot(EvalVec(coeffs, env), VarVals(vars, env)) + Eval(base, env)
  }

  lemma {:induction false} LinearStep(e: Expr, vars: seq<VarName>, coeffs: seq<Expr>, base: Expr, v: VarName)
    requires |coeffs| == |vars| && LinearForm(e, vars, coeffs, base) && Visit(base, v).Some?
    ensures var r := Visit(base, v).value;
      LinearForm(e, vars + [v], coeffs + [OrZero(r.coeff)], OrZero(r.base))
  {
    var r := Visit(base, v).value;
    forall env
      ensures Eval(e, env) ==
        Dot(EvalVec(coeffs + [OrZero(r.coeff)], env), VarVals(vars + [v], env)) + Eval(OrZero(r.base), env)
    {
      VisitSound(base, v, env);
      assert EvalVec(coeffs + [OrZero(r.coeff)], env) == EvalVec(coeffs, env) + [Eval(OrZero(r.coeff), env)];
      assert VarVals(vars + [v], env) == VarVals(vars, env) + [Lookup(env, v)];
      DotAppend(EvalVec(coeffs, env), VarVals(vars, env), Eval(OrZero(r.coeff), env), Lookup(env, v));
    }
  }

  /** e uses none of vars[lo..hi]. */
  predicate Avoids(e: Expr, vars: seq<VarName>, lo: nat, hi: nat)
    requires lo <= hi <= |vars|
  {
    forall j :: lo <= j < hi ==> !Uses(e, vars[j])
  }

  /** Every variable of e is one of f. */
  ghost predicate Within(e: Expr, f: Expr) {
    forall u :: Uses(e, u) ==> Uses(f, u)
  }

  lemma {:induction false} PartsWithin(base: Expr, v: VarName)
    requires Visit(base, v).Some?
    ensures var r := Visit(base, v).value;
      && Within(OrZero(r.base), base) && Within(OrZero(r.coeff), base)
      && !Uses(OrZero(r.base), v) && !Uses(OrZero(r.coeff), v)
  {
    VisitSound(base, v, map[]);
    var r := Visit(base, v).value;
    forall u | !Uses(base, u)
      ensures !Uses(OrZero(r.base), u) && !Uses(OrZero(r.coeff), u)
    {
      VisitWithin(base, v, u);
    }
  }

  // ----- what is always recognized -----

  ghost predicate FreeOf(e: Expr, vars: seq<VarName>) {
    forall u :: u in vars ==> !Uses(e, u)
  }

  /** Sums, differences and products by factors free of the variables, of single variables and terms free of them. */
  ghost predicate Linear(e: Expr, vars: seq<VarName>) {
    match e
    case Add(a, b) => Linear(a, vars) && Linear(b, vars)
    case Sub(a, b) => Linear(a, vars) && Linear(b, vars)
    case Mul(a, b) => Linear(a, vars) && Linear(b, vars) && (FreeOf(a, vars) || FreeOf(b, vars))
    case Var(_) => true
    case _ => FreeOf(e, vars)
  }

  lemma {:induction false} FreeIsLinear(e: Expr, vars: seq<VarName>)
    requires FreeOf(e, vars)
    ensures Linear(e, vars)
  {
    if e.Add? || e.Sub? || e.Mul? {
      FreeIsLinear(e.a, vars);
      FreeIsLinear(e.b, vars);
    }
  }

  /** What does not mention the variable has no coefficient. */
  lemma {:induction false} VisitFree(e: Expr, v: VarName)
    requires !Uses(e, v)
    ensures Visit(e, v).Some? && Visit(e, v).value.coeff.None? && Visit(e, v).value.base.Some?
  {
    if e.Add? || e.Sub? || e.Mul? {
      VisitFree(e.a, v);
      VisitFree(e.b, v);
    }
  }

  /** A part of a linear expression: linear itself, and free of the variables if a coefficient. */
  ghost predicate PartsLinear(r: Entry, vars: seq<VarName>) {
    (r.base.Some? ==> Linear(r.base.value, vars)) && (r.coeff.Some? ==> FreeOf(r.coeff.value, vars))
  }

  lemma {:induction false} SumLinear(a: Expr, b: Expr, vars: seq<VarName>)
    requires Linear(a, vars) && Linear(b, vars)
    ensures Linear(MkAdd(a, b), vars) && Linear(MkSub(a, b), vars) && Linear(MkNeg(a), vars)
  {
  }

  lemma {:induction false} ProductLinear(a: Expr, b: Expr, vars: seq<VarName>)
    requires Linear(a, vars) && Linear(b, vars) && (FreeOf(a, vars) || FreeOf(b, vars))
    ensures Linear(MkMul(a, b), vars) && (FreeOf(a, vars) && FreeOf(b, vars) ==> FreeOf(MkMul(a, b), vars))
  {
  }

  lemma {:induction false} EntriesLinear(x: Entry, y: Entry, vars: seq<VarName>)
    requires PartsLinear(x, vars) && PartsLinear(y, vars)
    ensures PartsLinear(AddEntries(x, y), vars) && PartsLinear(SubEntries(x, y), vars)
  {
    if x.base.Some? && y.base.Some? { SumLinear(x.base.value, y.base.value, vars); }
    if y.base.Some? { SumLinear(y.base.value, y.base.value, vars); }
  }

  /** A product with a factor free of the variables. */
  lemma {:induction false} ScaledLinear(x: Entry, y: Entry, vars: seq<VarName>)
    requires PartsLinear(x, vars) && PartsLinear(y, vars) && x.coeff.None?
    requires x.base.Some? ==> FreeOf(x.base.value, vars)
    ensures PartsLinear(Entry(MulCombine(x.base, y.base), MulCombine(x.base, y.coeff)), vars)
    ensures PartsLinear(Entry(MulCombine(y.base, x.base), MulCombine(y.base, x.coeff)), vars)
  {
    if x.base.Some? {
      FreeIsLinear(x.base.value, vars);
      if y.base.Some? {
        ProductLinear(x.base.value, y.base.value, vars);
        ProductLinear(y.base.value, x.base.value, vars);
      }
      if y.coeff.Some? {
        FreeIsLinear(y.coeff.value, vars);
        ProductLinear(x.base.value, y.coeff.value, vars);
      }
    }
  }

  /** Every linear expression is recognized, with coefficients free of all the variables. */
  lemma {:induction false} VisitLinear(e: Expr, v: VarName, vars: seq<VarName>)
    requires Linear(e, vars) && v in vars
    ensures Visit(e, v).Some? && PartsLinear(Visit(e, v).value, vars)
    decreases e, 1
  {
    match e
    case Add(a, b) =>
      VisitLinear(a, v, vars);
      VisitLinear(b, v, vars);
      EntriesLinear(Visit(a, v).value, Visit(b, v).value, vars);
    case Sub(a, b) =>
      VisitLinear(a, v, vars);
      VisitLinear(b, v, vars);
      EntriesLinear(Visit(a, v).value, Visit(b, v).value, vars);
    case Mul(a, b) => ProductRecognized(e, v, vars);
    case _ =>
  }

  lemma {:induction false} FreeBase(e: Expr, v: VarName, vars: seq<VarName>)
    requires FreeOf(e, vars) && v in vars
    ensures Visit(e, v).Some? && Visit(e, v).value.coeff.None?
    ensures Visit(e, v).value.base.Some? && FreeOf(Visit(e, v).value.base.value, vars)
  {
    VisitFree(e, v);
    forall u | u in vars ensures !Uses(Visit(e, v).value.base.value, u) { VisitWithin(e, v, u); }
  }

  lemma {:induction false} ProductRecognized(e: Expr, v: VarName, vars: seq<VarName>)
    requires e.Mul? && Linear(e, vars) && v in vars
    ensures Visit(e, v).Some? && PartsLinear(Visit(e, v).value, vars)
    decreases e, 0
  {
    VisitLinear(e.a, v, vars);
    VisitLinear(e.b, v, vars);
    var x, y := Visit(e.a, v).value, Visit(e.b, v).value;
    if FreeOf(e.a, vars) {
      FreeBase(e.a, v, vars);
      ScaledLinear(x, y, vars);
    } else {
      FreeBase(e.b, v, vars);
      ScaledLinear(y, x, vars);
    }
  }

  /** Linear with constant coefficients: the variables are multiplied by constants only. */
  ghost predicate Affine(e: Expr, vars: seq<VarName>) {
    || FreeOf(e, vars) || e.Var?
    || ((e.Add? || e.Sub?) && Affine(e.a, vars) && Affine(e.b, vars))
    || (e.Mul? && ((e.a.Const? && Affine(e.b, vars)) || (e.b.Const? && Affine(e.a, vars))))
  }

  lemma {:induction false} AffineIsLinear(e: Expr, vars: seq<VarName>)
    requires Affine(e, vars)
    ensures Linear(e, vars)
  {
    if FreeOf(e, vars) {
      FreeIsLinear(e, vars);
    } else if e.Add? || e.Sub? {
      AffineIsLinear(e.a, vars);
      AffineIsLinear(e.b, vars);
    } else if e.Mul? && e.a.Const? && Affine(e.b, vars) {
      AffineIsLinear(e.b, vars);
    } else if e.Mul? {
      AffineIsLinear(e.a, vars);
    }
  }

  ghost predicate PartsAffine(r: Entry, vars: seq<VarName>) {
    (r.base.Some? ==> Affine(r.base.value, vars)) && (r.coeff.Some? ==> r.coeff.value.Const?)
  }

  lemma {:induction false} SumAffine(a: Expr, b: Expr, vars: seq<VarName>)
    requires Affine(a, vars) && Affine(b, vars)
    ensures Affine(MkAdd(a, b), vars) && Affine(MkSub(a, b), vars) && Affine(MkNeg(a), vars)
    ensures a.Const? || b.Const? ==> Affine(MkMul(a, b), vars)
  {
  }

  /** Such an expression is recognized for each variable, with a constant coefficient. */
  lemma {:induction false} VisitAffine(e: Expr, v: VarName, vars: seq<VarName>)
    requires Affine(e, vars) && v in vars
    ensures Visit(e, v).Some? && PartsAffine(Visit(e, v).value, vars)
  {
    if FreeOf(e, vars) {
      FreeBase(e, v, vars);
    } else if !e.Var? {
      if e.Add? || e.Sub? || !e.a.Const? { VisitAffine(e.a, v, vars); }
      if e.Add? || e.Sub? || e.a.Const? { VisitAffine(e.b, v, vars); }
      PartsCombine(Visit(e.a, v).value, Visit(e.b, v).value, vars);
    }
  }

  lemma {:induction false} PartsCombine(x: Entry, y: Entry, vars: seq<VarName>)
    requires PartsAffine(x, vars) && PartsAffine(y, vars)
    ensures PartsAffine(AddEntries(x, y), vars) && PartsAffine(SubEntries(x, y), vars)
    ensures x.coeff.None? && x.base.Some? && x.base.value.Const? ==>
      MulEntries(x, y).Some? && PartsAffine(MulEntries(x, y).value, vars)
    ensures y.coeff.None? && y.base.Some? && y.base.value.Const? ==>
      MulEntries(x, y).Some? && PartsAffine(MulEntries(x, y).value, vars)
  {
    if x.base.Some? && y.base.Some? {
      SumAffine(x.base.value, y.base.value, vars);
      SumAffine(y.base.value, x.base.value, vars);
    }
    if y.base.Some? { SumAffine(y.base.value, y.base.value, vars); }
  }

  /** What has been split off a linear expression is linear, with constant coefficients if it has such. */
  ghost predicate Kept(e: Expr, vars: seq<VarName>, coeff: seq<Expr>, base: Expr) {
    Linear(e, vars) ==>
      && Linear(base, vars) && (forall l :: 0 <= l < |coeff| ==> FreeOf(coeff[l], vars))
      && (Affine(e, vars) ==> Affine(base, vars) && forall l :: 0 <= l < |coeff| ==> coeff[l].Const?)
  }

  lemma {:induction false} KeptStep(e: Expr, vars: seq<VarName>, coeff: seq<Expr>, base: Expr, v: VarName)
    requires Kept(e, vars, coeff, base) && v in vars
    ensures Linear(e, vars) ==> Visit(base, v).Some?
    ensures Visit(base, v).Some? ==>
      var r := Visit(base, v).value; Kept(e, vars, coeff + [OrZero(r.coeff)], OrZero(r.base))
  {
    if Linear(e, vars) {
      VisitLinear(base, v, vars);
      if Affine(e, vars) { VisitAffine(base, v, vars); }
    }
  }

  /** The first i variables are split off. */
  ghost predicate SplitTo(e: Expr, vars: seq<VarName>, i: nat, coeff: seq<Expr>, base: Expr) {
    && i <= |vars| && |coeff| == i && LinearForm(e, vars[..i], coeff, base) && Within(base, e)
    && Avoids(base, vars, 0, i)
    && (forall l :: 0 <= l < i ==> Within(coeff[l], e) && Avoids(coeff[l], vars, 0, l + 1))
  }

  lemma {:induction false} SplitMore(e: Expr, vars: seq<VarName>, i: nat, coeff: seq<Expr>, base: Expr)
    requires SplitTo(e, vars, i, coeff, base) && i < |vars| && Visit(base, vars[i]).Some?
    ensures var r := Visit(base, vars[i]).value;
      SplitTo(e, vars, i + 1, coeff + [OrZero(r.coeff)], OrZero(r.base))
  {
    LinearStep(e, vars[..i], coeff, base, vars[i]);
    PartsWithin(base, vars[i]);
    assert vars[..i + 1] == vars[..i] + [vars[i]];
  }

  /** Split the variables off one at a time; the base left over is free of those already seen. */
  method SplitOff(e: Expr, vars: seq<VarName>) returns (ok: bool, coeff: seq<Expr>, base: Expr)
    ensures ok ==> |coeff| == |vars| && LinearForm(e, vars, coeff, base)
    ensures ok ==> Within(base, e) && Avoids(base, vars, 0, |vars|)
    ensures ok ==> forall l :: 0 <= l < |vars| ==> Within(coeff[l], e) && Avoids(coeff[l], vars, 0, l + 1)
    ensures (Linear(e, vars) ==> ok) && (ok ==> Kept(e, vars, coeff, base))
  {
    base := e;
    coeff := [];
    assert forall env :: VarVals([], env) == [] && EvalVec([], env) == [];
    for i := 0 to |vars|
      invariant SplitTo(e, vars, i, coeff, base)
      invariant Kept(e, vars, coeff, base)
    {
      KeptStep(e, vars, coeff, base, vars[i]);
      var ret := Visit(base, vars[i]);
      if ret.None? {
        return false, coeff, base;
      }
      SplitMore(e, vars, i, coeff, base);
      coeff := coeff + [OrZero(ret.value.coeff)];
      base := OrZero(ret.value.base);
    }
    assert vars[..|vars|] == vars;
    ok := true;
  }

  /** No coefficient uses a later variable. */
  method FreeOfLater(coeff: seq<Expr>, vars: seq<VarName>) returns (ok: bool)
    requires |coeff| == |vars|
    ensures ok <==> forall l :: 0 <= l < |vars| ==> Avoids(coeff[l], vars, l + 1, |vars|)
  {
    var vset: set<VarName> := {};
    var i := |vars|;
    while i > 1
      invariant 0 <= i <= |vars|
      invariant forall v :: v in vset <==> v in vars[i..]
      invariant forall l :: 0 <= l < |vars| && i - 1 <= l ==> Avoids(coeff[l], vars, l + 1, |vars|)
    {
      assert vars[i - 1..] == [vars[i - 1]] + vars[i..];
      vset := vset + {vars[i - 1]};
      if UsesAny(coeff[i - 2], vset) {
        assert !Avoids(coeff[i - 2], vars, (i - 2) + 1, |vars|);
        return false;
      }
      i := i - 1;
    }
    ok := true;
  }

  /** Coefficients of the variables followed by the remaining base; the empty sequence on failure. */
  method DetectLinearEquation(e: Expr, vars: seq<VarName>) returns (coeffs: seq<Expr>)
    ensures coeffs != [] ==> |coeffs| == |vars| + 1
    ensures coeffs != [] ==> LinearForm(e, vars, coeffs[..|vars|], coeffs[|vars|])
    ensures coeffs != [] ==>
      forall i :: 0 <= i <= |vars| ==> Within(coeffs[i], e) && Avoids(coeffs[i], vars, 0, |vars|)
    ensures Linear(e, vars) ==> coeffs != []
    ensures Affine(e, vars) ==> coeffs != [] && forall l :: 0 <= l < |vars| ==> coeffs[l].Const?
  {
    if Affine(e, vars) { AffineIsLinear(e, vars); }
    var ok, coeff, base := SplitOff(e, vars);
    if !ok {
      return [];
    }
    ok := FreeOfLater(coeff, vars);
    if !ok {
      return [];
    }
    forall l | 0 <= l < |vars|
      ensures Avoids(coeff[l], vars, 0, |vars|)
    {
      assert Avoids(coeff[l], vars, 0, l + 1) && Avoids(coeff[l], vars, l + 1, |vars|);
    }
    coeffs := coeff + [base];
    assert coeffs[..|vars|] == coeff;
  }
}
