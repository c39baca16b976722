// Systems of integer constraints, and how their linear equations become matrix rows.
module LinearProblem {
  import opened Expr
  import opened Matrix
  import opened DetectLinear
  import opened SmithNormalForm
  import I = IntOperator

  /** The half-open interval [min, min + extent). */
  datatype Range = Range(min: Expr, extent: Expr)

  type Ranges = map<VarName, Range>

  datatype Constraints = Constraints(vars: seq<VarName>, ranges: Ranges, relations: seq<Cond>)

  datatype Transform = Transform(solution: Constraints, oldToNew: Subst, newToOld: Subst)

  predicate InRange(r: Range, x: int, env: Env) {
    Eval(r.min, env) <= x < Eval(r.min, env) + Eval(r.extent, env)
  }

  ghost predicate InRanges(rs: Ranges, env: Env) {
    forall v :: v in rs ==> InRange(rs[v], Lookup(env, v), env)
  }

  ghost predicate AllHold(cs: seq<Cond>, env: Env) {
    forall i :: 0 <= i < |cs| ==> Holds(cs[i], env)
  }

  ghost predicate Satisfies(c: Constraints, env: Env) {
    InRanges(c.ranges, env) && AllHold(c.relations, env)
  }

  predicate RangeUses(r: Range, u: VarName) {
    Uses(r.min, u) || Uses(r.extent, u)
  }

  predicate BoundsUse(rs: Ranges, u: VarName) {
    exists v :: v in rs && RangeUses(rs[v], u)
  }

  // ----- the analyzer, as far as the solver relies on it -----

  /** Simplification under ranges, and a range covering an expression's values over those of given variables. */
  datatype Analyzer = Analyzer(
    simplify: (Ranges, Expr) -> Expr,
    simplifyCond: (Ranges, Cond) -> Cond,
    cover: (Ranges, seq<VarName>, Expr) -> Option<Range>)

  ghost predicate SimplifySound(an: Analyzer) {
    && (forall rs, e, env :: InRanges(rs, env) ==> Eval(an.simplify(rs, e), env) == Eval(e, env))
    && (forall rs, e, u :: Uses(an.simplify(rs, e), u) ==> Uses(e, u) || BoundsUse(rs, u))
  }

  ghost predicate SimplifyCondSound(an: Analyzer) {
    && (forall rs, c, env :: InRanges(rs, env) ==> Holds(an.simplifyCond(rs, c), env) == Holds(c, env))
    && (forall rs, c, u :: UsesCond(an.simplifyCond(rs, c), u) ==> UsesCond(c, u) || BoundsUse(rs, u))
  }

  ghost predicate CoverSound(an: Analyzer) {
    forall rs, vars, e :: an.cover(rs, vars, e).Some? ==>
      var r := an.cover(rs, vars, e).value;
      && (forall env :: InRanges(rs, env) ==> InRange(r, Eval(e, env), env))
      && (forall u :: RangeUses(r, u) ==> Uses(e, u) || BoundsUse(rs, u))
  }

  ghost predicate Sound(an: Analyzer) {
    SimplifySound(an) && SimplifyCondSound(an) && CoverSound(an)
  }

  // ----- well-formed problems -----

  ghost predicate Occurs(c: Constraints, u: VarName) {
    || u in c.vars || u in c.ranges || BoundsUse(c.ranges, u)
    || exists i :: 0 <= i < |c.relations| && UsesCond(c.relations[i], u)
  }

  /** No range bound mentions an unknown. */
  predicate BoundsApart(c: Constraints) {
    forall v :: v in c.vars ==> !BoundsUse(c.ranges, v)
  }

  /** Distinct unknowns, and as many names new to the problem. */
  ghost predicate WellFormed(c: Constraints, newNames: seq<VarName>) {
    && (forall i, j :: 0 <= i < j < |c.vars| ==> c.vars[i] != c.vars[j])
    && |newNames| == |c.vars|
    && (forall i, j :: 0 <= i < j < |newNames| ==> newNames[i] != newNames[j])
    && (forall u :: u in newNames ==> !Occurs(c, u))
  }

  // ----- equations as matrix rows -----

  /** The relations amount to the matrix equation together with the rest, for every in-range valuation. */
  ghost predicate SystemOf(ranges: Ranges, vars: seq<VarName>, relations: seq<Cond>,
                           rows: Mat, rhs: seq<Expr>, rest: seq<Cond>) {
    && IsMat(rows, |rhs|, |vars|)
    && forall env :: InRanges(ranges, env) ==>
        (AllHold(relations, env) <==>
         MatVec(rows, VarVals(vars, env)) == EvalVec(rhs, env) && AllHold(rest, env))
  }

  /** Every variable used is one a relation or a range bound uses. */
  ghost predicate FromProblem(c: Constraints, e: Expr) {
    forall u :: Uses(e, u) ==> Occurs(c, u) && u !in c.vars
  }

  /** An equation of unknowns with constant coefficients, once simplified. */
  ghost predicate IsEquation(an: Analyzer, c: Constraints, r: Cond) {
    r.EQ? && c.vars != [] && Affine(an.simplify(c.ranges, MkSub(r.x, r.y)), c.vars)
  }

  method ConstRow(coeffs: seq<Expr>) returns (ok: bool, row: Vec)
    ensures ok <==> forall l :: 0 <= l < |coeffs| ==> coeffs[l].Const?
    ensures ok ==> |row| == |coeffs| && forall l :: 0 <= l < |coeffs| ==> coeffs[l] == Const(row[l])
  {
    ok, row := true, [];
    for j := 0 to |coeffs|
      invariant |row| == j
      invariant forall l :: 0 <= l < j ==> coeffs[l] == Const(row[l])
    {
      if !coeffs[j].Const? {
        return false, [];
      }
      row := row + [coeffs[j].value];
    }
  }

  /** The row holds exactly where the equation does; its right side mentions none of the unknowns. */
  ghost predicate RowOf(c: Constraints, a: Expr, b: Expr, row: Vec, rhs: Expr)
    requires |row| == |c.vars|
  {
    && (forall env :: InRanges(c.ranges, env) ==>
          (Eval(a, env) == Eval(b, env) <==> Dot(row, VarVals(c.vars, env)) == Eval(rhs, env)))
    && forall u :: Uses(rhs, u) ==> (Uses(a, u) || Uses(b, u) || BoundsUse(c.ranges, u)) && u !in c.vars
  }

  lemma {:induction false} RowValue(an: Analyzer, c: Constraints, a: Expr, b: Expr, coeffs: seq<Expr>, row: Vec)
    requires SimplifySound(an) && |coeffs| == |c.vars| + 1 && |row| == |c.vars|
    requires LinearForm(an.simplify(c.ranges, MkSub(a, b)), c.vars, coeffs[..|c.vars|], coeffs[|c.vars|])
    requires forall l :: 0 <= l < |row| ==> coeffs[l] == Const(row[l])
    ensures forall env :: InRanges(c.ranges, env) ==>
      (Eval(a, env) == Eval(b, env) <==> Dot(row, VarVals(c.vars, env)) == Eval(MkNeg(coeffs[|c.vars|]), env))
  {
    forall env | InRanges(c.ranges, env)
      ensures Eval(a, env) == Eval(b, env) <==> Dot(row, VarVals(c.vars, env)) == Eval(MkNeg(coeffs[|c.vars|]), env)
    {
      assert EvalVec(coeffs[..|c.vars|], env) == row;
      assert Eval(an.simplify(c.ranges, MkSub(a, b)), env) == Eval(MkSub(a, b), env);
    }
  }

  lemma {:induction false} RowUses(an: Analyzer, c: Constraints, a: Expr, b: Expr, base: Expr)
    requires SimplifySound(an)
    requires Within(base, an.simplify(c.ranges, MkSub(a, b))) && Avoids(base, c.vars, 0, |c.vars|)
    ensures forall u :: Uses(MkNeg(base), u) ==>
      (Uses(a, u) || Uses(b, u) || BoundsUse(c.ranges, u)) && u !in c.vars
  {
    forall u | Uses(MkNeg(base), u)
      ensures (Uses(a, u) || Uses(b, u) || BoundsUse(c.ranges, u)) && u !in c.vars
    {
      assert Uses(base, u) && Uses(an.simplify(c.ranges, MkSub(a, b)), u);
    }
  }

  lemma {:induction false} RowMeans(an: Analyzer, c: Constraints, a: Expr, b: Expr, coeffs: seq<Expr>, row: Vec)
    requires SimplifySound(an) && |coeffs| == |c.vars| + 1 && |row| == |c.vars|
    requires var diff := an.simplify(c.ranges, MkSub(a, b));
      && LinearForm(diff, c.vars, coeffs[..|c.vars|], coeffs[|c.vars|])
      && Within(coeffs[|c.vars|], diff) && Avoids(coeffs[|c.vars|], c.vars, 0, |c.vars|)
    requires forall l :: 0 <= l < |row| ==> coeffs[l] == Const(row[l])
    ensures RowOf(c, a, b, row, MkNeg(coeffs[|c.vars|]))
  {
    RowValue(an, c, a, b, coeffs, row);
    RowUses(an, c, a, b, coeffs[|c.vars|]);
  }

  method LinearRow(an: Analyzer, c: Constraints, a: Expr, b: Expr) returns (row: Vec, rhs: Expr)
    requires Sound(an)
    ensures row != [] ==> |row| == |c.vars|
    ensures row != [] ==> RowOf(c, a, b, row, rhs)
    ensures IsEquation(an, c, EQ(a, b)) ==> row != []
  {
    var diff := an.simplify(c.ranges, MkSub(a, b));
    var coeffs := DetectLinearEquation(diff, c.vars);
    row, rhs := [], Const(0);
    if coeffs == [] {
      return;
    }
    var n := |c.vars|;
    var ok, values := ConstRow(coeffs[..n]);
    if !ok {
      return;
    }
    row := values;
    rhs := MkNeg(coeffs[n]);
    RowMeans(an, c, a, b, coeffs, row);
  }

  lemma {:induction false} MatVecAppend(A: Mat, row: Vec, z: Vec)
    requires |row| == |z| && forall i :: 0 <= i < |A| ==> |A[i]| == |z|
    ensures MatVec(A + [row], z) == MatVec(A, z) + [Dot(row, z)]
  {
  }

  method BuildSystem(an: Analyzer, c: Constraints) returns (rows: Mat, rhs: seq<Expr>, rest: seq<Cond>)
    requires Sound(an)
    ensures SystemOf(c.ranges, c.vars, c.relations, rows, rhs, rest)
    ensures forall i :: 0 <= i < |rhs| ==> FromProblem(c, rhs[i])
    ensures forall r :: r in rest ==> r in c.relations && !IsEquation(an, c, r)
    ensures |rows| + |rest| == |c.relations|
  {
    rows, rhs, rest := [], [], [];
    for k := 0 to |c.relations|
      invariant SystemOf(c.ranges, c.vars, c.relations[..k], rows, rhs, rest)
      invariant forall i :: 0 <= i < |rhs| ==> FromProblem(c, rhs[i])
      invariant forall r :: r in rest ==> r in c.relations && !IsEquation(an, c, r)
      invariant |rows| + |rest| == k
    {
      var r := c.relations[k];
      assert c.relations[..k + 1] == c.relations[..k] + [r];
      var row, y := [], Const(0);
      if r.EQ? {
        row, y := LinearRow(an, c, r.x, r.y);
      }
      if row != [] {
        AddEquation(c, k, rows, rhs, rest, row, y);
        rows, rhs := rows + [row], rhs + [y];
      } else {
        AddRest(c.ranges, c.vars, c.relations[..k], rows, rhs, rest, r);
        rest := rest + [r];
      }
    }
    assert c.relations[..|c.relations|] == c.relations;
  }

  lemma {:induction false} AllHoldAppend(cs: seq<Cond>, r: Cond, env: Env)
    ensures AllHold(cs + [r], env) <==> AllHold(cs, env) && Holds(r, env)
  {
    if AllHold(cs + [r], env) {
      assert forall i :: 0 <= i < |cs| ==> (cs + [r])[i] == cs[i];
      assert (cs + [r])[|cs|] == r;
    }
  }

  lemma {:induction false} AddRest(ranges: Ranges, vars: seq<VarName>, relations: seq<Cond>,
                                   rows: Mat, rhs: seq<Expr>, rest: seq<Cond>, r: Cond)
    requires SystemOf(ranges, vars, relations, rows, rhs, rest)
    ensures SystemOf(ranges, vars, relations + [r], rows, rhs, rest + [r])
  {
    forall env ensures AllHold(relations + [r], env) <==> AllHold(relations, env) && Holds(r, env)
               ensures AllHold(rest + [r], env) <==> AllHold(rest, env) && Holds(r, env)
    {
      AllHoldAppend(relations, r, env);
      AllHoldAppend(rest, r, env);
    }
  }

  lemma {:induction false} AddEquation(
    c: Constraints, k: nat, rows: Mat, rhs: seq<Expr>, rest: seq<Cond>, row: Vec, y: Expr)
    requires k < |c.relations| && c.relations[k].EQ?
    requires SystemOf(c.ranges, c.vars, c.relations[..k], rows, rhs, rest) && |row| == |c.vars|
    requires forall env :: InRanges(c.ranges, env) ==>
      (Holds(c.relations[k], env) <==> Dot(row, VarVals(c.vars, env)) == Eval(y, env))
    ensures SystemOf(c.ranges, c.vars, c.relations[..k] + [c.relations[k]], rows + [row], rhs + [y], rest)
  {
    forall env | InRanges(c.ranges, env)
      ensures AllHold(c.relations[..k] + [c.relations[k]], env) <==>
        MatVec(rows + [row], VarVals(c.vars, env)) == EvalVec(rhs + [y], env) && AllHold(rest, env)
    {
      var z := VarVals(c.vars, env);
      AllHoldAppend(c.relations[..k], c.relations[k], env);
      MatVecAppend(rows, row, z);
      assert EvalVec(rhs + [y], env) == EvalVec(rhs, env) + [Eval(y, env)];
      AppendEq(MatVec(rows, z), Dot(row, z), EvalVec(rhs, env), Eval(y, env));
    }
  }

  lemma {:induction false} AppendEq(u: Vec, a: int, v: Vec, b: int)
    requires |u| == |v|
    ensures u + [a] == v + [b] <==> u == v && a == b
  {
    if u + [a] == v + [b] {
      assert u == (u + [a])[..|u|] && v == (v + [b])[..|v|];
      assert a == (u + [a])[|u|] && b == (v + [b])[|v|];
    }
  }
}
