// Solving a system of linear equations over the integers: the solutions of the given
// constraints are put in one-to-one correspondence with those of constraints over new variables.
module LinearSolver {
  import opened Expr
  import opened Matrix
  import opened DetectLinear
  import opened SmithNormalForm
  import opened LinearProblem
  import I = IntOperator

  // ----- solutions of a diagonal system -----

  /** Coordinate j is not determined by the diagonal system. */
  predicate Free(s: System, m: nat, n: nat, j: nat)
    requires Shape(s, m, n) && j < n
  {
    j >= m || s.S[j][j] == 0
  }

  /** Row j of the diagonal system can be met. */
  function SolvCond(s: System, m: nat, n: nat, j: nat): Cond
    requires Shape(s, m, n) && j < m
  {
    if j >= n || s.S[j][j] == 0 then EQ(s.y[j], Const(0))
    else EQ(FMod(s.y[j], Const(I.Abs(s.S[j][j]))), Const(0))
  }

  /** The exact quotient, by floor division with a positive divisor. */
  function SolVal(d: int, y: int): int
    requires d != 0
  {
    if d >= 0 then I.FloorDiv(y, d) else I.FloorDiv(-y, -d)
  }

  predicate RowMet(S: Mat, m: nat, n: nat, z: Vec, y: Vec, j: nat)
    requires IsMat(S, m, n) && |z| == n && |y| == m && j < m
  {
    if j < n then S[j][j] * z[j] == y[j] else y[j] == 0
  }

  lemma {:induction false} DiagonalRows(S: Mat, m: nat, n: nat, z: Vec, y: Vec)
    requires IsMat(S, m, n) && Diagonal(S, m, n) && |z| == n && |y| == m
    ensures MatVec(S, z) == y <==> forall j :: 0 <= j < m ==> RowMet(S, m, n, z, y, j)
  {
    forall j | 0 <= j < m
      ensures MatVec(S, z)[j] == y[j] <==> RowMet(S, m, n, z, y, j)
    {
      if j < n { DotUnit(S[j], z, j); } else { DotZero(S[j], z); }
    }
  }

  /** A diagonal row is met exactly when its condition holds and a determined coordinate has the quotient's value. */
  lemma {:induction false} RowSolved(s: System, m: nat, n: nat, z: Vec, env: Env, j: nat)
    requires Shape(s, m, n) && |z| == n && j < m
    ensures RowMet(s.S, m, n, z, EvalVec(s.y, env), j) <==>
      Holds(SolvCond(s, m, n, j), env)
      && (j < n && s.S[j][j] != 0 ==> z[j] == SolVal(s.S[j][j], Eval(s.y[j], env)))
  {
    if j < n && s.S[j][j] != 0 {
      var d, y := s.S[j][j], Eval(s.y[j], env);
      QuotientExact(d, y, z[j]);
      assert Holds(SolvCond(s, m, n, j), env) <==> FModVal(y, I.Abs(d)) == 0 by {
        assert Eval(FMod(s.y[j], Const(I.Abs(d))), env) == FModVal(y, I.Abs(d));
      }
    }
  }

  lemma {:induction false} QuotientExact(d: int, y: int, z: int)
    requires d != 0
    ensures d * z == y <==> I.FloorMod(y, I.Abs(d)) == 0 && z == SolVal(d, y)
  {
    var a, w := I.Abs(d), if d >= 0 then y else -y;
    assert d * z == y <==> a * z == w;
    I.FloorDivMod(w, a);
    I.ModZero(w, a);
    I.ModZero(y, a);
    I.DividesAbs(a, y);
    I.DividesAbs(a, w);
    if a * z == w { I.ExactQuotient(a, z); }
    if I.FloorMod(y, a) == 0 { assert w == I.FloorDiv(w, a) * a; }
  }

  // ----- the expressions of the solution -----

  /** V^-1 x at coordinate j: a new variable when free, otherwise the quotient. */
  function SolExpr(an: Analyzer, rs: Ranges, s: System, m: nat, n: nat, newNames: seq<VarName>, j: nat): Expr
    requires Shape(s, m, n) && |newNames| == n && j < n
  {
    if Free(s, m, n, j) then Var(newNames[j])
    else if s.S[j][j] >= 0 then an.simplify(rs, FDiv(s.y[j], Const(s.S[j][j])))
    else an.simplify(rs, FDiv(MkNeg(s.y[j]), Const(-s.S[j][j])))
  }

  /** The sum of row[l] * sols[l] over l < k. */
  function SumExpr(row: Vec, sols: seq<Expr>, k: nat): Expr
    requires |row| == |sols| && k <= |row|
  {
    if k == 0 then Const(0) else MkAdd(SumExpr(row, sols, k - 1), MkMul(Const(row[k - 1]), sols[k - 1]))
  }

  lemma {:induction false} SumExprEval(row: Vec, sols: seq<Expr>, k: nat, env: Env)
    requires |row| == |sols| && k <= |row|
    ensures Eval(SumExpr(row, sols, k), env) == Dot(row[..k], EvalVec(sols, env)[..k])
  {
    if k > 0 {
      SumExprEval(row, sols, k - 1, env);
      var z := EvalVec(sols, env);
      assert row[..k] == row[..k - 1] + [row[k - 1]] && z[..k] == z[..k - 1] + [z[k - 1]];
      DotAppend(row[..k - 1], z[..k - 1], row[k - 1], z[k - 1]);
    }
  }

  lemma {:induction false} SumExprUses(row: Vec, sols: seq<Expr>, k: nat, u: VarName)
    requires |row| == |sols| && k <= |row| && Uses(SumExpr(row, sols, k), u)
    ensures exists j :: 0 <= j < k && Uses(sols[j], u)
  {
    if k > 0 {
      if Uses(SumExpr(row, sols, k - 1), u) {
        SumExprUses(row, sols, k - 1, u);
      } else {
        assert Uses(MkMul(Const(row[k - 1]), sols[k - 1]), u);
        assert Uses(sols[k - 1], u);
      }
    }
  }

  // ----- assembling the transform -----

  /** r is the condition of a row, simplified. */
  ghost predicate FromRow(an: Analyzer, rs: Ranges, s: System, m: nat, n: nat, r: Cond)
    requires Shape(s, m, n)
  {
    exists j :: 0 <= j < m && r == an.simplifyCond(rs, SolvCond(s, m, n, j))
  }

  method Conditions(an: Analyzer, rs: Ranges, s: System, m: nat, n: nat) returns (solvable: bool, rels: seq<Cond>)
    requires Shape(s, m, n)
    ensures solvable <==> forall j :: 0 <= j < m ==> an.simplifyCond(rs, SolvCond(s, m, n, j)) != Bool(false)
    ensures forall r :: r in rels ==> r != Bool(true) && r != Bool(false) && FromRow(an, rs, s, m, n, r)
    ensures solvable ==> forall env :: AllHold(rels, env) <==>
      forall j :: 0 <= j < m ==> Holds(an.simplifyCond(rs, SolvCond(s, m, n, j)), env)
  {
    rels := [];
    for k := 0 to m
      invariant forall j :: 0 <= j < k ==> an.simplifyCond(rs, SolvCond(s, m, n, j)) != Bool(false)
      invariant forall r :: r in rels ==> r != Bool(true) && r != Bool(false) && FromRow(an, rs, s, m, n, r)
      invariant forall env :: AllHold(rels, env) <==>
        forall j :: 0 <= j < k ==> Holds(an.simplifyCond(rs, SolvCond(s, m, n, j)), env)
    {
      var r := an.simplifyCond(rs, SolvCond(s, m, n, k));
      if r == Bool(false) {
        return false, [];
      } else if r != Bool(true) {
        forall env ensures AllHold(rels + [r], env) <==> AllHold(rels, env) && Holds(r, env) {
          AllHoldAppend(rels, r, env);
        }
        rels := rels + [r];
      }
    }
    solvable := true;
  }

  method Parametrize(an: Analyzer, rs: Ranges, s: System, m: nat, n: nat, newNames: seq<VarName>)
    returns (sols: seq<Expr>, newVars: seq<VarName>, newToOld: Subst)
    requires Shape(s, m, n) && |newNames| == n
    requires forall i, j :: 0 <= i < j < n ==> newNames[i] != newNames[j]
    ensures |sols| == n && forall j :: 0 <= j < n ==> sols[j] == SolExpr(an, rs, s, m, n, newNames, j)
    ensures forall v :: v in newVars <==> v in newToOld
    ensures forall v :: v in newToOld ==> v in newNames
    ensures forall j :: 0 <= j < n ==> (newNames[j] in newToOld <==> Free(s, m, n, j))
    ensures forall j :: 0 <= j < n && Free(s, m, n, j) ==> newToOld[newNames[j]] == an.simplify(rs, s.x[j])
  {
    sols, newVars, newToOld := [], [], map[];
    for k := 0 to n
      invariant |sols| == k && forall j :: 0 <= j < k ==> sols[j] == SolExpr(an, rs, s, m, n, newNames, j)
      invariant forall v :: v in newVars <==> v in newToOld
      invariant forall v :: v in newToOld ==> v in newNames
      invariant forall j :: 0 <= j < n ==> (newNames[j] in newToOld <==> j < k && Free(s, m, n, j))
      invariant forall j :: 0 <= j < k && Free(s, m, n, j) ==> newToOld[newNames[j]] == an.simplify(rs, s.x[j])
    {
      if k >= |s.S| || s.S[k][k] == 0 {
        var toOld := an.simplify(rs, s.x[k]);
        var v := newNames[k];
        sols := sols + [Var(v)];
        newVars := newVars + [v];
        newToOld := newToOld[v := toOld];
      } else if s.S[k][k] >= 0 {
        sols := sols + [an.simplify(rs, FDiv(s.y[k], Const(s.S[k][k])))];
      } else {
        sols := sols + [an.simplify(rs, FDiv(MkNeg(s.y[k]), Const(-s.S[k][k])))];
      }
    }
  }

  method Combination(row: Vec, sols: seq<Expr>) returns (e: Expr)
    requires |row| == |sols|
    ensures e == SumExpr(row, sols, |row|)
  {
    e := Const(0);
    for j := 0 to |row|
      invariant e == SumExpr(row, sols, j)
    {
      e := MkAdd(e, MkMul(Const(row[j]), sols[j]));
    }
  }

  method BackSubstitute(an: Analyzer, rs: Ranges, vars: seq<VarName>, V: Mat, sols: seq<Expr>) returns (oldToNew: Subst)
    requires IsMat(V, |vars|, |vars|) && |sols| == |vars|
    requires forall i, j :: 0 <= i < j < |vars| ==> vars[i] != vars[j]
    ensures forall v :: v in oldToNew <==> v in vars
    ensures forall i :: 0 <= i < |vars| ==> oldToNew[vars[i]] == an.simplify(rs, SumExpr(V[i], sols, |vars|))
  {
    oldToNew := map[];
    for i := 0 to |vars|
      invariant forall v :: v in oldToNew ==> v in vars
      invariant forall l :: 0 <= l < i ==> vars[l] in oldToNew
      invariant forall l :: 0 <= l < i ==> oldToNew[vars[l]] == an.simplify(rs, SumExpr(V[l], sols, |vars|))
    {
      var e := Combination(V[i], sols);
      oldToNew := oldToNew[vars[i] := an.simplify(rs, e)];
    }
  }

  /** Ranges of the outer variables are kept; a new variable gets a range covering its definition. */
  method NewRanges(an: Analyzer, c: Constraints, newVars: seq<VarName>, newToOld: Subst) returns (nr: Ranges)
    requires forall v :: v in newVars ==> v in newToOld && v !in c.ranges
    ensures forall v :: v in c.ranges && v !in c.vars ==> v in nr && nr[v] == c.ranges[v]
    ensures forall v :: v in nr ==>
      (v in c.ranges && v !in c.vars) || (v in newToOld && an.cover(c.ranges, c.vars, newToOld[v]) == Some(nr[v]))
    ensures forall v :: v in newVars && an.cover(c.ranges, c.vars, newToOld[v]).Some? ==> v in nr
  {
    nr := map v | v in c.ranges && v !in c.vars :: c.ranges[v];
    for i := 0 to |newVars|
      invariant forall v :: v in c.ranges && v !in c.vars ==> v in nr && nr[v] == c.ranges[v]
      invariant forall v :: v in nr ==>
        (v in c.ranges && v !in c.vars) || (v in newToOld && an.cover(c.ranges, c.vars, newToOld[v]) == Some(nr[v]))
      invariant forall j :: 0 <= j < i && an.cover(c.ranges, c.vars, newToOld[newVars[j]]).Some? ==> newVars[j] in nr
    {
      var range := an.cover(c.ranges, c.vars, newToOld[newVars[i]]);
      if range.Some? {
        nr := nr[newVars[i] := range.value];
      }
    }
  }

  /** The old unknowns, expressed in the new ones, stay within the first k unknowns' ranges. */
  ghost predicate OldInRange(c: Constraints, oldToNew: Subst, env: Env, k: nat)
    requires k <= |c.vars| && forall v :: v in c.vars ==> v in oldToNew
  {
    forall i :: 0 <= i < k && c.vars[i] in c.ranges ==>
      InRange(c.ranges[c.vars[i]], Eval(oldToNew[c.vars[i]], env), env)
  }

  method RangeRelations(an: Analyzer, c: Constraints, nr: Ranges, oldToNew: Subst) returns (rels: seq<Cond>)
    requires SimplifyCondSound(an) && forall v :: v in c.vars ==> v in oldToNew
    ensures forall env :: InRanges(nr, env) ==> (AllHold(rels, env) <==> OldInRange(c, oldToNew, env, |c.vars|))
    ensures rels != [] ==> exists v :: v in c.vars && v in c.ranges
    ensures forall r :: r in rels ==> r != Bool(true)
  {
    rels := [];
    for i := 0 to |c.vars|
      invariant forall env :: InRanges(nr, env) ==> (AllHold(rels, env) <==> OldInRange(c, oldToNew, env, i))
      invariant rels != [] ==> exists v :: v in c.vars && v in c.ranges
      invariant forall r :: r in rels ==> r != Bool(true)
    {
      var v := c.vars[i];
      if v in c.ranges {
        var r, e := c.ranges[v], oldToNew[v];
        var lower := an.simplifyCond(nr, LE(r.min, e));
        var upper := an.simplifyCond(nr, LT(e, MkAdd(r.min, r.extent)));
        var rels' := rels;
        if lower != Bool(true) { rels' := rels' + [lower]; }
        if upper != Bool(true) { rels' := rels' + [upper]; }
        forall env | InRanges(nr, env)
          ensures AllHold(rels', env) <==> AllHold(rels, env) && InRange(r, Eval(e, env), env)
        {
          PushTwo(rels, lower, upper, env);
          assert Holds(lower, env) == Holds(LE(r.min, e), env);
          assert Holds(upper, env) == Holds(LT(e, MkAdd(r.min, r.extent)), env);
        }
        rels := rels';
      }
    }
  }

  function PushUnlessTrue(cs: seq<Cond>, r: Cond): seq<Cond> {
    if r != Bool(true) then cs + [r] else cs
  }

  lemma {:induction false} PushTwo(cs: seq<Cond>, p: Cond, q: Cond, env: Env)
    ensures AllHold(PushUnlessTrue(PushUnlessTrue(cs, p), q), env) <==>
      AllHold(cs, env) && Holds(p, env) && Holds(q, env)
  {
    AllHoldAppend(cs, p, env);
    AllHoldAppend(PushUnlessTrue(cs, p), q, env);
  }

  // ----- the correspondence -----

  /** Each solution of the problem goes through newToOld to a solution of the transformed
      constraints, and oldToNew brings every unknown's value back. */
  ghost predicate ForwardThenBack(c: Constraints, t: Transform, env: Env) {
    Satisfies(c, env) ==>
      var env' := Apply(env, t.newToOld);
      && Satisfies(t.solution, env')
      && forall v :: v in c.vars ==> v in t.oldToNew && Eval(t.oldToNew[v], env') == Lookup(env, v)
  }

  /** Each solution of the transformed constraints goes through oldToNew to a solution of the
      problem, and newToOld brings every new variable's value back. */
  ghost predicate BackThenForward(c: Constraints, t: Transform, env: Env) {
    Satisfies(t.solution, env) ==>
      var env' := Apply(env, t.oldToNew);
      && Satisfies(c, env')
      && forall v :: v in t.solution.vars ==> v in t.newToOld && Eval(t.newToOld[v], env') == Lookup(env, v)
  }

  /** The intermediate results of one run of the solver. */
  datatype Run = Run(an: Analyzer, c: Constraints, newNames: seq<VarName>, rows: Mat, rhs: seq<Expr>, rest: seq<Cond>,
                     pr: Problem, s: System, sols: seq<Expr>, rels: seq<Cond>, rangeRels: seq<Cond>, t: Transform)

  /** The diagonalized system and the problem it came from. */
  ghost predicate Diagonalized(an: Analyzer, c: Constraints, newNames: seq<VarName>, rows: Mat, rhs: seq<Expr>,
                               rest: seq<Cond>, pr: Problem, s: System) {
    && Sound(an) && WellFormed(c, newNames)
    && SystemOf(c.ranges, c.vars, c.relations, rows, rhs, rest)
    && (forall r :: r in rest ==> r in c.relations)
    && pr.m == |rhs| && pr.n == |c.vars| && pr.A == rows && pr.y0 == rhs
    && pr.x0 == seq(|c.vars|, i requires 0 <= i < |c.vars| => Var(c.vars[i]))
    && Inv(s, pr) && Diagonal(s.S, pr.m, pr.n)
    && (forall u :: u in pr.xVars ==> u in c.vars)
    && (forall u :: u in pr.yVars ==> Occurs(c, u) && u !in c.vars)
  }

  ghost predicate FromDiagonal(r: Run) {
    Diagonalized(r.an, r.c, r.newNames, r.rows, r.rhs, r.rest, r.pr, r.s)
  }

  /** The solvability relations say that every row condition holds. */
  ghost predicate CondsAssembled(r: Run)
    requires Shape(r.s, r.pr.m, r.pr.n)
  {
    forall env :: AllHold(r.rels, env) <==>
      forall j :: 0 <= j < r.pr.m ==> Holds(r.an.simplifyCond(r.c.ranges, SolvCond(r.s, r.pr.m, r.pr.n, j)), env)
  }

  /** The coordinates' expressions, the new variables and their definitions. */
  ghost predicate CoordsAssembled(r: Run)
    requires Shape(r.s, r.pr.m, r.pr.n) && |r.newNames| == r.pr.n
  {
    && |r.sols| == r.pr.n
    && (forall j :: 0 <= j < r.pr.n ==> r.sols[j] == SolExpr(r.an, r.c.ranges, r.s, r.pr.m, r.pr.n, r.newNames, j))
    && (forall v :: v in r.t.solution.vars <==> v in r.t.newToOld)
    && (forall v :: v in r.t.newToOld ==> v in r.newNames)
    && (forall j :: 0 <= j < r.pr.n ==> (r.newNames[j] in r.t.newToOld <==> Free(r.s, r.pr.m, r.pr.n, j)))
    && (forall j :: 0 <= j < r.pr.n && Free(r.s, r.pr.m, r.pr.n, j) ==>
          r.t.newToOld[r.newNames[j]] == r.an.simplify(r.c.ranges, r.s.x[j]))
  }

  /** The old unknowns expressed in the new variables. */
  ghost predicate UnknownsAssembled(r: Run)
    requires Shape(r.s, r.pr.m, r.pr.n) && |r.sols| == |r.c.vars| == r.pr.n
  {
    && (forall v :: v in r.t.oldToNew <==> v in r.c.vars)
    && (forall i :: 0 <= i < r.pr.n ==>
          r.t.oldToNew[r.c.vars[i]] == r.an.simplify(r.c.ranges, SumExpr(r.s.V[i], r.sols, r.pr.n)))
  }

  ghost predicate RangesAssembled(r: Run) {
    && (forall v :: v in r.c.ranges && v !in r.c.vars ==>
          v in r.t.solution.ranges && r.t.solution.ranges[v] == r.c.ranges[v])
    && (forall v :: v in r.t.solution.ranges ==>
          (v in r.c.ranges && v !in r.c.vars)
          || (v in r.t.newToOld && r.an.cover(r.c.ranges, r.c.vars, r.t.newToOld[v]) == Some(r.t.solution.ranges[v])))
  }

  function SubstAll(cs: seq<Cond>, m: Subst): (r: seq<Cond>)
    ensures |r| == |cs| && forall i :: 0 <= i < |cs| ==> r[i] == SubstCond(cs[i], m)
  {
    seq(|cs|, i requires 0 <= i < |cs| => SubstCond(cs[i], m))
  }

  ghost predicate RelationsAssembled(r: Run)
    requires forall v :: v in r.c.vars ==> v in r.t.oldToNew
  {
    && (forall env :: InRanges(r.t.solution.ranges, env) ==>
          (AllHold(r.rangeRels, env) <==> OldInRange(r.c, r.t.oldToNew, env, |r.c.vars|)))
    && r.t.solution.relations ==
         r.rels + r.rangeRels + SubstAll(r.rest, r.t.oldToNew)
  }

  ghost predicate Assembled(r: Run) {
    && FromDiagonal(r) && CondsAssembled(r) && CoordsAssembled(r) && UnknownsAssembled(r)
    && RangesAssembled(r) && RelationsAssembled(r)
  }

  lemma {:induction false} RelationsSplit(r: Run, env: Env)
    requires Assembled(r)
    ensures AllHold(r.t.solution.relations, env) <==>
      AllHold(r.rels, env) && AllHold(r.rangeRels, env) && AllHold(r.rest, Apply(env, r.t.oldToNew))
  {
    var n := |r.rest|;
    var subst := SubstAll(r.rest, r.t.oldToNew);
    forall i | 0 <= i < n
      ensures Holds(subst[i], env) == Holds(r.rest[i], Apply(env, r.t.oldToNew))
    {
      SubstHolds(r.rest[i], r.t.oldToNew, env);
    }
    AllHoldConcat(r.rels, r.rangeRels, env);
    AllHoldConcat(r.rels + r.rangeRels, subst, env);
  }

  lemma {:induction false} AllHoldConcat(p: seq<Cond>, q: seq<Cond>, env: Env)
    ensures AllHold(p + q, env) <==> AllHold(p, env) && AllHold(q, env)
  {
    if AllHold(p + q, env) {
      assert forall i :: 0 <= i < |p| ==> (p + q)[i] == p[i];
      assert forall i :: 0 <= i < |q| ==> (p + q)[|p| + i] == q[i];
    }
  }

  // Valuations that agree outside some variables give the same meaning to what avoids those variables.

  ghost predicate AgreeOff(vs: seq<VarName>, env: Env, env': Env) {
    forall u :: u !in vs ==> Lookup(env, u) == Lookup(env', u)
  }

  lemma {:induction false} RangesAgree(c: Constraints, vs: seq<VarName>, env: Env, env': Env)
    requires AgreeOff(vs, env, env') && InRanges(c.ranges, env)
    requires forall u :: u in vs ==> u !in c.ranges && !BoundsUse(c.ranges, u)
    ensures InRanges(c.ranges, env')
  {
    forall v | v in c.ranges
      ensures InRange(c.ranges[v], Lookup(env', v), env')
    {
      RangeAgrees(c.ranges[v], env, env', vs);
    }
  }

  lemma {:induction false} RangeAgrees(r: Range, env: Env, env': Env, vs: seq<VarName>)
    requires AgreeOff(vs, env, env') && forall u :: u in vs ==> !RangeUses(r, u)
    ensures Eval(r.min, env) == Eval(r.min, env') && Eval(r.extent, env) == Eval(r.extent, env')
  {
    forall v | Uses(r.min, v) || Uses(r.extent, v)
      ensures Lookup(env, v) == Lookup(env', v)
    {
      assert RangeUses(r, v);
    }
    Coincidence(r.min, env, env');
    Coincidence(r.extent, env, env');
  }

  /** The value of a determined coordinate's expression, wherever the ranges hold. */
  lemma {:induction false} QuotientVal(
    an: Analyzer, rs: Ranges, s: System, m: nat, n: nat, newNames: seq<VarName>, j: nat, env: Env)
    requires SimplifySound(an) && InRanges(rs, env) && Shape(s, m, n) && |newNames| == n && j < n && !Free(s, m, n, j)
    ensures Eval(SolExpr(an, rs, s, m, n, newNames, j), env) == SolVal(s.S[j][j], Eval(s.y[j], env))
  {
    var d := s.S[j][j];
    if d >= 0 {
      assert Eval(FDiv(s.y[j], Const(d)), env) == FDivVal(Eval(s.y[j], env), d);
    } else {
      assert Eval(FDiv(MkNeg(s.y[j]), Const(-d)), env) == FDivVal(-Eval(s.y[j], env), -d);
    }
  }

  lemma {:induction false} RowVal(an: Analyzer, rs: Ranges, row: Vec, sols: seq<Expr>, env: Env)
    requires SimplifySound(an) && InRanges(rs, env) && |row| == |sols|
    ensures Eval(an.simplify(rs, SumExpr(row, sols, |row|)), env) == Dot(row, EvalVec(sols, env))
  {
    SumExprEval(row, sols, |row|, env);
    assert row[..|row|] == row && EvalVec(sols, env)[..|row|] == EvalVec(sols, env);
  }

  lemma {:induction false} YAgrees(pr: Problem, s: System, vs: seq<VarName>, env: Env, env': Env, j: nat)
    requires Inv(s, pr) && j < pr.m && AgreeOff(vs, env, env')
    requires forall u :: u in vs ==> u !in pr.yVars
    ensures Eval(s.y[j], env) == Eval(s.y[j], env')
    ensures Holds(SolvCond(s, pr.m, pr.n, j), env) == Holds(SolvCond(s, pr.m, pr.n, j), env')
  {
    forall v | Uses(s.y[j], v)
      ensures Lookup(env, v) == Lookup(env', v)
    {
    }
    Coincidence(s.y[j], env, env');
    if j < pr.n && s.S[j][j] != 0 {
      var d := I.Abs(s.S[j][j]);
      assert Eval(FMod(s.y[j], Const(d)), env) == Eval(FMod(s.y[j], Const(d)), env');
    }
  }

  // ----- from the problem to the transformed constraints -----

  /** A solution of the problem makes the diagonal system hold at z = V^-1 x. */
  lemma {:induction false} SolutionDiagonal(r: Run, env: Env)
    requires FromDiagonal(r) && Satisfies(r.c, env)
    ensures MatVec(r.s.V, EvalVec(r.s.x, env)) == VarVals(r.c.vars, env)
    ensures AllHold(r.rest, env)
    ensures forall j :: 0 <= j < r.pr.m ==>
      Holds(SolvCond(r.s, r.pr.m, r.pr.n, j), env)
      && (j < r.pr.n && r.s.S[j][j] != 0 ==> Eval(r.s.x[j], env) == SolVal(r.s.S[j][j], Eval(r.s.y[j], env)))
  {
    var s, m, n := r.s, r.pr.m, r.pr.n;
    var z := EvalVec(s.x, env);
    assert EvalVec(r.pr.x0, env) == VarVals(r.c.vars, env);
    assert MatVec(s.V, z) == EvalVec(r.pr.x0, env);
    assert MatVec(s.S, z) == EvalVec(s.y, env);
    DiagonalRows(s.S, m, n, z, EvalVec(s.y, env));
    forall j | 0 <= j < m
      ensures Holds(SolvCond(s, m, n, j), env)
        && (j < n && s.S[j][j] != 0 ==> z[j] == SolVal(s.S[j][j], Eval(s.y[j], env)))
    {
      RowSolved(s, m, n, z, env, j);
      assert RowMet(s.S, m, n, z, EvalVec(s.y, env), j);
    }
  }

  lemma {:induction false} NewValuation(r: Run, env: Env)
    requires FromDiagonal(r) && CoordsAssembled(r) && InRanges(r.c.ranges, env)
    ensures AgreeOff(r.newNames, env, Apply(env, r.t.newToOld))
    ensures InRanges(r.c.ranges, Apply(env, r.t.newToOld))
    ensures forall j :: 0 <= j < r.pr.n && Free(r.s, r.pr.m, r.pr.n, j) ==>
      Lookup(Apply(env, r.t.newToOld), r.newNames[j]) == Eval(r.s.x[j], env)
  {
    RangesAgree(r.c, r.newNames, env, Apply(env, r.t.newToOld));
  }

  lemma {:induction false} NewSols(r: Run, env: Env)
    requires FromDiagonal(r) && CoordsAssembled(r) && Satisfies(r.c, env)
    ensures EvalVec(r.sols, Apply(env, r.t.newToOld)) == EvalVec(r.s.x, env)
  {
    NewValuation(r, env);
    SolutionDiagonal(r, env);
    forall j | 0 <= j < r.pr.n
      ensures Eval(r.sols[j], Apply(env, r.t.newToOld)) == Eval(r.s.x[j], env)
    {
      NewSol(r, env, j);
    }
  }

  lemma {:induction false} NewSol(r: Run, env: Env, j: nat)
    requires FromDiagonal(r) && CoordsAssembled(r) && Satisfies(r.c, env) && j < r.pr.n
    ensures Eval(r.sols[j], Apply(env, r.t.newToOld)) == Eval(r.s.x[j], env)
  {
    NewValuation(r, env);
    if !Free(r.s, r.pr.m, r.pr.n, j) {
      SolutionDiagonal(r, env);
      var env' := Apply(env, r.t.newToOld);
      QuotientVal(r.an, r.c.ranges, r.s, r.pr.m, r.pr.n, r.newNames, j, env');
      YAgrees(r.pr, r.s, r.newNames, env, env', j);
    }
  }

  lemma {:induction false} NewUnknowns(r: Run, env: Env)
    requires FromDiagonal(r) && CoordsAssembled(r) && UnknownsAssembled(r) && Satisfies(r.c, env)
    ensures forall v :: v in r.c.vars ==> Eval(r.t.oldToNew[v], Apply(env, r.t.newToOld)) == Lookup(env, v)
  {
    var env' := Apply(env, r.t.newToOld);
    NewValuation(r, env);
    SolutionDiagonal(r, env);
    NewSols(r, env);
    forall i | 0 <= i < r.pr.n
      ensures Eval(r.t.oldToNew[r.c.vars[i]], env') == Lookup(env, r.c.vars[i])
    {
      RowVal(r.an, r.c.ranges, r.s.V[i], r.sols, env');
      assert MatVec(r.s.V, EvalVec(r.s.x, env))[i] == VarVals(r.c.vars, env)[i];
    }
  }

  lemma {:induction false} NewInRanges(r: Run, env: Env)
    requires FromDiagonal(r) && CoordsAssembled(r) && RangesAssembled(r) && Satisfies(r.c, env)
    ensures InRanges(r.t.solution.ranges, Apply(env, r.t.newToOld))
  {
    var env' := Apply(env, r.t.newToOld);
    NewValuation(r, env);
    forall v | v in r.t.solution.ranges
      ensures InRange(r.t.solution.ranges[v], Lookup(env', v), env')
    {
      if v in r.c.ranges && v !in r.c.vars {
        assert InRange(r.c.ranges[v], Lookup(env', v), env');
      } else {
        NewVarInRange(r, env, v);
      }
    }
  }

  lemma {:induction false} NewVarInRange(r: Run, env: Env, v: VarName)
    requires FromDiagonal(r) && CoordsAssembled(r) && Satisfies(r.c, env)
    requires v in r.t.solution.ranges && v in r.t.newToOld
    requires r.an.cover(r.c.ranges, r.c.vars, r.t.newToOld[v]) == Some(r.t.solution.ranges[v])
    ensures InRange(r.t.solution.ranges[v], Lookup(Apply(env, r.t.newToOld), v), Apply(env, r.t.newToOld))
  {
    NewValuation(r, env);
    var e, range := r.t.newToOld[v], r.t.solution.ranges[v];
    var j :| 0 <= j < r.pr.n && r.newNames[j] == v;
    assert InRange(range, Eval(e, env), env);
    forall u | u in r.newNames
      ensures !RangeUses(range, u)
    {
      assert !Occurs(r.c, u);
      assert !Uses(r.s.x[j], u) && !BoundsUse(r.c.ranges, u);
      assert !Uses(e, u);
    }
    RangeAgrees(range, env, Apply(env, r.t.newToOld), r.newNames);
  }

  lemma {:induction false} NewConditions(r: Run, env: Env)
    requires FromDiagonal(r) && CondsAssembled(r) && CoordsAssembled(r) && Satisfies(r.c, env)
    ensures AllHold(r.rels, Apply(env, r.t.newToOld))
  {
    var env' := Apply(env, r.t.newToOld);
    NewValuation(r, env);
    SolutionDiagonal(r, env);
    forall j | 0 <= j < r.pr.m
      ensures Holds(r.an.simplifyCond(r.c.ranges, SolvCond(r.s, r.pr.m, r.pr.n, j)), env')
    {
      YAgrees(r.pr, r.s, r.newNames, env, env', j);
    }
  }

  lemma {:induction false} NewRangeRelations(r: Run, env: Env)
    requires Assembled(r) && Satisfies(r.c, env)
    ensures AllHold(r.rangeRels, Apply(env, r.t.newToOld))
  {
    var env' := Apply(env, r.t.newToOld);
    NewValuation(r, env);
    NewUnknowns(r, env);
    NewInRanges(r, env);
    forall i | 0 <= i < |r.c.vars| && r.c.vars[i] in r.c.ranges
      ensures InRange(r.c.ranges[r.c.vars[i]], Eval(r.t.oldToNew[r.c.vars[i]], env'), env')
    {
      assert Occurs(r.c, r.c.vars[i]);
      assert InRange(r.c.ranges[r.c.vars[i]], Lookup(env', r.c.vars[i]), env');
    }
  }

  lemma {:induction false} NewRest(r: Run, env: Env)
    requires FromDiagonal(r) && CoordsAssembled(r) && UnknownsAssembled(r) && Satisfies(r.c, env)
    ensures AllHold(r.rest, Apply(Apply(env, r.t.newToOld), r.t.oldToNew))
  {
    NewUnknowns(r, env);
    SolutionDiagonal(r, env);
    var back := Apply(Apply(env, r.t.newToOld), r.t.oldToNew);
    assert AgreeOff(r.newNames, env, back);
    forall i | 0 <= i < |r.rest|
      ensures Holds(r.rest[i], back)
    {
      RelationAgrees(r.c, r.newNames, r.rest[i], env, back);
    }
  }

  lemma {:induction false} RelationAgrees(c: Constraints, vs: seq<VarName>, p: Cond, env: Env, env': Env)
    requires AgreeOff(vs, env, env') && p in c.relations && forall u :: u in vs ==> !Occurs(c, u)
    ensures Holds(p, env) == Holds(p, env')
  {
    forall v | UsesCond(p, v)
      ensures Lookup(env, v) == Lookup(env', v)
    {
      assert Occurs(c, v);
    }
    CoincidenceCond(p, env, env');
  }

  lemma {:induction false} Forward(r: Run, env: Env)
    requires Assembled(r)
    ensures ForwardThenBack(r.c, r.t, env)
  {
    if Satisfies(r.c, env) {
      NewUnknowns(r, env);
      NewInRanges(r, env);
      NewConditions(r, env);
      NewRangeRelations(r, env);
      NewRest(r, env);
      RelationsSplit(r, Apply(env, r.t.newToOld));
    }
  }

  // ----- from the transformed constraints to the problem -----

  /** The simplifications bring no variable of the range bounds into an expression. */
  ghost predicate BringsNothing(an: Analyzer) {
    && (forall rs, e, u :: Uses(an.simplify(rs, e), u) ==> Uses(e, u))
    && (forall rs, c, u :: UsesCond(an.simplifyCond(rs, c), u) ==> UsesCond(c, u))
  }

  /** No unknown gets into what the solver emits for the unknowns. */
  ghost predicate Clear(r: Run) {
    BoundsApart(r.c) || BringsNothing(r.an)
  }

  predicate BoundsMention(c: Constraints, v: VarName)
    requires v in c.ranges
  {
    exists u :: u in c.vars && RangeUses(c.ranges[v], u)
  }

  /** The ranges whose bounds mention an unknown hold. */
  ghost predicate BoundsKept(c: Constraints, env: Env) {
    forall v :: v in c.ranges && BoundsMention(c, v) ==> InRange(c.ranges[v], Lookup(env, v), env)
  }

  lemma {:induction false} OldAgree(r: Run, env: Env)
    requires Assembled(r)
    ensures AgreeOff(r.c.vars, env, Apply(env, r.t.oldToNew))
  {
  }

  /** Back at the old unknowns all ranges hold once those do whose bounds mention an unknown. */
  lemma {:induction false} OldInRanges(r: Run, env: Env)
    requires Assembled(r) && Satisfies(r.t.solution, env) && BoundsKept(r.c, Apply(env, r.t.oldToNew))
    ensures InRanges(r.c.ranges, Apply(env, r.t.oldToNew))
  {
    var old' := Apply(env, r.t.oldToNew);
    RelationsSplit(r, env);
    OldAgree(r, env);
    forall v | v in r.c.ranges
      ensures InRange(r.c.ranges[v], Lookup(old', v), old')
    {
      if !BoundsMention(r.c, v) { OldVarInRange(r, env, v); }
    }
  }

  lemma {:induction false} OldVarInRange(r: Run, env: Env, v: VarName)
    requires Assembled(r) && Satisfies(r.t.solution, env) && AllHold(r.rangeRels, env)
    requires v in r.c.ranges && !BoundsMention(r.c, v)
    requires AgreeOff(r.c.vars, env, Apply(env, r.t.oldToNew))
    ensures InRange(r.c.ranges[v], Lookup(Apply(env, r.t.oldToNew), v), Apply(env, r.t.oldToNew))
  {
    var old' := Apply(env, r.t.oldToNew);
    RangeAgrees(r.c.ranges[v], env, old', r.c.vars);
    if v in r.c.vars {
      var i :| 0 <= i < |r.c.vars| && r.c.vars[i] == v;
      assert OldInRange(r.c, r.t.oldToNew, env, |r.c.vars|);
    } else {
      assert InRange(r.t.solution.ranges[v], Lookup(env, v), env);
    }
  }

  lemma {:induction false} SolAvoids(r: Run, j: nat, u: VarName)
    requires Clear(r) && FromDiagonal(r) && j < r.pr.n && u in r.c.vars
    ensures !Uses(SolExpr(r.an, r.c.ranges, r.s, r.pr.m, r.pr.n, r.newNames, j), u)
  {
    assert Occurs(r.c, u) && u !in r.newNames;
    assert BoundsApart(r.c) ==> !BoundsUse(r.c.ranges, u);
    if Free(r.s, r.pr.m, r.pr.n, j) {
      assert r.newNames[j] in r.newNames;
    } else {
      assert !Uses(r.s.y[j], u);
      var d := r.s.S[j][j];
      assert !Uses(MkNeg(r.s.y[j]), u);
      assert !Uses(FDiv(r.s.y[j], Const(d)), u);
      assert !Uses(FDiv(MkNeg(r.s.y[j]), Const(-d)), u);
    }
  }

  /** The expression for an old unknown uses none of the old unknowns. */
  lemma {:induction false} OldToNewAvoids(r: Run, i: nat, u: VarName)
    requires Clear(r) && FromDiagonal(r) && CoordsAssembled(r) && UnknownsAssembled(r) && i < r.pr.n
    requires u in r.c.vars
    ensures !Uses(r.t.oldToNew[r.c.vars[i]], u)
  {
    forall j | 0 <= j < r.pr.n
      ensures !Uses(r.sols[j], u)
    {
      SolAvoids(r, j, u);
    }
    if Uses(SumExpr(r.s.V[i], r.sols, r.pr.n), u) {
      SumExprUses(r.s.V[i], r.sols, r.pr.n, u);
    }
  }

  lemma {:induction false} OldUnknown(r: Run, env: Env, i: nat)
    requires Clear(r) && Assembled(r) && Satisfies(r.t.solution, env) && i < r.pr.n
    requires InRanges(r.c.ranges, Apply(env, r.t.oldToNew))
    ensures var old' := Apply(env, r.t.oldToNew);
      Lookup(old', r.c.vars[i]) == Dot(r.s.V[i], EvalVec(r.sols, old'))
  {
    var old', e := Apply(env, r.t.oldToNew), r.t.oldToNew[r.c.vars[i]];
    OldAgree(r, env);
    forall v | Uses(e, v)
      ensures Lookup(env, v) == Lookup(old', v)
    {
      if v in r.c.vars { OldToNewAvoids(r, i, v); }
    }
    Coincidence(e, env, old');
    RowVal(r.an, r.c.ranges, r.s.V[i], r.sols, old');
  }

  lemma {:induction false} OldUnknowns(r: Run, env: Env)
    requires Clear(r) && Assembled(r) && Satisfies(r.t.solution, env)
    requires InRanges(r.c.ranges, Apply(env, r.t.oldToNew))
    ensures var old' := Apply(env, r.t.oldToNew);
      && VarVals(r.c.vars, old') == MatVec(r.s.V, EvalVec(r.sols, old'))
      && EvalVec(r.s.x, old') == EvalVec(r.sols, old')
  {
    var old' := Apply(env, r.t.oldToNew);
    forall i | 0 <= i < r.pr.n
      ensures Lookup(old', r.c.vars[i]) == Dot(r.s.V[i], EvalVec(r.sols, old'))
    {
      OldUnknown(r, env, i);
    }
    assert VarVals(r.c.vars, old') == MatVec(r.s.V, EvalVec(r.sols, old'));
    assert EvalVec(r.pr.x0, old') == VarVals(r.c.vars, old');
  }

  lemma {:induction false} OldRow(r: Run, env: Env, j: nat)
    requires Clear(r) && Assembled(r) && Satisfies(r.t.solution, env) && j < r.pr.m
    requires InRanges(r.c.ranges, Apply(env, r.t.oldToNew))
    ensures var old' := Apply(env, r.t.oldToNew);
      RowMet(r.s.S, r.pr.m, r.pr.n, EvalVec(r.sols, old'), EvalVec(r.s.y, old'), j)
  {
    var s, m, n, old' := r.s, r.pr.m, r.pr.n, Apply(env, r.t.oldToNew);
    OldAgree(r, env);
    RelationsSplit(r, env);
    CondTransfers(r, j, env, old');
    if j < n && s.S[j][j] != 0 {
      QuotientVal(r.an, r.c.ranges, s, m, n, r.newNames, j, old');
    }
    RowSolved(s, m, n, EvalVec(r.sols, old'), old', j);
  }

  lemma {:induction false} OldRelations(r: Run, env: Env)
    requires Clear(r) && Assembled(r) && Satisfies(r.t.solution, env)
    requires InRanges(r.c.ranges, Apply(env, r.t.oldToNew))
    ensures AllHold(r.c.relations, Apply(env, r.t.oldToNew))
  {
    var s, m, n, old' := r.s, r.pr.m, r.pr.n, Apply(env, r.t.oldToNew);
    var z := EvalVec(r.sols, old');
    OldUnknowns(r, env);
    RelationsSplit(r, env);
    forall j | 0 <= j < m ensures RowMet(s.S, m, n, z, EvalVec(s.y, old'), j) {
      OldRow(r, env, j);
    }
    DiagonalRows(s.S, m, n, z, EvalVec(s.y, old'));
    assert MatVec(s.S, z) == EvalVec(s.y, old');
    assert MatVec(r.rows, MatVec(s.V, z)) == EvalVec(r.rhs, old');
  }

  lemma {:induction false} CondTransfers(r: Run, j: nat, env: Env, old': Env)
    requires Clear(r) && FromDiagonal(r) && j < r.pr.m && AgreeOff(r.c.vars, env, old')
    requires InRanges(r.c.ranges, old')
    requires Holds(r.an.simplifyCond(r.c.ranges, SolvCond(r.s, r.pr.m, r.pr.n, j)), env)
    ensures Holds(SolvCond(r.s, r.pr.m, r.pr.n, j), old')
  {
    var p := r.an.simplifyCond(r.c.ranges, SolvCond(r.s, r.pr.m, r.pr.n, j));
    forall v | UsesCond(p, v)
      ensures Lookup(env, v) == Lookup(old', v)
    {
      if v in r.c.vars {
        SolvCondUses(r.s, r.pr.m, r.pr.n, j, v);
      }
    }
    CoincidenceCond(p, env, old');
  }

  lemma {:induction false} SolvCondUses(s: System, m: nat, n: nat, j: nat, v: VarName)
    requires Shape(s, m, n) && j < m
    ensures UsesCond(SolvCond(s, m, n, j), v) <==> Uses(s.y[j], v)
  {
    if j < n && s.S[j][j] != 0 {
      var d := I.Abs(s.S[j][j]);
      assert Uses(FMod(s.y[j], Const(d)), v) <==> Uses(s.y[j], v);
    }
  }

  /** The way back from a solution of the transformed constraints at which all ranges of the problem hold. */
  lemma {:induction false} BackFrom(r: Run, env: Env)
    requires Clear(r) && Assembled(r) && Satisfies(r.t.solution, env)
    requires InRanges(r.c.ranges, Apply(env, r.t.oldToNew))
    ensures BackThenForward(r.c, r.t, env)
  {
    var old' := Apply(env, r.t.oldToNew);
    OldAgree(r, env);
    OldUnknowns(r, env);
    OldRelations(r, env);
    forall v | v in r.t.newToOld
      ensures Eval(r.t.newToOld[v], old') == Lookup(env, v)
    {
      var j :| 0 <= j < r.pr.n && r.newNames[j] == v;
      assert !Occurs(r.c, v);
      assert Eval(r.s.x[j], old') == EvalVec(r.s.x, old')[j] == EvalVec(r.sols, old')[j] == Lookup(old', v);
    }
  }

  lemma {:induction false} Backward(r: Run, env: Env)
    requires BoundsApart(r.c) && Assembled(r)
    ensures BackThenForward(r.c, r.t, env)
  {
    if Satisfies(r.t.solution, env) {
      forall v, u | v in r.c.ranges && u in r.c.vars ensures !RangeUses(r.c.ranges[v], u) {
        assert !BoundsUse(r.c.ranges, u);
      }
      OldInRanges(r, env);
      BackFrom(r, env);
    }
  }

  /**
   * The way back from a solution holds exactly when the ranges whose bounds mention an unknown hold with the
   * bounds read at the old unknowns it goes to.
   */
  lemma {:induction false} BackwardIff(r: Run, env: Env)
    requires BringsNothing(r.an) && Assembled(r) && Satisfies(r.t.solution, env)
    ensures BackThenForward(r.c, r.t, env) <==> BoundsKept(r.c, Apply(env, r.t.oldToNew))
  {
    if BoundsKept(r.c, Apply(env, r.t.oldToNew)) {
      OldInRanges(r, env);
      BackFrom(r, env);
    }
  }

  // ----- the solver -----

  /** A row condition that simplifies to false leaves the problem without a solution. */
  lemma {:induction false} NoSolution(r: Run, env: Env)
    requires FromDiagonal(r)
    requires exists j ::
      0 <= j < r.pr.m && r.an.simplifyCond(r.c.ranges, SolvCond(r.s, r.pr.m, r.pr.n, j)) == Bool(false)
    ensures !Satisfies(r.c, env)
  {
    if Satisfies(r.c, env) {
      SolutionDiagonal(r, env);
    }
  }

  // ----- what is solved -----

  /** Where the relations come from: rows, ranges of unknowns, and what is not an equation. */
  ghost predicate Sorted(r: Run)
    requires Shape(r.s, r.pr.m, r.pr.n)
  {
    && (forall q :: q in r.rest ==> q in r.c.relations && !IsEquation(r.an, r.c, q))
    && (r.rangeRels != [] ==> exists v :: v in r.c.vars && v in r.c.ranges)
    && (forall q :: q in r.rels ==>
          q != Bool(true) && q != Bool(false) && FromRow(r.an, r.c.ranges, r.s, r.pr.m, r.pr.n, q))
  }

  /** Every relation is an equation with constant coefficients, and no unknown has a range. */
  ghost predicate AllEquations(an: Analyzer, c: Constraints) {
    && (forall q :: q in c.relations ==> IsEquation(an, c, q))
    && (forall v :: v in c.vars ==> v !in c.ranges)
  }

  lemma {:induction false} SomeLeft(cs: seq<Cond>)
    ensures cs == [] || exists q :: q in cs
  {
    if cs != [] { assert cs[0] in cs; }
  }

  lemma {:induction false} OnlyRows(r: Run)
    requires Assembled(r) && Sorted(r) && AllEquations(r.an, r.c)
    ensures r.t.solution.relations == r.rels
  {
    SomeLeft(r.rest);
  }

  /** Then nothing is left to be asked of the new variables. */
  lemma {:induction false} NothingLeft(r: Run, q: Cond, u: VarName)
    requires Assembled(r) && Sorted(r) && AllEquations(r.an, r.c) && q in r.t.solution.relations && UsesCond(q, u)
    ensures Occurs(r.c, u) && u !in r.newNames
  {
    OnlyRows(r);
    var j :| 0 <= j < r.pr.m && q == r.an.simplifyCond(r.c.ranges, SolvCond(r.s, r.pr.m, r.pr.n, j));
    SolvCondUses(r.s, r.pr.m, r.pr.n, j, u);
  }

  /** A condition without variables is decided. */
  ghost predicate Decides(an: Analyzer) {
    forall rs, q :: ClosedCond(q) ==> an.simplifyCond(rs, q).Bool?
  }

  ghost predicate ClosedCond(q: Cond) {
    forall u :: !UsesCond(q, u)
  }

  /** No variables but the unknowns, and no ranges. */
  ghost predicate Closed(c: Constraints) {
    c.ranges == map[] && forall u :: Occurs(c, u) ==> u in c.vars
  }

  lemma {:induction false} RowDecided(r: Run, j: nat)
    requires Assembled(r) && Closed(r.c) && Decides(r.an) && j < r.pr.m
    ensures r.an.simplifyCond(r.c.ranges, SolvCond(r.s, r.pr.m, r.pr.n, j)).Bool?
  {
    forall u ensures !UsesCond(SolvCond(r.s, r.pr.m, r.pr.n, j), u) {
      SolvCondUses(r.s, r.pr.m, r.pr.n, j, u);
      assert Uses(r.s.y[j], u) ==> u in r.pr.yVars;
    }
    assert ClosedCond(SolvCond(r.s, r.pr.m, r.pr.n, j));
  }

  /** Then the system is solved outright. */
  lemma {:induction false} Outright(r: Run)
    requires Assembled(r) && Sorted(r) && AllEquations(r.an, r.c) && Closed(r.c) && Decides(r.an)
    ensures r.t.solution.relations == []
  {
    OnlyRows(r);
    forall j | 0 <= j < r.pr.m ensures r.an.simplifyCond(r.c.ranges, SolvCond(r.s, r.pr.m, r.pr.n, j)).Bool? {
      RowDecided(r, j);
    }
    SomeLeft(r.rels);
  }

  const UNSOLVABLE := Constraints([], map[], [Bool(false)])

  method Diagonalize(an: Analyzer, c: Constraints, newNames: seq<VarName>)
    returns (s: System, m: nat, rest: seq<Cond>, ghost rows: Mat, ghost rhs: seq<Expr>, ghost pr: Problem)
    requires Sound(an) && WellFormed(c, newNames)
    ensures Diagonalized(an, c, newNames, rows, rhs, rest, pr, s) && pr.m == m
    ensures forall q :: q in rest ==> q in c.relations && !IsEquation(an, c, q)
  {
    var rows', rhs';
    rows', rhs', rest := BuildSystem(an, c);
    m := |rhs'|;
    var n := |c.vars|;
    var x := seq(n, i requires 0 <= i < n => Var(c.vars[i]));
    rows, rhs := rows', rhs';
    pr := MakeProblem(c, rows, rhs, x);
    InvInitially(pr);
    s := SmithNormalFormDiag(System(rows', Identity(n), x, rhs'), pr);
  }

  /** Rewrite the relations that are not linear equations, and add them to the others. */
  method SubstituteRest(relations: seq<Cond>, rest: seq<Cond>, oldToNew: Subst) returns (r: seq<Cond>)
    ensures r == relations + SubstAll(rest, oldToNew)
  {
    r := relations;
    for i := 0 to |rest|
      invariant r == relations + SubstAll(rest[..i], oldToNew)
    {
      r := r + [SubstCond(rest[i], oldToNew)];
    }
    assert rest[..|rest|] == rest;
  }

  lemma {:induction false} ResultAvoids(r: Run)
    requires Clear(r) && Assembled(r)
    ensures forall v, u :: v in r.t.oldToNew && u in r.c.vars ==> !Uses(r.t.oldToNew[v], u)
  {
    forall v, u | v in r.t.oldToNew && u in r.c.vars ensures !Uses(r.t.oldToNew[v], u) {
      var i :| 0 <= i < |r.c.vars| && r.c.vars[i] == v;
      OldToNewAvoids(r, i, u);
    }
  }

  ghost function MakeProblem(c: Constraints, rows: Mat, rhs: seq<Expr>, x: seq<Expr>): (pr: Problem)
    requires IsMat(rows, |rhs|, |c.vars|) && |x| == |c.vars|
    requires forall i :: 0 <= i < |x| ==> x[i] == Var(c.vars[i])
    requires forall i :: 0 <= i < |rhs| ==> FromProblem(c, rhs[i])
    ensures pr.Valid() && pr.m == |rhs| && pr.n == |c.vars| && pr.A == rows && pr.x0 == x && pr.y0 == rhs
    ensures forall u :: u in pr.xVars ==> u in c.vars
    ensures forall u :: u in pr.yVars ==> Occurs(c, u) && u !in c.vars
  {
    var xVars := iset v | v in c.vars;
    var yVars := iset u | Occurs(c, u) && u !in c.vars;
    assert ExprsOver(x, xVars) by {
      assert forall i, u :: 0 <= i < |x| && Uses(x[i], u) ==> u == c.vars[i];
    }
    assert ExprsOver(rhs, yVars) by {
      assert forall i :: 0 <= i < |rhs| ==> FromProblem(c, rhs[i]);
    }
    Problem(|rhs|, |c.vars|, rows, x, rhs, xVars, yVars)
  }

  /**
   * Every solution of the problem goes to one of the transform and comes back; unless a range bound mentions an
   * unknown, the two sets of solutions correspond one to one, and otherwise a solution of the transform has its way
   * back exactly when those bounds are kept.
   */
  method SolveLinearEquations(an: Analyzer, c: Constraints, newNames: seq<VarName>) returns (t: Transform)
    requires Sound(an) && WellFormed(c, newNames)
    ensures forall env :: ForwardThenBack(c, t, env)
    ensures BoundsApart(c) ==> forall env :: BackThenForward(c, t, env)
    ensures BringsNothing(an) ==> forall env :: Satisfies(t.solution, env) ==>
      (BackThenForward(c, t, env) <==> BoundsKept(c, Apply(env, t.oldToNew)))
    ensures forall v :: v in t.solution.vars ==> v in newNames
    ensures BoundsApart(c) || BringsNothing(an) ==>
      forall v, u :: v in t.oldToNew && u in c.vars ==> !Uses(t.oldToNew[v], u)
    ensures AllEquations(an, c) ==>
      forall q, u :: q in t.solution.relations && UsesCond(q, u) ==> u !in newNames
    ensures AllEquations(an, c) && Closed(c) && Decides(an) ==>
      t.solution == UNSOLVABLE || t.solution.relations == []
  {
    var n := |c.vars|;
    var s, m, rest, rows, rhs, pr := Diagonalize(an, c, newNames);
    var solvable, rels := Conditions(an, c.ranges, s, m, n);
    if !solvable {
      t := Transform(UNSOLVABLE, map[], map[]);
      forall env ensures ForwardThenBack(c, t, env) && BackThenForward(c, t, env) {
        NoSolution(Run(an, c, newNames, rows, rhs, rest, pr, s, [], [], [], t), env);
        assert !Holds(UNSOLVABLE.relations[0], env);
      }
      return;
    }
    var sols, newVars, newToOld := Parametrize(an, c.ranges, s, m, n, newNames);
    var oldToNew := BackSubstitute(an, c.ranges, c.vars, s.V, sols);
    assert forall v :: v in newVars ==> !Occurs(c, v);
    var newRanges := NewRanges(an, c, newVars, newToOld);
    var rangeRels := RangeRelations(an, c, newRanges, oldToNew);
    var newRelations := SubstituteRest(rels + rangeRels, rest, oldToNew);
    t := Transform(Constraints(newVars, newRanges, newRelations), oldToNew, newToOld);
    ghost var run := Run(an, c, newNames, rows, rhs, rest, pr, s, sols, rels, rangeRels, t);
    assert Assembled(run);
    forall env ensures ForwardThenBack(c, t, env) { Forward(run, env); }
    if BoundsApart(c) {
      forall env ensures BackThenForward(c, t, env) { Backward(run, env); }
    }
    if BringsNothing(an) {
      forall env | Satisfies(t.solution, env)
        ensures BackThenForward(c, t, env) <==> BoundsKept(c, Apply(env, t.oldToNew))
      {
        BackwardIff(run, env);
      }
    }
    if Clear(run) { ResultAvoids(run); }
    if AllEquations(an, c) {
      forall q, u | q in t.solution.relations && UsesCond(q, u) ensures u !in newNames { NothingLeft(run, q, u); }
      if Closed(c) && Decides(an) { Outright(run); }
    }
  }
}
