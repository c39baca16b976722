// A range bound that mentions an unknown: a run of the solver whose result has a solution with no way back.
module LinearBounds {
  import opened Expr
  import opened Matrix
  import opened DetectLinear
  import opened SmithNormalForm
  import opened LinearProblem
  import opened LinearSolver
  import I = IntOperator

  /** An analyzer that leaves everything as it is. */
  const PLAIN: Analyzer := Analyzer(
    (rs: Ranges, e: Expr) => e, (rs: Ranges, c: Cond) => c, (rs: Ranges, vs: seq<VarName>, e: Expr) => None)

  /** x == 1, with y in [0, x). */
  const PROBLEM: Constraints := Constraints(
    ["x", "y"], map["y" := Range(Const(0), Var("x"))], [EQ(Var("x"), Const(1))])

  const NAMES: seq<VarName> := ["m", "n"]

  lemma {:induction false} PlainSound(an: Analyzer)
    requires an == PLAIN
    ensures Sound(an) && BringsNothing(an)
  {
  }

  lemma {:induction false} BoundsOfProblem(c: Constraints, u: VarName)
    requires c == PROBLEM
    ensures BoundsUse(c.ranges, u) <==> u == "x"
  {
    if u == "x" { assert RangeUses(c.ranges["y"], u); }
  }

  lemma {:induction false} ProblemWellFormed(c: Constraints, names: seq<VarName>)
    requires c == PROBLEM && names == NAMES
    ensures WellFormed(c, names)
  {
    forall u | u in names ensures !Occurs(c, u) {
      BoundsOfProblem(c, u);
      assert u == "m" || u == "n";
      assert !UsesCond(c.relations[0], u);
    }
  }

  // ----- the run -----

  const ROWS: Mat := [[1, 0]]

  function Sols(): seq<Expr> {
    [FDiv(Const(1), Const(1)), Var("n")]
  }

  function OldToNew(sols: seq<Expr>): Subst
    requires |sols| == 2
  {
    map["x" := SumExpr([1, 0], sols, 2), "y" := SumExpr([0, 1], sols, 2)]
  }

  function RangeRels(m: Subst): seq<Cond>
    requires "y" in m
  {
    [LE(Const(0), m["y"]), LT(m["y"], MkAdd(Const(0), Var("x")))]
  }

  function ResultOf(m: Subst): Transform
    requires "y" in m
  {
    Transform(Constraints(["n"], map[], RangeRels(m)), m, map["n" := Var("y")])
  }

  lemma {:induction false} ConstFits(c: Constraints, rows: Mat, rhs: seq<Expr>, x: seq<Expr>)
    requires c == PROBLEM && rows == ROWS && rhs == [Const(1)] && x == [Var("x"), Var("y")]
    ensures IsMat(rows, |rhs|, |c.vars|) && |x| == |c.vars| && forall i :: 0 <= i < |x| ==> x[i] == Var(c.vars[i])
    ensures forall i :: 0 <= i < |rhs| ==> FromProblem(c, rhs[i])
  {
    assert forall u :: !Uses(rhs[0], u);
  }

  ghost function PlainProblem(c: Constraints, rows: Mat, rhs: seq<Expr>, x: seq<Expr>): Problem
    requires c == PROBLEM && rows == ROWS && rhs == [Const(1)] && x == [Var("x"), Var("y")]
  {
    ConstFits(c, rows, rhs, x);
    MakeProblem(c, rows, rhs, x)
  }

  ghost function PlainRun(): Run {
    var x: seq<Expr>, rhs := [Var("x"), Var("y")], [Const(1)];
    var m := OldToNew(Sols());
    Run(PLAIN, PROBLEM, NAMES, ROWS, rhs, [], PlainProblem(PROBLEM, ROWS, rhs, x), System(ROWS, Identity(2), x, rhs),
        Sols(), [], RangeRels(m), ResultOf(m))
  }

  lemma {:induction false} DotTwo(u: Vec, v: Vec)
    requires |u| == |v| == 2
    ensures Dot(u, v) == u[0] * v[0] + u[1] * v[1]
  {
    assert u[1..] == [u[1]] && v[1..] == [v[1]];
    assert Dot(u[1..], v[1..]) == u[1] * v[1] + Dot(u[1..][1..], v[1..][1..]);
  }

  /** The matrix row says what the relation says. */
  lemma {:induction false} ProblemSystem(c: Constraints, rows: Mat, rhs: seq<Expr>)
    requires c == PROBLEM && rows == ROWS && rhs == [Const(1)]
    ensures SystemOf(c.ranges, c.vars, c.relations, rows, rhs, [])
  {
    forall env | InRanges(c.ranges, env)
      ensures AllHold(c.relations, env) <==> MatVec(rows, VarVals(c.vars, env)) == EvalVec(rhs, env) && AllHold([], env)
    {
      var z := VarVals(c.vars, env);
      DotTwo(rows[0], z);
      assert z[0] == Lookup(env, "x");
      assert AllHold(c.relations, env) <==> Holds(c.relations[0], env);
      assert Holds(c.relations[0], env) <==> z[0] == 1;
      assert MatVec(rows, z)[0] == z[0] && EvalVec(rhs, env)[0] == 1;
    }
  }

  /** A system that is diagonal from the start. */
  lemma {:induction false} AlreadyDiagonal(
    an: Analyzer, c: Constraints, names: seq<VarName>, rows: Mat, rhs: seq<Expr>, x: seq<Expr>)
    requires Sound(an) && WellFormed(c, names) && SystemOf(c.ranges, c.vars, c.relations, rows, rhs, [])
    requires x == seq(|c.vars|, i requires 0 <= i < |c.vars| => Var(c.vars[i]))
    requires Diagonal(rows, |rhs|, |c.vars|) && forall i :: 0 <= i < |rhs| ==> FromProblem(c, rhs[i])
    ensures var s := System(rows, Identity(|c.vars|), x, rhs);
      Diagonalized(an, c, names, rows, rhs, [], MakeProblem(c, rows, rhs, x), s)
  {
    InvInitially(MakeProblem(c, rows, rhs, x));
  }

  lemma {:induction false} UnknownsOf(c: Constraints, x: seq<Expr>)
    requires c == PROBLEM && x == [Var("x"), Var("y")]
    ensures x == seq(|c.vars|, i requires 0 <= i < |c.vars| => Var(c.vars[i]))
  {
  }

  lemma {:induction false} RunDiagonal(r: Run, x: seq<Expr>)
    requires r.an == PLAIN && r.c == PROBLEM && r.newNames == NAMES && r.rows == ROWS && r.rhs == [Const(1)]
    requires r.rest == []
    requires x == [Var("x"), Var("y")]
    requires r.pr == PlainProblem(r.c, r.rows, r.rhs, x) && r.s == System(r.rows, Identity(2), x, r.rhs)
    ensures FromDiagonal(r)
  {
    PlainSound(r.an);
    ProblemWellFormed(r.c, r.newNames);
    ProblemSystem(r.c, r.rows, r.rhs);
    UnknownsOf(r.c, x);
    ConstFits(r.c, r.rows, r.rhs, x);
    assert |r.c.vars| == 2;
    AlreadyDiagonal(r.an, r.c, r.newNames, r.rows, r.rhs, x);
  }

  lemma {:induction false} IdentityTwo()
    ensures Identity(2) == [[1, 0], [0, 1]]
  {
    assert Identity(2)[0] == [1, 0] && Identity(2)[1] == [0, 1];
  }

  lemma {:induction false} RowHolds(s: System, env: Env)
    requires Shape(s, 1, 2) && s.S[0][0] == 1 && s.y[0] == Const(1)
    ensures Holds(SolvCond(s, 1, 2, 0), env)
  {
    assert SolvCond(s, 1, 2, 0) == EQ(FMod(Const(1), Const(1)), Const(0));
    I.FloorUnique(1, 1, 1, 0);
    assert Eval(FMod(Const(1), Const(1)), env) == FModVal(1, 1);
  }

  lemma {:induction false} RunConditions(r: Run)
    requires Shape(r.s, r.pr.m, r.pr.n) && r.pr.m == 1 && r.pr.n == 2 && r.s.S[0][0] == 1 && r.s.y[0] == Const(1)
    requires r.an == PLAIN && r.rels == []
    ensures CondsAssembled(r)
  {
    forall env ensures Holds(SolvCond(r.s, 1, 2, 0), env) { RowHolds(r.s, env); }
  }

  /** The first coordinate is determined, the second free. */
  lemma {:induction false} Coordinates(an: Analyzer, c: Constraints, s: System, names: seq<VarName>)
    requires an == PLAIN && names == NAMES && Shape(s, 1, 2) && s.S == ROWS && s.y == [Const(1)]
    ensures !Free(s, 1, 2, 0) && Free(s, 1, 2, 1)
    ensures SolExpr(an, c.ranges, s, 1, 2, names, 0) == Sols()[0]
    ensures SolExpr(an, c.ranges, s, 1, 2, names, 1) == Sols()[1]
  {
  }

  lemma {:induction false} RunCoordinates(r: Run)
    requires Shape(r.s, r.pr.m, r.pr.n) && r.pr.m == 1 && r.pr.n == 2 && r.s.S == ROWS && r.s.y == [Const(1)]
    requires r.an == PLAIN && r.newNames == NAMES && r.sols == Sols() && r.s.x[1] == Var("y")
    requires r.t.solution.vars == ["n"] && r.t.newToOld == map["n" := Var("y")]
    ensures CoordsAssembled(r)
  {
    Coordinates(r.an, r.c, r.s, r.newNames);
    assert r.newNames[0] !in r.t.newToOld && r.newNames[1] in r.t.newToOld;
  }

  lemma {:induction false} RunUnknowns(r: Run)
    requires Shape(r.s, r.pr.m, r.pr.n) && r.pr.m == 1 && r.pr.n == 2 && r.s.V == Identity(2)
    requires r.an == PLAIN && r.c == PROBLEM && r.sols == Sols() && r.t.oldToNew == OldToNew(r.sols)
    ensures UnknownsAssembled(r)
  {
    IdentityTwo();
    assert r.c.vars[0] == "x" && r.c.vars[1] == "y";
  }

  lemma {:induction false} RangeRelsMean(c: Constraints, m: Subst, rels: seq<Cond>, env: Env)
    requires c == PROBLEM && "x" in m && "y" in m && rels == RangeRels(m)
    ensures AllHold(rels, env) <==> OldInRange(c, m, env, 2)
  {
    assert AllHold(rels, env) <==> Holds(rels[0], env) && Holds(rels[1], env);
    assert c.vars[0] == "x" && c.vars[1] == "y" && "y" in c.ranges && "x" !in c.ranges;
    assert OldInRange(c, m, env, 2) <==> InRange(c.ranges["y"], Eval(m["y"], env), env);
  }

  lemma {:induction false} RunRelations(r: Run)
    requires r.c == PROBLEM && "x" in r.t.oldToNew && "y" in r.t.oldToNew && r.rangeRels == RangeRels(r.t.oldToNew)
    requires r.rels == [] && r.rest == [] && r.t.solution.relations == r.rangeRels
    ensures RelationsAssembled(r)
  {
    forall env ensures AllHold(r.rangeRels, env) <==> OldInRange(r.c, r.t.oldToNew, env, |r.c.vars|) {
      RangeRelsMean(r.c, r.t.oldToNew, r.rangeRels, env);
    }
    assert r.rels + r.rangeRels + SubstAll(r.rest, r.t.oldToNew) == r.rangeRels;
  }

  lemma {:induction false} RunAssembled(r: Run)
    requires r == PlainRun()
    ensures Assembled(r)
  {
    RunDiagonal(r, [Var("x"), Var("y")]);
    RunConditions(r);
    RunCoordinates(r);
    RunUnknowns(r);
    RunRelations(r);
  }

  lemma {:induction false} SumTwo(row: Vec, sols: seq<Expr>, env: Env)
    requires |row| == |sols| == 2
    ensures Eval(SumExpr(row, sols, 2), env) == row[0] * Eval(sols[0], env) + row[1] * Eval(sols[1], env)
  {
    SumExprEval(row, sols, 2, env);
    var z := EvalVec(sols, env);
    assert row[..2] == row && z[..2] == z;
    DotTwo(row, z);
  }

  /** At the solution the unknowns go to x = 1 and y = 50. */
  lemma {:induction false} BackAt(m: Subst, env: Env)
    requires m == OldToNew(Sols()) && env == map["x" := 100, "n" := 50]
    ensures Eval(m["x"], env) == 1 && Eval(m["y"], env) == 50
  {
    var sols := Sols();
    I.FloorUnique(1, 1, 1, 0);
    assert Eval(sols[0], env) == FDivVal(1, 1) && Eval(sols[1], env) == Lookup(env, "n");
    SumTwo([1, 0], sols, env);
    SumTwo([0, 1], sols, env);
  }

  lemma {:induction false} SolutionHolds(t: Transform, env: Env)
    requires t == ResultOf(OldToNew(Sols())) && env == map["x" := 100, "n" := 50]
    ensures Satisfies(t.solution, env)
  {
    BackAt(t.oldToNew, env);
    var rels := t.solution.relations;
    assert Lookup(env, "x") == 100 && Eval(Var("x"), env) == 100;
    assert Holds(rels[0], env) && Holds(rels[1], env);
  }

  lemma {:induction false} BoundLost(c: Constraints, m: Subst, env: Env)
    requires c == PROBLEM && m == OldToNew(Sols()) && env == map["x" := 100, "n" := 50]
    ensures !BoundsKept(c, Apply(env, m))
  {
    BackAt(m, env);
    var old' := Apply(env, m);
    assert Lookup(old', "x") == 1 && Lookup(old', "y") == 50;
    assert !InRange(c.ranges["y"], 50, old');
    assert "x" in c.vars && RangeUses(c.ranges["y"], "x");
  }

  /**
   * Where it fails: for x == 1 with y in [0, x) the solver emits 0 <= n < x for y, which holds at x = 100, n = 50;
   * there the old unknowns are x = 1 and y = 50, out of range.
   */
  lemma {:induction false} BoundOverUnknownFails(r: Run, env: Env)
    requires r == PlainRun() && env == map["x" := 100, "n" := 50]
    ensures Assembled(r) && BringsNothing(r.an) && Satisfies(r.t.solution, env) && !BackThenForward(r.c, r.t, env)
  {
    RunAssembled(r);
    PlainSound(r.an);
    SolutionHolds(r.t, env);
    BoundLost(r.c, r.t.oldToNew, env);
    BackwardIff(r, env);
  }
}
