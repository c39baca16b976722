// Diagonalization of an integer system  S z = y  by unimodular row and column steps.
// x tracks V^-1 applied to the original unknowns, symbolically; y tracks U applied to
// the original right-hand sides.
module SmithNormalForm {
  import opened Expr
  import opened Matrix
  import I = IntOperator

  datatype System = System(S: Mat, V: Mat, x: seq<Expr>, y: seq<Expr>)

  /** The system before diagonalization: m equations A x0 = y0 in n unknowns. */
  datatype Problem = Problem(m: nat, n: nat, A: Mat, x0: seq<Expr>, y0: seq<Expr>,
                             xVars: iset<VarName>, yVars: iset<VarName>) {
    ghost predicate Valid() {
      IsMat(A, m, n) && |x0| == n && |y0| == m && ExprsOver(x0, xVars) && ExprsOver(y0, yVars)
    }
  }

  /** Every expression mentions only variables of w. */
  ghost predicate ExprsOver(es: seq<Expr>, w: iset<VarName>) {
    forall i, v :: 0 <= i < |es| && Uses(es[i], v) ==> v in w
  }

  predicate Shape(s: System, m: nat, n: nat) {
    IsMat(s.S, m, n) && IsMat(s.V, n, n) && |s.x| == n && |s.y| == m
  }

  // ----- what every step keeps -----

  /** V applied to the tracked V^-1 x gives the original unknowns back. */
  ghost predicate VUndoesX(s: System, pr: Problem)
    requires pr.Valid() && Shape(s, pr.m, pr.n)
  {
    forall env :: MatVec(s.V, EvalVec(s.x, env)) == EvalVec(pr.x0, env)
  }

  /** The tracked V^-1 x applied to V z gives z back. */
  ghost predicate XUndoesV(s: System, pr: Problem)
    requires pr.Valid() && Shape(s, pr.m, pr.n)
  {
    forall z: Vec, env :: |z| == pr.n && EvalVec(pr.x0, env) == MatVec(s.V, z) ==> EvalVec(s.x, env) == z
  }

  /** z solves the current system exactly when V z solves the original one. */
  ghost predicate SameSolutions(s: System, pr: Problem)
    requires pr.Valid() && Shape(s, pr.m, pr.n)
  {
    forall z: Vec, env :: |z| == pr.n ==>
      (MatVec(s.S, z) == EvalVec(s.y, env) <==> MatVec(pr.A, MatVec(s.V, z)) == EvalVec(pr.y0, env))
  }

  ghost predicate Inv(s: System, pr: Problem) {
    && pr.Valid() && Shape(s, pr.m, pr.n)
    && VUndoesX(s, pr) && XUndoesV(s, pr) && SameSolutions(s, pr)
    && ExprsOver(s.x, pr.xVars) && ExprsOver(s.y, pr.yVars)
  }

  function Identity(n: nat): (r: Mat)
    ensures IsMat(r, n, n)
  {
    seq(n, i => seq(n, j => if i == j then 1 else 0))
  }

  lemma {:induction false} IdentityMatVec(n: nat, z: Vec)
    requires |z| == n
    ensures MatVec(Identity(n), z) == z
  {
    forall i | 0 <= i < n
      ensures Dot(Identity(n)[i], z) == z[i]
    {
      DotUnit(Identity(n)[i], z, i);
    }
  }

  /** The untouched system, with V the identity, has the invariant. */
  lemma {:induction false} InvInitially(pr: Problem)
    requires pr.Valid()
    ensures Inv(System(pr.A, Identity(pr.n), pr.x0, pr.y0), pr)
  {
    forall z: Vec | |z| == pr.n
      ensures MatVec(Identity(pr.n), z) == z
    {
      IdentityMatVec(pr.n, z);
    }
  }

  /** The two rows p, q of the system replaced by unimodular combinations. */
  lemma {:induction false} RowStepKeeps(s: System, s': System, pr: Problem, p: nat, q: nat, k: Block, k': Block)
    requires Inv(s, pr) && p < pr.m && q < pr.m && p != q
    requires k.InvertedBy(k')
    requires s' == s.(S := RowOp(s.S, p, q, k), y := s'.y) && |s'.y| == |s.y| && ExprsOver(s'.y, pr.yVars)
    requires forall env :: EvalVec(s'.y, env) == VecOp(EvalVec(s.y, env), p, q, k)
    ensures Inv(s', pr)
  {
    forall z: Vec, env | |z| == pr.n
      ensures MatVec(s'.S, z) == EvalVec(s'.y, env) <==> MatVec(s.S, z) == EvalVec(s.y, env)
    {
      RowOpMatVec(s.S, p, q, k, z);
      VecOpInverse(MatVec(s.S, z), p, q, k, k');
      VecOpInverse(EvalVec(s.y, env), p, q, k, k');
    }
  }

  /** The two columns p, q replaced, with V changed alike and x changed inversely. */
  lemma {:induction false} ColStepKeeps(s: System, s': System, pr: Problem, p: nat, q: nat, k: Block, k': Block)
    requires Inv(s, pr) && p < pr.n && q < pr.n && p != q
    requires k.Transpose().InvertedBy(k') && k'.InvertedBy(k.Transpose())
    requires s' == System(ColOp(s.S, pr.n, p, q, k), ColOp(s.V, pr.n, p, q, k), s'.x, s.y) && |s'.x| == |s.x|
    requires ExprsOver(s'.x, pr.xVars)
    requires forall env :: EvalVec(s'.x, env) == VecOp(EvalVec(s.x, env), p, q, k')
    ensures Inv(s', pr)
  {
    var t := k.Transpose();
    forall env
      ensures MatVec(s'.V, EvalVec(s'.x, env)) == EvalVec(pr.x0, env)
    {
      ColOpMatVec(s.V, pr.n, p, q, k, EvalVec(s'.x, env));
      VecOpInverse(EvalVec(s.x, env), p, q, k', t);
    }
    forall z: Vec, env | |z| == pr.n && EvalVec(pr.x0, env) == MatVec(s'.V, z)
      ensures EvalVec(s'.x, env) == z
    {
      ColOpMatVec(s.V, pr.n, p, q, k, z);
      VecOpInverse(z, p, q, t, k');
      assert EvalVec(s.x, env) == VecOp(z, p, q, t);
    }
    forall z: Vec, env | |z| == pr.n
      ensures MatVec(s'.S, z) == EvalVec(s'.y, env) <==> MatVec(pr.A, MatVec(s'.V, z)) == EvalVec(pr.y0, env)
    {
      ColOpMatVec(s.V, pr.n, p, q, k, z);
      ColOpMatVec(s.S, pr.n, p, q, k, z);
      var w := VecOp(z, p, q, t);
      assert MatVec(s.S, w) == EvalVec(s.y, env) <==> MatVec(pr.A, MatVec(s.V, w)) == EvalVec(pr.y0, env);
    }
  }

  // ----- symbolic right-hand sides -----

  lemma {:induction false} EvalScaled(c: int, e: Expr, env: Env)
    ensures Eval(Mul(Const(c), e), env) == c * Eval(e, env)
    ensures (-c) * Eval(e, env) == -(c * Eval(e, env))
  {
  }

  /** (y[p], y[q]) := (a*y[p] + b*y[q], c*y[p] - d*y[q]). */
  function CombineExprs(y: seq<Expr>, p: nat, q: nat, a: int, b: int, c: int, d: int): (r: seq<Expr>)
    requires p < |y| && q < |y| && p != q
  {
    y[p := Add(Mul(Const(a), y[p]), Mul(Const(b), y[q]))]
     [q := Sub(Mul(Const(c), y[p]), Mul(Const(d), y[q]))]
  }

  lemma {:induction false} CombineExprsSpec(
    y: seq<Expr>, p: nat, q: nat, a: int, b: int, c: int, d: int, w: iset<VarName>)
    requires p < |y| && q < |y| && p != q
    ensures var r := CombineExprs(y, p, q, a, b, c, d);
      && |r| == |y|
      && (forall env :: EvalVec(r, env) == VecOp(EvalVec(y, env), p, q, Block(a, b, c, -d)))
      && (ExprsOver(y, w) ==> ExprsOver(r, w))
  {
    var r := CombineExprs(y, p, q, a, b, c, d);
    forall env
      ensures EvalVec(r, env) == VecOp(EvalVec(y, env), p, q, Block(a, b, c, -d))
    {
      EvalCombination(a, y[p], b, y[q], c, d, env);
    }
    forall i, v | 0 <= i < |r| && Uses(r[i], v) && ExprsOver(y, w)
      ensures v in w
    {
      CombinationUses(a, y[p], b, y[q], c, d, v);
    }
  }

  lemma {:induction false} CombinationUses(a: int, e: Expr, b: int, f: Expr, c: int, d: int, v: VarName)
    ensures Uses(Add(Mul(Const(a), e), Mul(Const(b), f)), v) <==> Uses(e, v) || Uses(f, v)
    ensures Uses(Sub(Mul(Const(c), e), Mul(Const(d), f)), v) <==> Uses(e, v) || Uses(f, v)
  {
    assert Uses(Mul(Const(a), e), v) <==> Uses(e, v);
    assert Uses(Mul(Const(b), f), v) <==> Uses(f, v);
    assert Uses(Mul(Const(c), e), v) <==> Uses(e, v);
    assert Uses(Mul(Const(d), f), v) <==> Uses(f, v);
  }

  lemma {:induction false} EvalCombination(a: int, e: Expr, b: int, f: Expr, c: int, d: int, env: Env)
    ensures Eval(Add(Mul(Const(a), e), Mul(Const(b), f)), env) == a * Eval(e, env) + b * Eval(f, env)
    ensures Eval(Sub(Mul(Const(c), e), Mul(Const(d), f)), env) == c * Eval(e, env) + (-d) * Eval(f, env)
  {
    EvalScaled(a, e, env);
    EvalScaled(b, f, env);
    EvalScaled(c, e, env);
    EvalScaled(d, f, env);
  }

  function SwapExprs(y: seq<Expr>, p: nat, q: nat): (r: seq<Expr>)
    requires p < |y| && q < |y| && p != q
    ensures |r| == |y|
    ensures forall env :: EvalVec(r, env) == VecOp(EvalVec(y, env), p, q, SWAP)
    ensures forall w :: ExprsOver(y, w) ==> ExprsOver(r, w)
  {
    y[p := y[q]][q := y[p]]
  }

  // ----- the element loops -----

  /** Combine rows p and q from column lo on; the columns before lo are zero in both. */
  method CombineRows(S0: Mat, m: nat, n: nat, p: nat, q: nat, lo: nat, a: int, b: int, c: int, d: int) returns (S: Mat)
    requires IsMat(S0, m, n) && p < m && q < m && p != q && lo <= n
    requires forall j :: 0 <= j < lo ==> S0[p][j] == 0 && S0[q][j] == 0
    ensures S == RowOp(S0, p, q, Block(a, b, c, -d))
  {
    S := S0;
    for j := lo to n
      invariant IsMat(S, m, n)
      invariant forall i :: 0 <= i < m && i != p && i != q ==> S[i] == S0[i]
      invariant forall l :: j <= l < n ==> S[p][l] == S0[p][l] && S[q][l] == S0[q][l]
      invariant forall l :: 0 <= l < j ==> S[p][l] == a * S0[p][l] + b * S0[q][l]
      invariant forall l :: 0 <= l < j ==> S[q][l] == c * S0[p][l] + (-d) * S0[q][l]
    {
      var newP := a * S[p][j] + b * S[q][j];
      var newQ := c * S[p][j] - d * S[q][j];
      NegScale(d, S[q][j]);
      S := S[p := S[p][j := newP]];
      S := S[q := S[q][j := newQ]];
    }
    assert S[p] == Comb(a, S0[p], b, S0[q]);
    assert S[q] == Comb(c, S0[p], -d, S0[q]);
  }

  lemma {:induction false} NegScale(d: int, u: int)
    ensures (-d) * u == -(d * u)
  {
  }

  /** Combine columns p and q from row lo on; both are zero in the rows before lo. */
  method CombineCols(S0: Mat, n: nat, p: nat, q: nat, lo: nat, a: int, b: int, c: int, d: int) returns (S: Mat)
    requires IsMat(S0, |S0|, n) && p < n && q < n && p != q && lo <= |S0|
    requires forall i :: 0 <= i < lo ==> S0[i][p] == 0 && S0[i][q] == 0
    ensures S == ColOp(S0, n, p, q, Block(a, b, c, -d))
  {
    S := S0;
    ghost var k := Block(a, b, c, -d);
    forall i | 0 <= i < lo
      ensures VecOp(S0[i], p, q, k) == S0[i]
    {
    }
    for i := lo to |S0|
      invariant IsMat(S, |S0|, n)
      invariant forall l :: i <= l < |S0| ==> S[l] == S0[l]
      invariant forall l :: 0 <= l < i ==> S[l] == VecOp(S0[l], p, q, k)
    {
      var newP := a * S[i][p] + b * S[i][q];
      var newQ := c * S[i][p] - d * S[i][q];
      NegScale(d, S[i][q]);
      S := S[i := S[i][p := newP]];
      S := S[i := S[i][q := newQ]];
    }
  }

  method SwapCols(S0: Mat, n: nat, p: nat, q: nat, lo: nat) returns (S: Mat)
    requires IsMat(S0, |S0|, n) && p < n && q < n && p != q && lo <= |S0|
    requires forall i :: 0 <= i < lo ==> S0[i][p] == 0 && S0[i][q] == 0
    ensures S == ColOp(S0, n, p, q, SWAP)
  {
    S := S0;
    forall i | 0 <= i < lo
      ensures VecOp(S0[i], p, q, SWAP) == S0[i]
    {
    }
    for i := lo to |S0|
      invariant IsMat(S, |S0|, n)
      invariant forall l :: i <= l < |S0| ==> S[l] == S0[l]
      invariant forall l :: 0 <= l < i ==> S[l] == VecOp(S0[l], p, q, SWAP)
    {
      S := S[i := S[i][p := S[i][q]][q := S[i][p]]];
    }
  }

  // ----- pivoting -----

  /** Off-diagonal entries are zero in every row and column before index. */
  predicate PartialDiag(S: Mat, m: nat, n: nat, index: nat)
    requires IsMat(S, m, n)
  {
    forall i, j :: 0 <= i < m && 0 <= j < n && i != j && (i < index || j < index) ==> S[i][j] == 0
  }

  predicate ColumnClear(S: Mat, m: nat, n: nat, index: nat, hi: nat)
    requires IsMat(S, m, n) && index < n && hi <= m
  {
    forall i :: index < i < hi ==> S[i][index] == 0
  }

  predicate RowClear(S: Mat, m: nat, n: nat, index: nat, hi: nat)
    requires IsMat(S, m, n) && index < m && hi <= n
  {
    forall j :: index < j < hi ==> S[index][j] == 0
  }

  /** The row at or below index whose entry in column index is non-zero and least in magnitude. */
  method FindPivotRow(S: Mat, m: nat, n: nat, index: nat) returns (best: nat)
    requires IsMat(S, m, n) && index < m && index < n
    ensures index <= best < m
    ensures S[best][index] == 0 ==> forall i :: index <= i < m ==> S[i][index] == 0
    ensures forall i :: index <= i < m && S[i][index] != 0 ==> I.Abs(S[best][index]) <= I.Abs(S[i][index])
  {
    best := index;
    for i := best to m
      invariant index <= best < m
      invariant S[best][index] == 0 ==> forall l :: index <= l < i ==> S[l][index] == 0
      invariant forall l :: index <= l < i && S[l][index] != 0 ==> I.Abs(S[best][index]) <= I.Abs(S[l][index])
      invariant best < i || best == index
    {
      var sOld, sNew := S[best][index], S[i][index];
      if sNew != 0 {
        if sOld == 0 || I.Abs(sNew) < I.Abs(sOld) {
          best := i;
        }
      }
    }
  }

  /** Rows p and q exchanged, right-hand sides included. */
  method SwapRows(s: System, ghost pr: Problem, p: nat, q: nat) returns (s': System)
    requires Inv(s, pr) && p < pr.m && q < pr.m
    ensures Inv(s', pr)
    ensures s'.S == s.S[p := s.S[q]][q := s.S[p]]
  {
    s' := s.(S := s.S[p := s.S[q]][q := s.S[p]], y := s.y[p := s.y[q]][q := s.y[p]]);
    if p != q {
      assert Comb(0, s.S[p], 1, s.S[q]) == s.S[q];
      assert Comb(1, s.S[p], 0, s.S[q]) == s.S[p];
      assert s'.y == SwapExprs(s.y, p, q);
      RowStepKeeps(s, s', pr, p, q, SWAP, SWAP);
    } else {
      assert s' == s;
    }
  }

  // ----- elimination -----

  /** The coefficients of one gcd step on the pivot and another entry of its row or column. */
  datatype Coeffs = Coeffs(a: int, b: int, mg: int, ng: int) {
    ghost predicate For(pivot: int, other: int) {
      && a * mg + b * ng == 1
      && ng * pivot - mg * other == 0
      && a * pivot + b * other != 0
      && I.Abs(a * pivot + b * other) <= I.Abs(pivot)
    }
  }

  method GcdCoeffs(pivot: int, other: int) returns (k: Coeffs, exact: bool)
    requires pivot != 0
    ensures k.For(pivot, other)
    ensures exact <==> I.Divides(pivot, other)
    ensures exact ==> k.a == 1 && k.b == 0
    ensures !exact ==> I.Abs(k.a * pivot + k.b * other) < I.Abs(pivot)
  {
    var g, a, b;
    I.ModZero(other, pivot);
    exact := I.TruncMod(other, pivot) == 0;
    if !exact {
      g, a, b := I.ExtendedEuclidean(pivot, other);
      ReducingCoeffs(pivot, other);
    } else {
      g, a, b := pivot, 1, 0;
      KeepingCoeffs(pivot, other);
    }
    var mg, ng := I.TruncDiv(pivot, g), I.TruncDiv(other, g);
    k := Coeffs(a, b, mg, ng);
  }

  lemma {:induction false} KeepingCoeffs(pivot: int, other: int)
    requires pivot != 0 && I.Divides(pivot, other)
    ensures Coeffs(1, 0, I.TruncDiv(pivot, pivot), I.TruncDiv(other, pivot)).For(pivot, other)
  {
    I.ExactDiv(pivot, other);
    I.ExactQuotient(pivot, 1);
    assert I.TruncDiv(pivot, pivot) == 1;
  }

  /** When the pivot does not divide the other entry, the step shrinks it to a proper divisor. */
  lemma {:induction false} ReducingCoeffs(pivot: int, other: int)
    requires pivot != 0 && !I.Divides(pivot, other)
    ensures var (g, a, b) := I.ExtGcd(pivot, other);
      && g != 0
      && Coeffs(a, b, I.TruncDiv(pivot, g), I.TruncDiv(other, g)).For(pivot, other)
      && I.Abs(a * pivot + b * other) < I.Abs(pivot)
  {
    var (g, a, b) := I.ExtGcd(pivot, other);
    assert a * pivot + b * other == g by { I.Bezout(pivot, other); }
    assert g != 0 && I.Abs(g) < I.Abs(pivot) by {
      I.Bezout(pivot, other);
      ProperDivisor(g, pivot, other);
    }
    I.BezoutUnimodular(pivot, other);
    CrossCancel(g, I.TruncDiv(pivot, g), I.TruncDiv(other, g), pivot, other);
  }

  lemma {:induction false} CrossCancel(g: int, mg: int, ng: int, pivot: int, other: int)
    requires pivot == g * mg && other == g * ng
    ensures ng * pivot - mg * other == 0
  {
    assert ng * (g * mg) == mg * (g * ng);
  }

  lemma {:induction false} ProperDivisor(g: int, pivot: int, other: int)
    requires pivot != 0 && I.Divides(g, pivot) && I.Divides(g, other) && !I.Divides(pivot, other)
    ensures g != 0 && I.Abs(g) < I.Abs(pivot)
  {
    var u :| pivot == g * u;
    I.MulAtLeast(u, g);
    if I.Abs(g) == I.Abs(pivot) {
      I.DividesAbs(g, other);
      I.DividesAbs(pivot, other);
    }
  }

  /** The block of a gcd step and the one that undoes it. */
  lemma {:induction false} CoeffsInvert(k: Coeffs)
    requires k.a * k.mg + k.b * k.ng == 1
    ensures Block(k.a, k.b, k.ng, -k.mg).InvertedBy(Block(k.mg, k.b, k.ng, -k.a))
    ensures Block(k.a, k.b, k.ng, -k.mg).Transpose().InvertedBy(Block(k.mg, k.ng, k.b, -k.a))
    ensures Block(k.mg, k.ng, k.b, -k.a).InvertedBy(Block(k.a, k.b, k.ng, -k.mg).Transpose())
  {
    NegScale(k.mg, k.b);
    NegScale(k.a, k.ng);
    NegScale(k.mg, k.ng);
    NegScale(k.a, k.b);
    assert (-k.a) * (-k.mg) == k.a * k.mg;
  }

  lemma {:induction false} RowGcdStepKeeps(s: System, s': System, pr: Problem, p: nat, q: nat, k: Coeffs)
    requires Inv(s, pr) && p < pr.m && q < pr.m && p != q
    requires k.a * k.mg + k.b * k.ng == 1
    requires s' == s.(S := RowOp(s.S, p, q, Block(k.a, k.b, k.ng, -k.mg)),
                      y := CombineExprs(s.y, p, q, k.a, k.b, k.ng, k.mg))
    ensures Inv(s', pr)
  {
    CoeffsInvert(k);
    CombineExprsSpec(s.y, p, q, k.a, k.b, k.ng, k.mg, pr.yVars);
    RowStepKeeps(s, s', pr, p, q, Block(k.a, k.b, k.ng, -k.mg), Block(k.mg, k.b, k.ng, -k.a));
  }

  lemma {:induction false} ColGcdStepKeeps(s: System, s': System, pr: Problem, p: nat, q: nat, k: Coeffs)
    requires Inv(s, pr) && p < pr.n && q < pr.n && p != q
    requires k.a * k.mg + k.b * k.ng == 1
    requires var b := Block(k.a, k.b, k.ng, -k.mg);
      s' == System(ColOp(s.S, pr.n, p, q, b), ColOp(s.V, pr.n, p, q, b),
                   CombineExprs(s.x, p, q, k.mg, k.ng, k.b, k.a), s.y)
    ensures Inv(s', pr)
  {
    CoeffsInvert(k);
    CombineExprsSpec(s.x, p, q, k.mg, k.ng, k.b, k.a, pr.xVars);
    ColStepKeeps(s, s', pr, p, q, Block(k.a, k.b, k.ng, -k.mg), Block(k.mg, k.ng, k.b, -k.a));
  }

  /** Zero column index below the pivot by combining rows. */
  method ClearColumn(s0: System, ghost pr: Problem, m: nat, n: nat, index: nat) returns (s: System)
    requires Inv(s0, pr) && pr.m == m && pr.n == n && index < m && index < n
    requires PartialDiag(s0.S, m, n, index) && s0.S[index][index] != 0
    ensures Inv(s, pr) && PartialDiag(s.S, m, n, index) && ColumnClear(s.S, m, n, index, m)
    ensures s.S[index][index] != 0 && I.Abs(s.S[index][index]) <= I.Abs(s0.S[index][index])
  {
    s := s0;
    for i := index + 1 to m
      invariant Inv(s, pr) && PartialDiag(s.S, m, n, index) && ColumnClear(s.S, m, n, index, i)
      invariant s.S[index][index] != 0 && I.Abs(s.S[index][index]) <= I.Abs(s0.S[index][index])
    {
      if s.S[i][index] != 0 {
        s := RowElimination(s, pr, m, n, index, i);
      }
    }
  }

  method RowElimination(s: System, ghost pr: Problem, m: nat, n: nat, index: nat, i: nat) returns (s': System)
    requires Inv(s, pr) && pr.m == m && pr.n == n && index < n && index < i < m
    requires PartialDiag(s.S, m, n, index) && s.S[index][index] != 0
    ensures Inv(s', pr) && PartialDiag(s'.S, m, n, index)
    ensures s'.S[index][index] != 0 && I.Abs(s'.S[index][index]) <= I.Abs(s.S[index][index])
    ensures s'.S[i][index] == 0
    ensures forall l :: 0 <= l < m && l != index && l != i ==> s'.S[l] == s.S[l]
  {
    var k, exact := GcdCoeffs(s.S[index][index], s.S[i][index]);
    var S' := CombineRows(s.S, m, n, index, i, index, k.a, k.b, k.ng, k.mg);
    s' := s.(S := S', y := CombineExprs(s.y, index, i, k.a, k.b, k.ng, k.mg));
    RowGcdStepKeeps(s, s', pr, index, i, k);
    NegScale(k.mg, s.S[i][index]);
  }

  /** Zero row index right of the pivot by combining columns; says whether column index may be disturbed. */
  method ClearRow(s0: System, ghost pr: Problem, m: nat, n: nat, index: nat) returns (s: System, changed: bool)
    requires Inv(s0, pr) && pr.m == m && pr.n == n && index < m && index < n
    requires PartialDiag(s0.S, m, n, index) && ColumnClear(s0.S, m, n, index, m) && s0.S[index][index] != 0
    ensures Inv(s, pr) && PartialDiag(s.S, m, n, index) && RowClear(s.S, m, n, index, n)
    ensures s.S[index][index] != 0
    ensures changed ==> I.Abs(s.S[index][index]) < I.Abs(s0.S[index][index])
    ensures !changed ==> ColumnClear(s.S, m, n, index, m)
  {
    s := s0;
    changed := false;
    for j := index + 1 to n
      invariant Inv(s, pr) && PartialDiag(s.S, m, n, index) && RowClear(s.S, m, n, index, j)
      invariant s.S[index][index] != 0
      invariant I.Abs(s.S[index][index]) <= I.Abs(s0.S[index][index])
      invariant changed ==> I.Abs(s.S[index][index]) < I.Abs(s0.S[index][index])
      invariant !changed ==> ColumnClear(s.S, m, n, index, m)
    {
      if s.S[index][j] != 0 {
        var exact;
        s, exact := ColElimination(s, pr, m, n, index, j);
        if !exact { changed := true; }
      }
    }
  }

  method ColElimination(
    s: System, ghost pr: Problem, m: nat, n: nat, index: nat, j: nat) returns (s': System, exact: bool)
    requires Inv(s, pr) && pr.m == m && pr.n == n && index < m && index < j < n
    requires PartialDiag(s.S, m, n, index) && s.S[index][index] != 0
    ensures Inv(s', pr) && PartialDiag(s'.S, m, n, index)
    ensures s'.S[index][index] != 0 && I.Abs(s'.S[index][index]) <= I.Abs(s.S[index][index])
    ensures s'.S[index][j] == 0
    ensures !exact ==> I.Abs(s'.S[index][index]) < I.Abs(s.S[index][index])
    ensures forall l :: 0 <= l < n && l != index && l != j ==> s'.S[index][l] == s.S[index][l]
    ensures exact ==> forall i :: 0 <= i < m ==> s'.S[i][index] == s.S[i][index]
  {
    var k;
    k, exact := GcdCoeffs(s.S[index][index], s.S[index][j]);
    var S' := CombineCols(s.S, n, index, j, index, k.a, k.b, k.ng, k.mg);
    var V' := CombineCols(s.V, n, index, j, 0, k.a, k.b, k.ng, k.mg);
    s' := System(S', V', CombineExprs(s.x, index, j, k.mg, k.ng, k.b, k.a), s.y);
    ColGcdStepKeeps(s, s', pr, index, j, k);
    NegScale(k.mg, s.S[index][j]);
    ColOpKeepsDiag(s.S, m, n, index, j, Block(k.a, k.b, k.ng, -k.mg));
  }

  lemma {:induction false} ColOpKeepsDiag(S: Mat, m: nat, n: nat, index: nat, j: nat, k: Block)
    requires IsMat(S, m, n) && PartialDiag(S, m, n, index) && index < j < n
    ensures PartialDiag(ColOp(S, n, index, j, k), m, n, index)
  {
  }

  /** Bring a non-zero entry to the diagonal, if row or column index has one. */
  method Pivot(s0: System, ghost pr: Problem, m: nat, n: nat, index: nat) returns (s: System)
    requires Inv(s0, pr) && pr.m == m && pr.n == n && index < m && index < n
    requires PartialDiag(s0.S, m, n, index)
    ensures Inv(s, pr) && PartialDiag(s.S, m, n, index)
    ensures s.S[index][index] == 0 ==> PartialDiag(s.S, m, n, index + 1)
    ensures s0.S[index][index] != 0 ==>
      s.S[index][index] != 0 && I.Abs(s.S[index][index]) <= I.Abs(s0.S[index][index])
  {
    var best := FindPivotRow(s0.S, m, n, index);
    s := SwapRows(s0, pr, index, best);
    if s.S[index][index] == 0 {
      s := PivotFromRow(s, pr, m, n, index);
    }
  }

  /** Exchange columns to bring the first non-zero entry of row index, if any, to the diagonal. */
  method PivotFromRow(s0: System, ghost pr: Problem, m: nat, n: nat, index: nat) returns (s: System)
    requires Inv(s0, pr) && pr.m == m && pr.n == n && index < m && index < n
    requires PartialDiag(s0.S, m, n, index) && s0.S[index][index] == 0 && ColumnClear(s0.S, m, n, index, m)
    ensures Inv(s, pr) && PartialDiag(s.S, m, n, index)
    ensures s.S[index][index] == 0 ==> PartialDiag(s.S, m, n, index + 1)
  {
    s := s0;
    for j := index + 1 to n
      invariant RowClear(s0.S, m, n, index, j)
    {
      if s0.S[index][j] != 0 {
        var S' := SwapCols(s0.S, n, index, j, index);
        var V' := SwapCols(s0.V, n, index, j, 0);
        s := System(S', V', SwapExprs(s0.x, index, j), s0.y);
        ColStepKeeps(s0, s, pr, index, j, SWAP, SWAP);
        ColOpKeepsDiag(s0.S, m, n, index, j, SWAP);
        return;
      }
    }
  }

  // ----- the whole diagonalization -----

  predicate Diagonal(S: Mat, m: nat, n: nat)
    requires IsMat(S, m, n)
  {
    forall i, j :: 0 <= i < m && 0 <= j < n && i != j ==> S[i][j] == 0
  }

  method SmithNormalFormDiag(s0: System, ghost pr: Problem) returns (s: System)
    requires Inv(s0, pr)
    ensures Inv(s, pr) && Diagonal(s.S, pr.m, pr.n)
  {
    s := s0;
    if |s.S| == 0 || |s.V| == 0 {
      return;
    }
    var m, n := |s.S|, |s.S[0]|;
    var limit := if m < n then m else n;
    var index := 0;
    ghost var redo := false;
    while index < limit
      invariant Inv(s, pr) && index <= limit && PartialDiag(s.S, m, n, index)
      invariant redo ==> index < limit && s.S[index][index] != 0
      decreases limit - index, !redo, if redo then I.Abs(s.S[index][index]) else 0
    {
      s := Pivot(s, pr, m, n, index);
      if s.S[index][index] == 0 {
        index := index + 1;
        redo := false;
        continue;
      }
      s := ClearColumn(s, pr, m, n, index);
      var changed;
      s, changed := ClearRow(s, pr, m, n, index);
      if changed {
        index := index - 1;
      }
      redo := changed;
      index := index + 1;
    }
  }
}
