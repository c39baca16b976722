// Inverting a comparison along the path to a variable: which values of the variable make it true.
module BoundDeducer {
  import opened Expr
  import I = IntOperator

  datatype CompareOp = Greater | Less | Equal

  datatype Sign = Positive | Negative | Zero | Unknown

  /** An integer set as an interval of expressions; a missing end is infinite. */
  datatype IntSet = Nothing | Everything | Interval(min: Option<Expr>, max: Option<Expr>)

  function ReverseOp(op: CompareOp): CompareOp {
    match op
    case Equal => Equal
    case Greater => Less
    case Less => Greater
  }

  predicate Meets(op: CompareOp, x: int, r: int) {
    match op
    case Greater => x >= r
    case Less => x <= r
    case Equal => x == r
  }

  // ----- one step on values -----

  lemma {:induction false} ScaleOrder(x: int, y: int, n: int)
    requires n > 0
    ensures x * n <= y * n <==> x <= y
  {
    assert (y - x) * n == y * n - x * n;
    if x <= y { Product(y - x, n); } else { Product(x - y - 1, n); assert (x - y - 1) * n == x * n - y * n - n; }
  }

  lemma Product(a: int, b: int)
    requires a >= 0 && b >= 0
    ensures a * b >= 0
  {}

  /** x * n >= r, for n > 0, is x at least the quotient, rounded up. */
  lemma {:induction false} MulUp(x: int, n: int, r: int)
    requires n > 0
    ensures x * n >= r <==> x >= if I.FloorMod(r, n) == 0 then I.FloorDiv(r, n) else I.FloorDiv(r, n) + 1
    ensures x * n <= r <==> x <= I.FloorDiv(r, n)
    ensures I.FloorMod(r, n) == 0 ==> (x * n == r <==> x == I.FloorDiv(r, n))
  {
    var q, m := I.FloorDiv(r, n), I.FloorMod(r, n);
    I.FloorDivMod(r, n);
    ScaleOrder(q, x, n);
    ScaleOrder(q + 1, x, n);
    ScaleOrder(x, q, n);
    assert (q + 1) * n == q * n + n;
  }

  lemma {:induction false} FloorNegate(r: int, n: int)
    requires n != 0
    ensures I.FloorDiv(r, n) == I.FloorDiv(-r, -n) && (I.FloorMod(r, n) == 0 <==> I.FloorMod(-r, -n) == 0)
  {
    I.FloorDivMod(r, n);
    var q, m := I.FloorDiv(r, n), I.FloorMod(r, n);
    assert -r == q * (-n) + (-m);
    I.FloorUnique(-r, -n, q, -m);
  }

  /** What the multiplication visitor leaves of the right side, given whether it takes the division as even. */
  function MulResult(op: CompareOp, r: int, n: int, divided: bool): int
    requires n != 0
  {
    I.FloorDiv(r, n) + if !divided && op == Greater then 1 else 0
  }

  /** Dividing both sides by n is exact for the operator the sign of n calls for. */
  lemma {:induction false} MulStep(op: CompareOp, x: int, n: int, r: int)
    requires n != 0 && (op == Equal ==> I.FloorMod(r, n) == 0)
    ensures var op' := if n < 0 then ReverseOp(op) else op;
      Meets(op, x * n, r) <==> Meets(op', x, MulResult(op', r, n, I.FloorMod(r, n) == 0))
  {
    if n > 0 {
      MulUp(x, n, r);
    } else {
      MulUp(x, -n, -r);
      FloorNegate(r, n);
      assert x * (-n) == -(x * n);
    }
  }

  /** The operator that a factor of the sign of n turns into a lower bound. */
  function Upward(n: int): CompareOp {
    if n < 0 then Less else Greater
  }

  /**
   * Rounding up without proof is right exactly when the quotient is uneven, for a factor of either sign; it is always
   * enough.
   */
  lemma {:induction false} RoundExactIff(n: int, r: int)
    requires n != 0
    ensures (forall x: int :: Meets(Upward(n), x * n, r) <==> Meets(Greater, x, MulResult(Greater, r, n, false))) <==>
      I.FloorMod(r, n) != 0
    ensures forall x: int :: Meets(Greater, x, MulResult(Greater, r, n, false)) ==> Meets(Upward(n), x * n, r)
  {
    forall x: int
      ensures Meets(Upward(n), x * n, r) <==> Meets(Greater, x, MulResult(Greater, r, n, I.FloorMod(r, n) == 0))
    {
      MulStep(Upward(n), x, n, r);
    }
    if I.FloorMod(r, n) == 0 {
      var x := I.FloorDiv(r, n);
      assert Meets(Upward(n), x * n, r) && !Meets(Greater, x, MulResult(Greater, r, n, false));
    }
  }

  /** Where it fails: 2 meets both 2x >= 4 and -2x <= -4, and both are answered by x >= 3. */
  lemma {:induction false} RoundFails()
    ensures Meets(Upward(2), 2 * 2, 4) && !Meets(Greater, 2, MulResult(Greater, 4, 2, false))
    ensures Meets(Upward(-2), 2 * -2, -4) && !Meets(Greater, 2, MulResult(Greater, -4, -2, false))
  {
    I.FloorUnique(4, 2, 2, 0);
    I.FloorUnique(-4, -2, 2, 0);
  }

  /** A factor or divisor of value zero makes the node zero, whatever is below it. */
  function ZeroNode(e: Expr, x: int): int {
    if e.Mul? then x * 0 else FDivVal(x, 0)
  }

  /**
   * Where the other operand is zero, a bound on the operand on the path, whatever it is, is enough for the comparison
   * at the node exactly when zero meets it.
   */
  lemma {:induction false} ZeroStepIff(e: Expr, op: CompareOp, bound: int, r: int)
    requires e.Mul? || e.FDiv?
    ensures (forall x: int :: Meets(op, x, bound) ==> Meets(op, ZeroNode(e, x), r)) <==> Meets(op, 0, r)
  {
    assert Meets(op, bound, bound) && ZeroNode(e, bound) == 0;
    assert forall x: int :: ZeroNode(e, x) == 0;
  }

  /** x // d against r, for d > 0. */
  lemma {:induction false} DivUp(x: int, d: int, r: int)
    requires d > 0
    ensures I.FloorDiv(x, d) >= r <==> x >= r * d
    ensures I.FloorDiv(x, d) <= r <==> x <= r * d + d - 1
  {
    var q, m := I.FloorDiv(x, d), I.FloorMod(x, d);
    I.FloorDivMod(x, d);
    ScaleOrder(r, q, d);
    ScaleOrder(q, r, d);
    ScaleOrder(q + 1, r, d);
    ScaleOrder(r + 1, q, d);
    assert (q + 1) * d == q * d + d && (r + 1) * d == r * d + d;
  }

  /** What the floor-division visitor leaves of the right side. */
  function DivResult(op: CompareOp, r: int, d: int): int {
    if d > 0 then (if op == Greater then r * d else r * d + d - 1)
    else (if op == Greater then (-r) * (-d) else (-r) * (-d) + (-d) - 1) - (-d) + 1
  }

  /** Undoing a floor division is exact, for a divisor of either sign. */
  lemma {:induction false} DivStep(op: CompareOp, x: int, d: int, r: int)
    requires d != 0 && op != Equal
    ensures var op' := if d < 0 then ReverseOp(op) else op;
      Meets(op, I.FloorDiv(x, d), r) <==> Meets(op', x, DivResult(op', r, d))
  {
    if d > 0 {
      DivUp(x, d, r);
    } else {
      // x // d is -((x + m - 1) // m) for m = -d
      var m := -d;
      var q := I.FloorDiv(x + m - 1, m);
      Ceiling(x, m);
      DivUp(x + m - 1, m, -r);
    }
  }

  lemma {:induction false} Ceiling(x: int, m: int)
    requires m > 0
    ensures I.FloorDiv(x, -m) == -I.FloorDiv(x + m - 1, m)
  {
    var y := x + m - 1;
    var q, t := I.FloorDiv(y, m), I.FloorMod(y, m);
    I.FloorDivMod(y, m);
    assert (-q) * (-m) == q * m;
    I.FloorUnique(x, -m, -q, t - m + 1);
  }

  // ----- occurrences and the path -----

  function Count(e: Expr, v: VarName): (n: nat)
    ensures n == 0 <==> !Uses(e, v)
  {
    match e
    case Const(_) => 0
    case Var(w) => if v == w then 1 else 0
    case Select(c, t, f) => CountCond(c, v) + Count(t, v) + Count(f, v)
    case _ => Count(e.a, v) + Count(e.b, v)
  }

  function CountCond(c: Cond, v: VarName): (n: nat)
    ensures n == 0 <==> !UsesCond(c, v)
  {
    match c
    case Bool(_) => 0
    case And(p, q) => CountCond(p, v) + CountCond(q, v)
    case Or(p, q) => CountCond(p, v) + CountCond(q, v)
    case Not(p) => CountCond(p, v)
    case _ => Count(c.x, v) + Count(c.y, v)
  }

  predicate EndsAt(e: Expr, v: VarName) {
    e == Var(v) || (e.Select? && Uses(e, v))
  }

  predicate Below(parent: Expr, child: Expr) {
    !parent.Const? && !parent.Var? && !parent.Select? && (child == parent.a || child == parent.b)
  }

  /** The nodes from e down to the first occurrence of the variable; nothing is followed below a select. */
  function GetPath(v: VarName, e: Expr): (p: seq<Expr>)
    ensures p == [] <==> !Uses(e, v)
    ensures p != [] ==> p[0] == e
  {
    if !Uses(e, v) then []
    else if e.Var? || e.Select? then [e]
    else [e] + if Uses(e.a, v) then GetPath(v, e.a) else GetPath(v, e.b)
  }

  /** It goes down one operand at a time, and ends at the variable or at a select around it. */
  lemma {:induction false} PathDown(v: VarName, e: Expr)
    requires Uses(e, v)
    ensures var p := GetPath(v, e); EndsAt(p[|p| - 1], v) && forall i :: 0 < i < |p| ==> Below(p[i - 1], p[i])
  {
    if !e.Var? && !e.Select? {
      var next := if Uses(e.a, v) then e.a else e.b;
      PathDown(v, next);
      var p, q := GetPath(v, e), GetPath(v, next);
      assert p == [e] + q;
      forall i | 0 < i < |p| ensures Below(p[i - 1], p[i]) {
        if i > 1 { assert p[i] == q[i - 1] && p[i - 1] == q[i - 2]; }
      }
    }
  }

  // ----- the analyses it consults -----

  type Ranges = map<VarName, (Expr, Expr)>

  /** env' moves the relaxed variables within their ranges and nothing else. */
  ghost predicate Variant(relax: Ranges, env: Env, env': Env) {
    forall v :: if v in relax then Eval(relax[v].0, env) <= Lookup(env', v) <= Eval(relax[v].1, env)
      else Lookup(env', v) == Lookup(env, v)
  }

  predicate RangesUse(relax: Ranges, v: VarName) {
    exists w :: w in relax && (Uses(relax[w].0, v) || Uses(relax[w].1, v))
  }

  datatype Analyses = Analyses(
    sign: Expr -> Sign,
    divides: (Expr, Expr) -> bool,
    equal: (Expr, Expr) -> bool,
    evalSet: Expr -> IntSet,
    simplify: Expr -> Expr)

  predicate SignRight(s: Sign, x: int) {
    match s
    case Positive => x > 0
    case Negative => x < 0
    case Zero => x == 0
    case Unknown => true
  }

  predicate Contains(s: IntSet, x: int, env: Env) {
    match s
    case Nothing => false
    case Everything => true
    case Interval(lo, hi) => (lo.Some? ==> Eval(lo.value, env) <= x) && (hi.Some? ==> x <= Eval(hi.value, env))
  }

  predicate SetUses(s: IntSet, v: VarName) {
    s.Interval? && ((s.min.Some? && Uses(s.min.value, v)) || (s.max.Some? && Uses(s.max.value, v)))
  }

  /** Signs, divisibility and equality are right wherever the hints hold. */
  ghost predicate FactsSound(an: Analyses, ctx: iset<Env>) {
    && (forall e, env :: env in ctx ==> SignRight(an.sign(e), Eval(e, env)))
    && (forall r, n, env :: env in ctx && an.divides(r, n) ==> FModVal(Eval(r, env), Eval(n, env)) == 0)
    && (forall x, y, env :: env in ctx && an.equal(x, y) ==> Eval(x, env) == Eval(y, env))
  }

  ghost predicate SimplifySound(an: Analyses, ctx: iset<Env>) {
    && (forall e, env :: env in ctx ==> Eval(an.simplify(e), env) == Eval(e, env))
    && (forall e, v :: Uses(an.simplify(e), v) ==> Uses(e, v))
  }

  /** The sets hold every value the relaxed variables can give. */
  ghost predicate SetsSound(an: Analyses, relax: Ranges, ctx: iset<Env>) {
    && (forall e, env, env' :: env in ctx && Variant(relax, env, env') ==> Contains(an.evalSet(e), Eval(e, env'), env))
    && (forall e, v :: SetUses(an.evalSet(e), v) ==> Uses(e, v) || RangesUse(relax, v))
  }

  ghost predicate Sound(an: Analyses, relax: Ranges, ctx: iset<Env>) {
    FactsSound(an, ctx) && SimplifySound(an, ctx) && SetsSound(an, relax, ctx)
  }

  /** A quotient rounded up without proof that it is uneven. */
  datatype Rounding = Rounding(result: Expr, operand: Expr)

  /** A comparison at a node one of whose operands is zero. */
  datatype Zeroed = Zeroed(op: CompareOp, result: Expr)

  /** What a walk did that may cost exactness, or the bound itself. */
  datatype Notes = Notes(rounded: seq<Rounding>, zeros: seq<Zeroed>)

  const NONE := Notes([], [])

  function Join(a: Notes, b: Notes): Notes {
    Notes(a.rounded + b.rounded, a.zeros + b.zeros)
  }

  predicate Uneven(rs: seq<Rounding>, env: Env) {
    forall i :: 0 <= i < |rs| ==> FModVal(Eval(rs[i].result, env), Eval(rs[i].operand, env)) != 0
  }

  /** Zero meets every comparison that was divided by it. */
  predicate ZerosMeet(zs: seq<Zeroed>, env: Env) {
    forall i :: 0 <= i < |zs| ==> Meets(zs[i].op, 0, Eval(zs[i].result, env))
  }

  /** No operand was zero, and no rounding needless. */
  predicate Lossless(n: Notes, env: Env) {
    n.zeros == [] && Uneven(n.rounded, env)
  }

  lemma {:induction false} UnevenPart(a: seq<Rounding>, b: seq<Rounding>, env: Env)
    requires (forall x :: x in a ==> x in b) && Uneven(b, env)
    ensures Uneven(a, env)
  {
    forall i | 0 <= i < |a| ensures FModVal(Eval(a[i].result, env), Eval(a[i].operand, env)) != 0 {
      assert a[i] in b;
      var j :| 0 <= j < |b| && b[j] == a[i];
    }
  }

  lemma {:induction false} ZerosPart(a: seq<Zeroed>, b: seq<Zeroed>, env: Env)
    requires (forall x :: x in a ==> x in b) && ZerosMeet(b, env)
    ensures ZerosMeet(a, env)
  {
    forall i | 0 <= i < |a| ensures Meets(a[i].op, 0, Eval(a[i].result, env)) {
      assert a[i] in b;
      var j :| 0 <= j < |b| && b[j] == a[i];
    }
  }

  // ----- the walk -----

  /** The sign is known; zero is taken for positive. */
  predicate Signed(an: Analyses, e: Expr) {
    an.sign(e) != Unknown
  }

  /**
   * Sums, differences, products by factors of known sign and quotients by divisors of known sign lead to the target.
   */
  predicate Walkable(an: Analyses, v: VarName, e: Expr): (w: bool)
    ensures w ==> Uses(e, v)
  {
    match e
    case Var(w) => v == w
    case Add(a, b) => if Uses(a, v) then Walkable(an, v, a) else Walkable(an, v, b)
    case Sub(a, b) => if Uses(a, v) then Walkable(an, v, a) else Walkable(an, v, b)
    case Mul(a, b) => if Uses(a, v) then Signed(an, b) && Walkable(an, v, a) else Signed(an, a) && Walkable(an, v, b)
    case FDiv(a, b) => Uses(a, v) && Signed(an, b) && !an.equal(b, Const(0)) && Walkable(an, v, a)
    case _ => false
  }

  /** No factor or divisor on the path is known to be zero. */
  predicate NoZero(an: Analyses, v: VarName, e: Expr) {
    match e
    case Add(a, b) => if Uses(a, v) then NoZero(an, v, a) else NoZero(an, v, b)
    case Sub(a, b) => if Uses(a, v) then NoZero(an, v, a) else NoZero(an, v, b)
    case Mul(a, b) =>
      if Uses(a, v) then an.sign(b) != Zero && NoZero(an, v, a) else an.sign(a) != Zero && NoZero(an, v, b)
    case FDiv(a, b) => an.sign(b) != Zero && NoZero(an, v, a)
    case _ => true
  }

  predicate At(op: CompareOp, x: Expr, r: Expr, env: Env) {
    Meets(op, Eval(x, env), Eval(r, env))
  }

  /**
   * The comparison at x1 is enough for the one at x0 where zero meets what was divided by it, and equivalent where
   * nothing was and no rounding was needless.
   */
  predicate Linked(
    op0: CompareOp, x0: Expr, r0: Expr, op1: CompareOp, x1: Expr, r1: Expr, n: Notes, env: Env) {
    && (ZerosMeet(n.zeros, env) && At(op1, x1, r1, env) ==> At(op0, x0, r0, env))
    && (Lossless(n, env) && At(op0, x0, r0, env) ==> At(op1, x1, r1, env))
  }

  /** The set found for x is the single value of x. */
  predicate Pointwise(an: Analyses, x: Expr, env: Env) {
    var s := an.evalSet(x);
    s.Interval? && (s.min.Some? ==> Eval(s.min.value, env) == Eval(x, env)) &&
      (s.max.Some? ==> Eval(s.max.value, env) == Eval(x, env))
  }

  function MkMulResult(op: CompareOp, r: Expr, n: Expr, divided: bool): (s: Expr)
    ensures forall env :: Eval(n, env) != 0 ==> Eval(s, env) == MulResult(op, Eval(r, env), Eval(n, env), divided)
    ensures forall v :: Uses(s, v) ==> Uses(r, v) || Uses(n, v)
  {
    if !divided && op == Greater then Add(FDiv(r, n), Const(1)) else FDiv(r, n)
  }

  lemma {:induction false} MulLinked(
    op: CompareOp, on: Expr, operand: Expr, e: Expr, r: Expr, divided: bool, n: Notes, env: Env)
    requires e == Mul(on, operand) || e == Mul(operand, on)
    requires Eval(operand, env) != 0
    requires divided ==> FModVal(Eval(r, env), Eval(operand, env)) == 0
    requires var op' := if Eval(operand, env) < 0 then ReverseOp(op) else op;
      !divided ==> op' != Equal && (op' == Greater ==> Rounding(r, operand) in n.rounded)
    ensures var op' := if Eval(operand, env) < 0 then ReverseOp(op) else op;
      Linked(op, e, r, op', on, MkMulResult(op', r, operand, divided), n, env)
  {
    var x, c, v := Eval(on, env), Eval(operand, env), Eval(r, env);
    assert Eval(e, env) == x * c;
    MulStep(op, x, c, v);
    if !divided && I.FloorMod(v, c) == 0 && Rounding(r, operand) in n.rounded {
      var i :| 0 <= i < |n.rounded| && n.rounded[i] == Rounding(r, operand);
      assert !Uneven(n.rounded, env);
    }
  }

  lemma {:induction false} ZeroAt(zs: seq<Zeroed>, z: Zeroed, env: Env)
    requires z in zs && ZerosMeet(zs, env)
    ensures Meets(z.op, 0, Eval(z.result, env))
  {
    var i :| 0 <= i < |zs| && zs[i] == z;
  }

  /** A node of value zero meets the comparison exactly when zero does. */
  lemma {:induction false} ZeroLinked(
    op0: CompareOp, e: Expr, r0: Expr, op1: CompareOp, x1: Expr, r1: Expr, n: Notes, env: Env)
    requires Eval(e, env) == 0 && Zeroed(op0, r0) in n.zeros
    ensures Linked(op0, e, r0, op1, x1, r1, n, env)
  {
    assert !Lossless(n, env);
    if ZerosMeet(n.zeros, env) { ZeroAt(n.zeros, Zeroed(op0, r0), env); }
  }

  lemma {:induction false} LinkedOn(
    op0: CompareOp, x0: Expr, r0: Expr, op1: CompareOp, x1: Expr, r1: Expr, n1: Notes,
    op2: CompareOp, x2: Expr, r2: Expr, n2: Notes, env: Env)
    requires Linked(op0, x0, r0, op1, x1, r1, n1, env) && Linked(op1, x1, r1, op2, x2, r2, n2, env)
    ensures Linked(op0, x0, r0, op2, x2, r2, Join(n1, n2), env)
  {
    LinkedPart(n1, Join(n1, n2), env);
    LinkedPart(n2, Join(n1, n2), env);
  }

  lemma {:induction false} LinkedPart(a: Notes, b: Notes, env: Env)
    requires (forall x :: x in a.rounded ==> x in b.rounded) && (forall x :: x in a.zeros ==> x in b.zeros)
    requires b.zeros == [] ==> a.zeros == []
    ensures ZerosMeet(b.zeros, env) ==> ZerosMeet(a.zeros, env)
    ensures Lossless(b, env) ==> Lossless(a, env)
  {
    if ZerosMeet(b.zeros, env) { ZerosPart(a.zeros, b.zeros, env); }
    if Lossless(b, env) { UnevenPart(a.rounded, b.rounded, env); }
  }

  function MkScaled(op: CompareOp, r: Expr, d: Expr): (s: Expr)
    ensures forall v :: Uses(s, v) ==> Uses(r, v) || Uses(d, v)
  {
    if op == Greater then MkMul(r, d) else MkSub(MkAdd(MkMul(r, d), d), Const(1))
  }

  function MkDivResult(op: CompareOp, r: Expr, d: Expr, negative: bool): (s: Expr)
    ensures forall v :: Uses(s, v) ==> Uses(r, v) || Uses(d, v)
  {
    var divisor, result := if negative then MkNeg(d) else d, if negative then MkNeg(r) else r;
    var scaled := MkScaled(op, result, divisor);
    if negative then MkAdd(MkSub(scaled, divisor), Const(1)) else scaled
  }

  lemma {:induction false} DivLinked(op: CompareOp, e: Expr, r: Expr, n: Notes, env: Env)
    requires e.FDiv? && Eval(e.b, env) != 0 && op != Equal
    ensures var op' := if Eval(e.b, env) < 0 then ReverseOp(op) else op;
      Linked(op, e, r, op', e.a, MkDivResult(op', r, e.b, Eval(e.b, env) < 0), n, env)
  {
    var x, d, v := Eval(e.a, env), Eval(e.b, env), Eval(r, env);
    DivStep(op, x, d, v);
    DivValue(if d < 0 then ReverseOp(op) else op, r, e.b, env);
    assert Eval(e, env) == I.FloorDiv(x, d);
  }

  lemma {:induction false} DivValue(op: CompareOp, r: Expr, d: Expr, env: Env)
    requires Eval(d, env) != 0
    ensures Eval(MkDivResult(op, r, d, Eval(d, env) < 0), env) == DivResult(op, Eval(r, env), Eval(d, env))
  {
    if Eval(d, env) < 0 {
      ScaledValue(op, MkNeg(r), MkNeg(d), env);
      OffsetBack(MkScaled(op, MkNeg(r), MkNeg(d)), MkNeg(d), env);
    } else {
      ScaledValue(op, r, d, env);
    }
  }

  lemma {:induction false} ScaledValue(op: CompareOp, r: Expr, d: Expr, env: Env)
    ensures Eval(MkScaled(op, r, d), env) == Eval(r, env) * Eval(d, env) + if op == Greater then 0 else Eval(d, env) - 1
  {
    OffsetValue(MkMul(r, d), d, env);
  }

  lemma {:induction false} OffsetValue(p: Expr, d: Expr, env: Env)
    ensures Eval(MkSub(MkAdd(p, d), Const(1)), env) == Eval(p, env) + Eval(d, env) - 1
  {
  }

  lemma {:induction false} OffsetBack(p: Expr, d: Expr, env: Env)
    ensures Eval(MkAdd(MkSub(p, d), Const(1)), env) == Eval(p, env) - Eval(d, env) + 1
  {
  }

  // ----- what each stage hands on -----

  datatype Comparison = Comparison(op: CompareOp, side: Expr, result: Expr)

  /** The comparison with the target on its left; none for a condition that is not a comparison. */
  function Oriented(v: VarName, e: Cond): Option<Comparison> {
    match e
    case LT(a, b) => Some(if Uses(a, v) then Comparison(Less, a, MkSub(b, Const(1)))
      else Comparison(Greater, b, MkAdd(a, Const(1))))
    case LE(a, b) => Some(if Uses(a, v) then Comparison(Less, a, b) else Comparison(Greater, b, a))
    case GT(a, b) => Some(if Uses(a, v) then Comparison(Greater, a, MkAdd(b, Const(1)))
      else Comparison(Less, b, MkSub(a, Const(1))))
    case GE(a, b) => Some(if Uses(a, v) then Comparison(Greater, a, b) else Comparison(Less, b, a))
    case EQ(a, b) => Some(if Uses(a, v) then Comparison(Equal, a, b) else Comparison(Equal, b, a))
    case _ => None
  }

  predicate SingleValue(an: Analyses, s: IntSet) {
    s.Interval? && s.min.Some? && s.max.Some? && an.equal(s.min.value, s.max.value)
  }

  /** The ends of the two sets that decide the comparison; none where one is infinite. */
  function Relaxed(an: Analyses, c: Comparison): Option<Comparison> {
    var a, b := an.evalSet(c.side), an.evalSet(c.result);
    if !a.Interval? || !b.Interval? || (c.op == Equal && !(SingleValue(an, a) && SingleValue(an, b))) then None
    else
      var left, right := if c.op == Greater then a.min else a.max, if c.op == Greater then b.max else b.min;
      if left.None? || right.None? then None else Some(Comparison(c.op, left.value, right.value))
  }

  /** The comparison the walk starts from: the target occurs once, and the deciding ends are finite. */
  function Prepared(an: Analyses, v: VarName, e: Cond): Option<Comparison> {
    if CountCond(e, v) != 1 || Oriented(v, e).None? then None else Relaxed(an, Oriented(v, e).value)
  }

  datatype Walked = Walked(op: CompareOp, result: Expr, notes: Notes)

  function Flipped(an: Analyses, op: CompareOp, e: Expr): CompareOp {
    if an.sign(e) == Negative then ReverseOp(op) else op
  }

  /** What is noted of a step whose other operand is e. */
  function ZeroNotes(an: Analyses, e: Expr, op: CompareOp, r: Expr): seq<Zeroed> {
    if an.sign(e) == Zero then [Zeroed(op, r)] else []
  }

  function StepMul(an: Analyses, operand: Expr, op: CompareOp, r: Expr): Option<Walked> {
    var op', divided := Flipped(an, op, operand), an.divides(r, operand);
    if !Signed(an, operand) || (op == Equal && !divided) then None
    else
      var rounded := if !divided && op' == Greater then [Rounding(r, operand)] else [];
      Some(Walked(op', MkMulResult(op', r, operand, divided), Notes(rounded, ZeroNotes(an, operand, op, r))))
  }

  function StepDiv(an: Analyses, left: bool, divisor: Expr, op: CompareOp, r: Expr): Option<Walked> {
    if !left || an.equal(divisor, Const(0)) || !Signed(an, divisor) || op == Equal then None
    else
      var op' := Flipped(an, op, divisor);
      var result := MkDivResult(op', r, divisor, an.sign(divisor) == Negative);
      Some(Walked(op', result, Notes([], ZeroNotes(an, divisor, op, r))))
  }

  /** The comparison one node down. */
  function Step(an: Analyses, e: Expr, left: bool, op: CompareOp, r: Expr): Option<Walked> {
    match e
    case Add(a, b) => Some(Walked(op, MkSub(r, if left then b else a), NONE))
    case Sub(a, b) =>
      Some(if left then Walked(op, MkAdd(r, b), NONE) else Walked(ReverseOp(op), MkNeg(MkSub(r, a)), NONE))
    case Mul(a, b) => StepMul(an, if left then b else a, op, r)
    case FDiv(a, b) => StepDiv(an, left, b, op, r)
    case _ => None
  }

  /** The walk with what was noted before it. */
  function After(n: Notes, rest: Option<Walked>): Option<Walked> {
    if rest.None? then None else Some(rest.value.(notes := Join(n, rest.value.notes)))
  }

  /** The comparison at the target, and what was noted on the way to it. */
  function WalkOf(an: Analyses, v: VarName, e: Expr, op: CompareOp, r: Expr): Option<Walked> {
    if !Uses(e, v) then None
    else if e.Var? then Some(Walked(op, r, NONE))
    else
      var left := !e.Select? && Uses(e.a, v);
      var step := Step(an, e, left, op, r);
      if step.None? then None
      else After(step.value.notes, WalkOf(an, v, if left then e.a else e.b, step.value.op, step.value.result))
  }

  lemma {:induction false} StepMulLinked(
    an: Analyses, relax: Ranges, ctx: iset<Env>, e: Expr, on: Expr, operand: Expr, op: CompareOp, r: Expr, env: Env)
    requires Sound(an, relax, ctx) && env in ctx && (e == Mul(on, operand) || e == Mul(operand, on))
    requires StepMul(an, operand, op, r).Some?
    ensures var w := StepMul(an, operand, op, r).value; Linked(op, e, r, w.op, on, w.result, w.notes, env)
  {
    assert SignRight(an.sign(operand), Eval(operand, env));
    var w := StepMul(an, operand, op, r).value;
    var divided := an.divides(r, operand);
    if divided { assert FModVal(Eval(r, env), Eval(operand, env)) == 0; }
    if an.sign(operand) == Zero {
      assert Eval(e, env) == Eval(on, env) * 0;
      ZeroLinked(op, e, r, w.op, on, w.result, w.notes, env);
    } else {
      MulLinked(op, on, operand, e, r, divided, w.notes, env);
    }
  }

  lemma {:induction false} StepDivLinked(
    an: Analyses, relax: Ranges, ctx: iset<Env>, e: Expr, op: CompareOp, r: Expr, env: Env)
    requires Sound(an, relax, ctx) && env in ctx && e.FDiv? && StepDiv(an, true, e.b, op, r).Some?
    ensures var w := StepDiv(an, true, e.b, op, r).value; Linked(op, e, r, w.op, e.a, w.result, w.notes, env)
  {
    assert SignRight(an.sign(e.b), Eval(e.b, env));
    var w := StepDiv(an, true, e.b, op, r).value;
    if an.sign(e.b) == Zero {
      ZeroLinked(op, e, r, w.op, e.a, w.result, w.notes, env);
    } else {
      DivLinked(op, e, r, w.notes, env);
    }
  }

  /**
   * One node down, the comparison is enough where zero meets what was divided by it, and equivalent where nothing was
   * lost.
   */
  lemma {:induction false} StepLinked(
    an: Analyses, relax: Ranges, ctx: iset<Env>, e: Expr, left: bool, op: CompareOp, r: Expr, env: Env)
    requires Sound(an, relax, ctx) && env in ctx && Step(an, e, left, op, r).Some?
    ensures var w := Step(an, e, left, op, r).value;
      Linked(op, e, r, w.op, if left then e.a else e.b, w.result, w.notes, env)
  {
    if e.Mul? {
      StepMulLinked(an, relax, ctx, e, if left then e.a else e.b, if left then e.b else e.a, op, r, env);
    } else if e.FDiv? {
      StepDivLinked(an, relax, ctx, e, op, r, env);
    }
  }

  /** The same for the bound on the target and the comparison the walk started from. */
  lemma {:induction false} WalkLinked(
    an: Analyses, relax: Ranges, ctx: iset<Env>, v: VarName, e: Expr, op: CompareOp, r: Expr, env: Env)
    requires Sound(an, relax, ctx) && env in ctx && WalkOf(an, v, e, op, r).Some?
    ensures var w := WalkOf(an, v, e, op, r).value; Linked(op, e, r, w.op, Var(v), w.result, w.notes, env)
  {
    if !e.Var? {
      var left := Uses(e.a, v);
      var on, step := if left then e.a else e.b, Step(an, e, left, op, r).value;
      var rest := WalkOf(an, v, on, step.op, step.result).value;
      StepLinked(an, relax, ctx, e, left, op, r, env);
      WalkLinked(an, relax, ctx, v, on, step.op, step.result, env);
      LinkedOn(op, e, r, step.op, on, step.result, step.notes, rest.op, Var(v), rest.result, rest.notes, env);
    }
  }

  /** Without a zero on the path nothing is noted but roundings. */
  lemma {:induction false} WalkNoZero(an: Analyses, v: VarName, e: Expr, op: CompareOp, r: Expr)
    requires WalkOf(an, v, e, op, r).Some? && NoZero(an, v, e)
    ensures WalkOf(an, v, e, op, r).value.notes.zeros == []
  {
    if !e.Var? {
      var left := Uses(e.a, v);
      var step := Step(an, e, left, op, r).value;
      WalkNoZero(an, v, if left then e.a else e.b, step.op, step.result);
    }
  }

  /** The bound does not mention the target. */
  lemma {:induction false} WalkAvoids(an: Analyses, v: VarName, e: Expr, op: CompareOp, r: Expr)
    requires WalkOf(an, v, e, op, r).Some? && Count(e, v) == 1 && !Uses(r, v)
    ensures !Uses(WalkOf(an, v, e, op, r).value.result, v)
  {
    if !e.Var? {
      var left := Uses(e.a, v);
      var step := Step(an, e, left, op, r).value;
      assert !Uses(if left then e.b else e.a, v);
      WalkAvoids(an, v, if left then e.a else e.b, step.op, step.result);
    }
  }

  ghost predicate AllLinked(
    ctx: iset<Env>, op0: CompareOp, x0: Expr, r0: Expr, op1: CompareOp, x1: Expr, r1: Expr, n: Notes) {
    forall env :: env in ctx ==> Linked(op0, x0, r0, op1, x1, r1, n, env)
  }

  lemma {:induction false} SimplifiedKeeps(
    an: Analyses, relax: Ranges, ctx: iset<Env>, op0: CompareOp, x0: Expr, r0: Expr, w: Walked, v: VarName)
    requires Sound(an, relax, ctx) && AllLinked(ctx, op0, x0, r0, w.op, Var(v), w.result, w.notes)
    ensures AllLinked(ctx, op0, x0, r0, w.op, Var(v), an.simplify(w.result), w.notes)
    ensures !Uses(w.result, v) ==> !Uses(an.simplify(w.result), v)
  {
    forall env | env in ctx ensures Linked(op0, x0, r0, w.op, Var(v), an.simplify(w.result), w.notes, env) {
      assert Eval(an.simplify(w.result), env) == Eval(w.result, env);
      assert Linked(op0, x0, r0, w.op, Var(v), w.result, w.notes, env);
    }
  }

  lemma {:induction false} WalkSimplified(
    an: Analyses, relax: Ranges, ctx: iset<Env>, v: VarName, e: Expr, op: CompareOp, r: Expr)
    requires Sound(an, relax, ctx) && WalkOf(an, v, e, op, r).Some?
    ensures var w := WalkOf(an, v, e, op, r).value;
      AllLinked(ctx, op, e, r, w.op, Var(v), an.simplify(w.result), w.notes)
    ensures Count(e, v) == 1 && !Uses(r, v) ==> !Uses(an.simplify(WalkOf(an, v, e, op, r).value.result), v)
  {
    var w := WalkOf(an, v, e, op, r).value;
    forall env | env in ctx ensures Linked(op, e, r, w.op, Var(v), w.result, w.notes, env) {
      WalkLinked(an, relax, ctx, v, e, op, r, env);
    }
    SimplifiedKeeps(an, relax, ctx, op, e, r, w, v);
    if Count(e, v) == 1 && !Uses(r, v) { WalkAvoids(an, v, e, op, r); }
  }

  /** An inequality reaches the target exactly along a walkable path. */
  lemma {:induction false} WalkedIff(an: Analyses, v: VarName, e: Expr, op: CompareOp, r: Expr)
    requires op != Equal
    ensures WalkOf(an, v, e, op, r).Some? <==> Walkable(an, v, e)
  {
    if Uses(e, v) && (e.Add? || e.Sub? || e.Mul? || e.FDiv?) {
      var left := Uses(e.a, v);
      var step := Step(an, e, left, op, r);
      if step.Some? { WalkedIff(an, v, if left then e.a else e.b, step.value.op, step.value.result); }
    }
  }

  /** Everything deduced from e. */
  function Deduction(an: Analyses, v: VarName, e: Cond): Option<Walked> {
    var c := Prepared(an, v, e);
    if c.None? then None else WalkOf(an, v, c.value.side, c.value.op, c.value.result)
  }

  // ----- what is answered at all -----

  predicate IsInequality(e: Cond) { e.LT? || e.LE? || e.GT? || e.GE? }

  /** The operand with the target, and the one it is compared with. */
  function Holder(v: VarName, e: Cond): Expr
    requires IsInequality(e) || e.EQ?
  {
    if Uses(e.x, v) then e.x else e.y
  }

  function Other(v: VarName, e: Cond): Expr
    requires IsInequality(e) || e.EQ?
  {
    if Uses(e.x, v) then e.y else e.x
  }

  /** The inequality keeps the operand with the target from above. */
  predicate FromAbove(v: VarName, e: Cond)
    requires IsInequality(e)
  {
    if e.LT? || e.LE? then Uses(e.x, v) else !Uses(e.x, v)
  }

  /** What the inequality keeps it within, itself allowed. */
  function Limit(v: VarName, e: Cond): Expr
    requires IsInequality(e)
  {
    if e.LE? || e.GE? then Other(v, e)
    else if FromAbove(v, e) then MkSub(Other(v, e), Const(1)) else MkAdd(Other(v, e), Const(1))
  }

  /** The greatest value of the one and the least of the other, or the other way round, are finite. */
  predicate EndsFinite(a: IntSet, b: IntSet, above: bool) {
    a.Interval? && b.Interval? && if above then a.max.Some? && b.min.Some? else a.min.Some? && b.max.Some?
  }

  /** An inequality is answered exactly when the target occurs once, the deciding ends are finite and it is walkable. */
  predicate Answered(an: Analyses, v: VarName, e: Cond)
    requires IsInequality(e)
  {
    var a, above := an.evalSet(Holder(v, e)), FromAbove(v, e);
    && CountCond(e, v) == 1 && EndsFinite(a, an.evalSet(Limit(v, e)), above)
    && Walkable(an, v, if above then a.max.value else a.min.value)
  }

  /** Sums and differences only, down to the target. */
  predicate Straight(v: VarName, e: Expr): (r: bool)
    ensures r ==> Uses(e, v)
  {
    e == Var(v) || ((e.Add? || e.Sub?) && Straight(v, if Uses(e.a, v) then e.a else e.b))
  }

  lemma {:induction false} StraightWalked(an: Analyses, v: VarName, e: Expr, op: CompareOp, r: Expr)
    requires Straight(v, e)
    ensures WalkOf(an, v, e, op, r).Some?
  {
    if !e.Var? {
      var left := Uses(e.a, v);
      var step := Step(an, e, left, op, r).value;
      StraightWalked(an, v, if left then e.a else e.b, step.op, step.result);
    }
  }

  /** Every expression is known to have its own value only. */
  ghost predicate PointSets(an: Analyses) {
    forall x: Expr :: an.evalSet(x) == Interval(Some(x), Some(x)) && an.equal(x, x)
  }

  /** Whether e is answered, from the comparison and the sets alone. */
  ghost predicate AnswersWhen(an: Analyses, v: VarName, e: Cond, answered: bool) {
    && (IsInequality(e) ==> (answered <==> Answered(an, v, e)))
    && (IsInequality(e) && PointSets(an) && CountCond(e, v) == 1 ==> (answered <==> Walkable(an, v, Holder(v, e))))
    && (e.EQ? && PointSets(an) && CountCond(e, v) == 1 && Straight(v, Holder(v, e)) ==> answered)
    && (!IsInequality(e) && !e.EQ? ==> !answered)
  }

  lemma {:induction false} AnsweredIff(an: Analyses, v: VarName, e: Cond)
    ensures AnswersWhen(an, v, e, Deduction(an, v, e).Some?)
  {
    var c := Prepared(an, v, e);
    if c.Some? && IsInequality(e) { WalkedIff(an, v, c.value.side, c.value.op, c.value.result); }
    if e.EQ? && PointSets(an) && CountCond(e, v) == 1 && Straight(v, Holder(v, e)) {
      StraightWalked(an, v, Holder(v, e), Equal, Other(v, e));
    }
  }

  /** Both sides of e have single values. */
  predicate NothingRelaxed(an: Analyses, v: VarName, e: Cond, env: Env) {
    var c := Oriented(v, e);
    c.Some? && Pointwise(an, c.value.side, env) && Pointwise(an, c.value.result, env)
  }

  /** Zero meets every comparison that was divided by it; so where there is none. */
  predicate ZerosRight(an: Analyses, v: VarName, e: Cond, env: Env) {
    var w := Deduction(an, v, e);
    w.Some? && ZerosMeet(w.value.notes.zeros, env)
  }

  /** No factor or divisor on the path to the target is known to be zero. */
  predicate NoZeroIn(an: Analyses, v: VarName, e: Cond) {
    var c := Prepared(an, v, e);
    c.Some? && NoZero(an, v, c.value.side)
  }

  lemma {:induction false} NoZeroIsRight(an: Analyses, v: VarName, e: Cond, env: Env)
    requires Deduction(an, v, e).Some? && NoZeroIn(an, v, e)
    ensures ZerosRight(an, v, e, env)
  {
    var c := Prepared(an, v, e).value;
    WalkNoZero(an, v, c.side, c.op, c.result);
  }

  // ----- a hint of zero -----

  /** Nothing is known but that y is zero; the comparison with a constant does not see it. */
  const ZERO_HINT: Analyses := Analyses(
    (e: Expr) => if e == Var("y") then Zero else Unknown,
    (r: Expr, n: Expr) => false,
    (x: Expr, y: Expr) => x == y,
    (e: Expr) => Interval(Some(e), Some(e)),
    (e: Expr) => e)

  ghost function WhereZero(): iset<Env> {
    iset env: Env | Lookup(env, "y") == 0
  }

  lemma {:induction false} SameEverywhere(e: Expr, env: Env, env': Env)
    requires Variant(map[], env, env')
    ensures Eval(e, env') == Eval(e, env)
  {
    assert forall v :: Lookup(env', v) == Lookup(env, v);
    Coincidence(e, env, env');
  }

  lemma {:induction false} ZeroHintFacts(an: Analyses, ctx: iset<Env>)
    requires an == ZERO_HINT && ctx == WhereZero()
    ensures FactsSound(an, ctx)
  {
    forall e, env | env in ctx ensures SignRight(an.sign(e), Eval(e, env)) {
      if e == Var("y") { assert Eval(e, env) == Lookup(env, "y"); }
    }
  }

  lemma {:induction false} ZeroHintSets(an: Analyses, ctx: iset<Env>)
    requires an == ZERO_HINT
    ensures SetsSound(an, map[], ctx)
  {
    forall e, env, env' | env in ctx && Variant(map[], env, env') ensures Contains(an.evalSet(e), Eval(e, env'), env) {
      SameEverywhere(e, env, env');
    }
  }

  lemma {:induction false} ZeroHintSound(an: Analyses, ctx: iset<Env>)
    requires an == ZERO_HINT && ctx == WhereZero()
    ensures Sound(an, map[], ctx)
  {
    ZeroHintFacts(an, ctx);
    ZeroHintSets(an, ctx);
  }

  /** The walk divides by y, and notes that zero must meet the comparison. */
  lemma {:induction false} ZeroFactorWalk(an: Analyses, e: Cond, side: Expr)
    requires an == ZERO_HINT && side == Mul(Var("x"), Var("y")) && e == GE(side, Const(1))
    ensures Prepared(an, "x", e) == Some(Comparison(Greater, side, Const(1)))
    ensures var w := Deduction(an, "x", e);
      && w.Some? && w.value.op == Greater && w.value.result == Add(FDiv(Const(1), Var("y")), Const(1))
      && w.value.notes.zeros == [Zeroed(Greater, Const(1))]
  {
    assert Uses(side, "x") && !Uses(Var("y"), "x");
    assert CountCond(e, "x") == Count(side, "x") + Count(Const(1), "x");
    assert Count(side, "x") == Count(Var("x"), "x") + Count(Var("y"), "x");
    var step := StepMul(an, Var("y"), Greater, Const(1)).value;
    assert WalkOf(an, "x", Var("x"), step.op, step.result) == Some(Walked(step.op, step.result, NONE));
    assert WalkOf(an, "x", side, Greater, Const(1)) == After(step.notes, Some(Walked(step.op, step.result, NONE)));
  }

  lemma {:induction false} FiveMeets(e: Cond, side: Expr, env: Env)
    requires side == Mul(Var("x"), Var("y")) && e == GE(side, Const(1)) && env == map["x" := 5, "y" := 0]
    ensures At(Greater, Var("x"), Add(FDiv(Const(1), Var("y")), Const(1)), env) && !Holds(e, env) && env in WhereZero()
    ensures !Meets(Greater, 0, Eval(Const(1), env))
  {
    assert Lookup(env, "x") == 5 && Lookup(env, "y") == 0;
    assert Eval(FDiv(Const(1), Var("y")), env) == 0 && Eval(side, env) == 5 * 0;
  }

  /** A zero that does not meet the comparison was on the path. */
  lemma {:induction false} ZeroNoted(an: Analyses, v: VarName, e: Cond, env: Env, z: Zeroed)
    requires Deduction(an, v, e).Some? && Deduction(an, v, e).value.notes.zeros == [z]
    requires !Meets(z.op, 0, Eval(z.result, env))
    ensures !NoZeroIn(an, v, e) && !ZerosRight(an, v, e, env)
  {
    assert Deduction(an, v, e).value.notes.zeros[0] == z;
    if NoZeroIn(an, v, e) { NoZeroIsRight(an, v, e, env); }
  }

  /**
   * Where it fails: with the hint that y is zero, x * y >= 1 is answered by x >= 1 // y + 1, which x = 5 meets at
   * y = 0.
   */
  lemma {:induction false} ZeroFactorFails(an: Analyses, e: Cond, env: Env)
    requires an == ZERO_HINT && e == GE(Mul(Var("x"), Var("y")), Const(1)) && env == map["x" := 5, "y" := 0]
    ensures Sound(an, map[], WhereZero()) && env in WhereZero() && Deduction(an, "x", e).Some?
    ensures var w := Deduction(an, "x", e).value; At(w.op, Var("x"), an.simplify(w.result), env) && !Holds(e, env)
    ensures !NoZeroIn(an, "x", e) && !ZerosRight(an, "x", e, env)
  {
    var side := Mul(Var("x"), Var("y"));
    ZeroHintSound(an, WhereZero());
    ZeroFactorWalk(an, e, side);
    FiveMeets(e, side, env);
    ZeroNoted(an, "x", e, env, Zeroed(Greater, Const(1)));
  }

  /** No operand on the path was zero, and no quotient was rounded up needlessly. */
  predicate RoundedRight(an: Analyses, v: VarName, e: Cond, env: Env) {
    var w := Deduction(an, v, e);
    w.Some? && Lossless(w.value.notes, env)
  }

  class BoundDeducer {
    const target: VarName
    const an: Analyses
    ghost const relax: Ranges
    /** The valuations the hints allow. */
    ghost const ctx: iset<Env>

    var side: Expr
    var result: Expr
    var comp: CompareOp
    var success: bool
    var path: seq<Expr>
    var iter: nat
    ghost var notes: Notes

    constructor (target: VarName, an: Analyses, ghost relax: Ranges, ghost ctx: iset<Env>)
      ensures this.target == target && this.an == an && this.relax == relax && this.ctx == ctx && success
      ensures notes == NONE && iter == 0
    {
      this.target, this.an, this.relax, this.ctx := target, an, relax, ctx;
      side, result, comp, success, path, iter, notes := Const(0), Const(0), Greater, true, [], 0, NONE;
    }

    /** The comparison so far, at x. */
    ghost predicate Now(x: Expr, op0: CompareOp, x0: Expr, r0: Expr)
      reads this
    {
      AllLinked(ctx, op0, x0, r0, comp, x, result, notes)
    }

    /** The state is the one w hands on, after what n notes. */
    ghost predicate Reached(w: Option<Walked>, n: Notes)
      reads this
    {
      (success <==> w.Some?) &&
      (success ==> comp == w.value.op && result == w.value.result && notes == Join(n, w.value.notes))
    }

    method VisitAdd(e: Expr, left: bool)
      requires e.Add? && success
      modifies this`result
      ensures Reached(Step(an, e, left, comp, old(result)), notes)
      ensures Now(if left then e.a else e.b, comp, e, old(result))
    {
      result := MkSub(result, if left then e.b else e.a);
    }

    method VisitSub(e: Expr, left: bool)
      requires e.Sub? && success
      modifies this`result, this`comp
      ensures Reached(Step(an, e, left, old(comp), old(result)), notes)
      ensures Now(if left then e.a else e.b, old(comp), e, old(result))
    {
      if left {
        result := MkAdd(result, e.b);
      } else {
        result := MkNeg(MkSub(result, e.a));
        comp := ReverseOp(comp);
      }
    }

    /** A factor of unknown sign or an uneven equation ends the walk; a zero factor does not. */
    method VisitMul(e: Expr, left: bool)
      requires e.Mul? && success
      modifies this`result, this`comp, this`success, this`notes
      ensures Reached(Step(an, e, left, old(comp), old(result)), old(notes))
      ensures old(comp) != Equal ==> (success <==> Signed(an, if left then e.b else e.a))
      ensures success && Sound(an, relax, ctx) ==> Now(if left then e.a else e.b, old(comp), e, old(result))
    {
      var operand, on := if left then e.b else e.a, if left then e.a else e.b;
      var sign := an.sign(operand);
      ghost var op0, r0, n0 := comp, result, notes;
      if sign == Negative {
        comp := ReverseOp(comp);
      } else if sign == Unknown {
        success := false;
        return;
      }
      var divided := an.divides(result, operand);
      result := MkMulResult(comp, result, operand, divided);
      if !divided && comp == Equal {
        success := false;
        return;
      }
      notes := Join(notes, Step(an, e, left, op0, r0).value.notes);
      forall env | env in ctx && Sound(an, relax, ctx) ensures Linked(op0, e, r0, comp, on, result, notes, env) {
        StepLinked(an, relax, ctx, e, left, op0, r0, env);
        LinkedPart(Step(an, e, left, op0, r0).value.notes, notes, env);
      }
    }

    /** A divisor on the path, one proved zero or of unknown sign, or an equation ends the walk. */
    method VisitFloorDiv(e: Expr, left: bool)
      requires e.FDiv? && success
      modifies this`result, this`comp, this`success, this`notes
      ensures Reached(Step(an, e, left, old(comp), old(result)), old(notes))
      ensures old(comp) != Equal ==> (success <==> left && Signed(an, e.b) && !an.equal(e.b, Const(0)))
      ensures success ==> left
      ensures success && Sound(an, relax, ctx) ==> Now(e.a, old(comp), e, old(result))
    {
      if !left || an.equal(e.b, Const(0)) {
        success := false;
        return;
      }
      var divisor := e.b;
      var sign := an.sign(divisor);
      ghost var op0, r0 := comp, result;
      if sign == Negative {
        comp := ReverseOp(comp);
      } else if sign == Unknown {
        success := false;
        return;
      }
      if comp == Equal {
        success := false;
        return;
      }
      result := MkDivResult(comp, result, divisor, sign == Negative);
      notes := Join(notes, Step(an, e, left, op0, r0).value.notes);
      forall env | env in ctx && Sound(an, relax, ctx) ensures Linked(op0, e, r0, comp, e.a, result, notes, env) {
        StepLinked(an, relax, ctx, e, left, op0, r0, env);
        LinkedPart(Step(an, e, left, op0, r0).value.notes, notes, env);
      }
    }

    /** Put the side with the target on the left of one of the three operators. */
    method Transform(e: Cond)
      modifies this
      ensures notes == old(notes) && iter == old(iter)
      ensures success <==> old(success) && (e.LT? || e.LE? || e.GT? || e.GE? || e.EQ?)
      ensures success ==> Oriented(target, e) == Some(Comparison(comp, side, result))
      ensures success ==> forall env :: Holds(e, env) <==> At(comp, side, result, env)
      ensures success && CountCond(e, target) == 1 ==> Count(side, target) == 1 && !Uses(result, target)
    {
      match e {
        case LT(a, b) => {
          if GetPath(target, a) == [] {
            comp, side, result := Greater, b, MkAdd(a, Const(1));
          } else {
            comp, side, result := Less, a, MkSub(b, Const(1));
          }
        }
        case LE(a, b) => {
          if GetPath(target, a) == [] {
            comp, side, result := Greater, b, a;
          } else {
            comp, side, result := Less, a, b;
          }
        }
        case GT(a, b) => {
          if GetPath(target, a) == [] {
            comp, side, result := Less, b, MkSub(a, Const(1));
          } else {
            comp, side, result := Greater, a, MkAdd(b, Const(1));
          }
        }
        case GE(a, b) => {
          if GetPath(target, a) == [] {
            comp, side, result := Less, b, a;
          } else {
            comp, side, result := Greater, a, b;
          }
        }
        case EQ(a, b) => {
          if GetPath(target, a) == [] {
            comp, side, result := Equal, b, a;
          } else {
            comp, side, result := Equal, a, b;
          }
        }
        case _ => success := false;
      }
    }

    /** Replace each side by the end of its set that makes the comparison hardest to meet. */
    method Relax()
      requires Sound(an, relax, ctx) && success
      modifies this`side, this`result, this`success
      ensures success <==> Relaxed(an, Comparison(comp, old(side), old(result))).Some?
      ensures comp != Equal ==> (success <==> EndsFinite(an.evalSet(old(side)), an.evalSet(old(result)), comp == Less))
      ensures success ==> Relaxed(an, Comparison(comp, old(side), old(result))).value == Comparison(comp, side, result)
      ensures success ==> forall env, env' :: env in ctx && Variant(relax, env, env') && At(comp, side, result, env) ==>
        At(comp, old(side), old(result), env')
      ensures success ==> forall env :: Pointwise(an, old(side), env) && Pointwise(an, old(result), env) ==>
        (At(comp, side, result, env) <==> At(comp, old(side), old(result), env))
      ensures success && !Uses(old(result), target) && !RangesUse(relax, target) ==> !Uses(result, target)
    {
      var a, b := an.evalSet(side), an.evalSet(result);
      if !a.Interval? || !b.Interval? || (a.min == None && a.max == None) || (b.min == None && b.max == None) {
        success := false;
        return;
      }
      if comp == Equal {
        if a.min == None || a.max == None || b.min == None || b.max == None
           || !an.equal(b.min.value, b.max.value) || !an.equal(a.min.value, a.max.value) {
          success := false;
          return;
        }
      }
      var left, right := if comp == Greater then a.min else a.max, if comp == Greater then b.max else b.min;
      if left == None || right == None {
        success := false;
        return;
      }
      ghost var x, r := side, result;
      forall env, env' | env in ctx && Variant(relax, env, env') && At(comp, left.value, right.value, env)
        ensures At(comp, x, r, env')
      {
        assert Contains(a, Eval(x, env'), env) && Contains(b, Eval(r, env'), env);
      }
      if !Uses(result, target) && !RangesUse(relax, target) {
        assert !SetUses(b, target);
      }
      side, result := left.value, right.value;
    }

    /** The visitor for the kind of node e is. */
    method VisitNode(e: Expr, left: bool)
      requires success && (e.Add? || e.Sub? || e.Mul? || e.FDiv?)
      modifies this`result, this`comp, this`success, this`notes
      ensures Reached(Step(an, e, left, old(comp), old(result)), old(notes))
    {
      if e.Add? {
        VisitAdd(e, left);
      } else if e.Sub? {
        VisitSub(e, left);
      } else if e.Mul? {
        VisitMul(e, left);
      } else {
        VisitFloorDiv(e, left);
      }
    }

    /** The next node on the path is e, of a kind that can be inverted; which operand the path takes. */
    method Follow(e: Expr) returns (left: bool)
      requires success && iter <= |path| && path[iter..] == GetPath(target, e)
      modifies this`success, this`iter
      ensures success <==> Uses(e, target) && (e.Var? || e.Add? || e.Sub? || e.Mul? || e.FDiv?)
      ensures success && !e.Var? ==>
        left == Uses(e.a, target) && iter <= |path| && path[iter..] == GetPath(target, if left then e.a else e.b)
    {
      left := false;
      if iter == |path| || e != path[iter] {
        success := false;
        return;
      }
      iter := iter + 1;
      if e.Var? { return; }
      if !(e.Add? || e.Sub? || e.Mul? || e.FDiv?) {
        success := false;
        return;
      }
      assert path[iter..] == GetPath(target, e)[1..];
      left := e.a == path[iter];
    }

    /** Follow the path down to the target. */
    method Visit(e: Expr)
      requires success && iter <= |path| && path[iter..] == GetPath(target, e)
      modifies this`result, this`comp, this`success, this`notes, this`iter
      ensures Reached(WalkOf(an, target, e, old(comp), old(result)), old(notes))
      decreases e
    {
      var left := Follow(e);
      if !success || e.Var? { return; }
      ghost var before, step := notes, Step(an, e, left, comp, result);
      VisitNode(e, left);
      if !success { return; }
      var on := if left then e.a else e.b;
      Visit(on);
      Chained(before, step.value.notes, WalkOf(an, target, on, step.value.op, step.value.result));
    }

    lemma Chained(n: Notes, more: Notes, rest: Option<Walked>)
      requires Reached(rest, Join(n, more))
      ensures Reached(After(more, rest), n)
    {
      if rest.Some? { assert Join(Join(n, more), rest.value.notes) == Join(n, Join(more, rest.value.notes)); }
    }

    /** The bound on the target is linked to the comparison at the start. */
    method Walk()
      requires Sound(an, relax, ctx) && success && iter == 0 && notes == NONE
      modifies this`path, this`result, this`comp, this`success, this`notes, this`iter
      ensures var w := WalkOf(an, target, side, old(comp), old(result));
        (success <==> w.Some?) && (success ==> comp == w.value.op && notes == w.value.notes)
      ensures success ==> Now(Var(target), old(comp), side, old(result))
      ensures success && Count(side, target) == 1 && !Uses(old(result), target) ==> !Uses(result, target)
    {
      path := GetPath(target, side);
      if path == [] {
        success := false;
        return;
      }
      ghost var op, r := comp, result;
      assert path[iter..] == path;
      Visit(side);
      if success {
        WalkSimplified(an, relax, ctx, target, side, op, r);
        result := an.simplify(result);
      }
    }

    /**
     * A bound on the target that is enough for the comparison however the relaxed variables move in their ranges,
     * where zero meets what was divided by it, and so wherever no operand on the path is zero; and equivalent to it
     * where nothing was relaxed, no such operand is zero and no rounding was needless.
     */
    method Deduce(e: Cond)
      requires Sound(an, relax, ctx) && success && iter == 0 && notes == NONE
      modifies this
      ensures success <==> Deduction(an, target, e).Some?
      ensures success ==> comp == Deduction(an, target, e).value.op
      ensures success ==> forall env, env' ::
        env in ctx && Variant(relax, env, env') && At(comp, Var(target), result, env) ==>
        ZerosRight(an, target, e, env) ==> Holds(e, env')
      ensures success ==>
        forall env :: env in ctx && NothingRelaxed(an, target, e, env) && RoundedRight(an, target, e, env) ==>
        (At(comp, Var(target), result, env) <==> Holds(e, env))
      ensures success && Count(Prepared(an, target, e).value.side, target) == 1 && !RangesUse(relax, target) ==>
        !Uses(result, target)
    {
      if CountCond(e, target) != 1 {
        success := false;
        return;
      }
      Transform(e);
      if !success { return; }
      Relax();
      if !success { return; }
      Walk();
    }
  }

  /**
   * The set of values of the target for which the comparison is sure to hold, found for an inequality
   * exactly when the target occurs once, the deciding ends are finite and the path to it is walkable. It is to be
   * relied on where no operand on the path is zero, or zero meets what was divided by it; it has all such values where
   * nothing was relaxed, no operand is zero and no rounding was needless.
   */
  method DeduceBound(
    target: VarName, e: Cond, an: Analyses, ghost relax: Ranges, ghost ctx: iset<Env>) returns (s: IntSet)
    requires Sound(an, relax, ctx)
    ensures s.Nothing? || s.Interval?
    ensures s.Interval? <==> Deduction(an, target, e).Some?
    ensures AnswersWhen(an, target, e, s.Interval?)
    ensures forall env, env' :: env in ctx && Variant(relax, env, env') && Contains(s, Lookup(env, target), env) ==>
      ZerosRight(an, target, e, env) || NoZeroIn(an, target, e) ==> Holds(e, env')
    ensures forall env :: env in ctx && NothingRelaxed(an, target, e, env) && RoundedRight(an, target, e, env) ==>
      (Contains(s, Lookup(env, target), env) <==> Holds(e, env))
    ensures s.Interval? && Count(Prepared(an, target, e).value.side, target) == 1 && !RangesUse(relax, target) ==>
      !SetUses(s, target)
  {
    var d := new BoundDeducer(target, an, relax, ctx);
    d.Deduce(e);
    AnsweredIff(an, target, e);
    if !d.success { return Nothing; }
    if NoZeroIn(an, target, e) {
      forall env ensures ZerosRight(an, target, e, env) { NoZeroIsRight(an, target, e, env); }
    }
    s := match d.comp
      case Equal => Interval(Some(d.result), Some(d.result))
      case Greater => Interval(Some(d.result), None)
      case Less => Interval(None, Some(d.result));
    assert forall env :: Contains(s, Lookup(env, target), env) <==> At(d.comp, Var(target), d.result, env);
  }
}
