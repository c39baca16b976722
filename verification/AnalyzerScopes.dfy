// The analyzer's state over runs of binding, entering a constraint and leaving it again.
module AnalyzerScopes {
  import opened Expr
  import opened DivModes
  import opened ConstBound
  import opened Domains
  import M = ModularSet
  import I = IntOperator

  // ----- constraints -----

  /** The conjuncts of a constraint. */
  function Conjuncts(c: Cond): seq<Cond> {
    if c.And? then Conjuncts(c.p) + Conjuncts(c.q) else [c]
  }

  /** The bound a comparison with a constant gives; two constants give none. */
  function DetectOne(c: Cond): seq<Info> {
    match c
    case LE(x, y) =>
      if x.Const? && !y.Const? then [Info(y, MakeBound(x.value, POS))]
      else if y.Const? && !x.Const? then [Info(x, MakeBound(NEG, y.value))] else []
    case GE(x, y) => if y.Const? && !x.Const? then [Info(x, MakeBound(y.value, POS))] else []
    case LT(x, y) =>
      if x.Const? && !y.Const? then [Info(y, MakeBound(x.value + 1, POS))]
      else if y.Const? && !x.Const? then [Info(x, MakeBound(NEG, y.value - 1))] else []
    case GT(x, y) =>
      if y.Const? && !x.Const? then [Info(x, MakeBound(y.value + 1, POS))]
      else if x.Const? && !y.Const? then [Info(y, MakeBound(NEG, x.value - 1))] else []
    case EQ(x, y) =>
      if y.Const? && !x.Const? then [Info(x, MakeBound(y.value, y.value))]
      else if x.Const? && !y.Const? then [Info(y, MakeBound(x.value, x.value))] else []
    case _ => []
  }

  function DetectAll(cs: seq<Cond>): seq<Info> {
    if cs == [] then [] else DetectOne(cs[0]) + DetectAll(cs[1..])
  }

  function DetectBoundInfo(c: Cond): seq<Info> {
    DetectAll(Conjuncts(c))
  }

  /** Comparisons are between machine integers. */
  predicate CalmCond(c: Cond, env: Env) {
    match c
    case Bool(_) => true
    case And(p, q) => CalmCond(p, env) && CalmCond(q, env)
    case Or(p, q) => CalmCond(p, env) && CalmCond(q, env)
    case Not(p) => CalmCond(p, env)
    case _ => Inside(Eval(c.x, env)) && Inside(Eval(c.y, env))
  }

  /** The constraint holds, and is about machine integers. */
  predicate Obeys(env: Env, c: Cond) {
    Holds(c, env) && CalmCond(c, env)
  }

  ghost predicate InfoHolds(info: seq<Info>, env: Env) {
    forall i :: 0 <= i < |info| ==> InB(Eval(info[i].e, env), info[i].b)
  }

  lemma {:induction false} DetectOneSound(c: Cond, env: Env)
    requires Obeys(env, c)
    ensures InfoHolds(DetectOne(c), env)
  {
  }

  lemma {:induction false} DetectAllSound(cs: seq<Cond>, env: Env)
    requires forall i :: 0 <= i < |cs| ==> Obeys(env, cs[i])
    ensures InfoHolds(DetectAll(cs), env)
  {
    if cs != [] {
      DetectOneSound(cs[0], env);
      DetectAllSound(cs[1..], env);
    }
  }

  lemma {:induction false} ConjunctsHold(c: Cond, env: Env)
    requires Obeys(env, c)
    ensures forall i :: 0 <= i < |Conjuncts(c)| ==> Obeys(env, Conjuncts(c)[i])
  {
    if c.And? {
      ConjunctsHold(c.p, env);
      ConjunctsHold(c.q, env);
    }
  }

  /** Whatever obeys the constraint respects the bounds detected in it. */
  lemma {:induction false} DetectSound(c: Cond, env: Env)
    requires Obeys(env, c)
    ensures InfoHolds(DetectBoundInfo(c), env)
  {
    ConjunctsHold(c, env);
    DetectAllSound(Conjuncts(c), env);
  }

  // ----- what is read in full -----

  /**
   * A conjunction of comparisons of expressions with constants. A constant on the left of >= is not read, see
   * `ConstantFirst`.
   */
  predicate Readable(c: Cond) {
    match c
    case And(p, q) => Readable(p) && Readable(q)
    case GE(x, y) => !x.Const? && y.Const?
    case LE(x, y) => x.Const? != y.Const?
    case LT(x, y) => x.Const? != y.Const?
    case GT(x, y) => x.Const? != y.Const?
    case EQ(x, y) => x.Const? != y.Const?
    case _ => false
  }

  /** The constants leave room for the steps of one that strict comparisons take. */
  predicate Roomy(c: Cond)
    requires Readable(c)
  {
    if c.And? then Roomy(c.p) && Roomy(c.q)
    else
      var b := if c.x.Const? then c.x.value else c.y.value;
      Inside(b - 1) && Inside(b + 1)
  }

  lemma {:induction false} OneExact(c: Cond, env: Env)
    requires Readable(c) && !c.And? && Roomy(c) && CalmCond(c, env)
    ensures InfoHolds(DetectOne(c), env) <==> Holds(c, env)
  {
    var i := DetectOne(c)[0];
    assert DetectOne(c) == [i];
    assert InfoHolds([i], env) <==> InB(Eval(i.e, env), i.b);
  }

  lemma {:induction false} InfoSplit(a: seq<Info>, b: seq<Info>, env: Env)
    ensures InfoHolds(a + b, env) <==> InfoHolds(a, env) && InfoHolds(b, env)
  {
    if InfoHolds(a + b, env) {
      assert forall i :: 0 <= i < |a| ==> (a + b)[i] == a[i];
      assert forall i :: 0 <= i < |b| ==> (a + b)[|a| + i] == b[i];
    }
  }

  lemma {:induction false} DetectAppend(a: seq<Cond>, b: seq<Cond>)
    ensures DetectAll(a + b) == DetectAll(a) + DetectAll(b)
  {
    if a == [] {
      assert a + b == b;
    } else {
      DetectAppend(a[1..], b);
      assert (a + b)[0] == a[0] && (a + b)[1..] == a[1..] + b;
      var x, y, z := DetectOne(a[0]), DetectAll(a[1..]), DetectAll(b);
      assert x + (y + z) == (x + y) + z;
    }
  }

  lemma {:induction false} DetectSingle(c: Cond)
    requires !c.And?
    ensures DetectBoundInfo(c) == DetectOne(c)
  {
    assert DetectAll([c]) == DetectOne(c) + DetectAll([c][1..]);
  }

  /** What is detected in such a constraint says all that the constraint does. */
  lemma {:induction false} DetectExact(c: Cond, env: Env)
    requires Readable(c) && Roomy(c) && CalmCond(c, env)
    ensures InfoHolds(DetectBoundInfo(c), env) <==> Holds(c, env)
  {
    if c.And? {
      DetectExact(c.p, env);
      DetectExact(c.q, env);
      DetectAppend(Conjuncts(c.p), Conjuncts(c.q));
      InfoSplit(DetectBoundInfo(c.p), DetectBoundInfo(c.q), env);
    } else {
      DetectSingle(c);
      OneExact(c, env);
    }
  }

  /** Of the comparisons of an expression with a constant, only a constant first in >= gives nothing. */
  lemma {:induction false} ConstantFirst(c: Cond)
    requires (c.LE? || c.LT? || c.GE? || c.GT? || c.EQ?) && c.x.Const? != c.y.Const?
    ensures DetectBoundInfo(c) == [] <==> c.GE? && c.x.Const?
  {
    DetectSingle(c);
  }

  predicate AboutVar(c: Cond, v: VarName) {
    (c.LE? || c.LT? || c.GE? || c.GT? || c.EQ?) && (c.x == Var(v) || c.y == Var(v))
  }

  /** z satisfies what the constraint asks of v. */
  predicate Permits(c: Cond, v: VarName, z: int) {
    if c.And? then Permits(c.p, v, z) && Permits(c.q, v, z) else AboutVar(c, v) ==> Holds(c, map[v := z])
  }

  ghost predicate InfoAllows(info: seq<Info>, e: Expr, z: int) {
    forall i :: 0 <= i < |info| && info[i].e == e ==> InB(z, info[i].b)
  }

  /** Narrowing cuts a bound to the values that all notes on the expression allow. */
  lemma {:induction false} NarrowExact(b: Bound, info: seq<Info>, e: Expr, z: int)
    ensures InB(z, Narrow(b, info, e)) <==> InB(z, b) && InfoAllows(info, e, z)
    decreases |info|
  {
    if info != [] {
      NarrowExact(if info[0].e == e then IntersectB(b, info[0].b) else b, info[1..], e, z);
      assert forall i :: 0 <= i < |info[1..]| ==> info[1..][i] == info[i + 1];
      assert InfoAllows(info, e, z) <==> (info[0].e == e ==> InB(z, info[0].b)) && InfoAllows(info[1..], e, z);
    }
  }

  lemma {:induction false} AllowsSplit(a: seq<Info>, b: seq<Info>, e: Expr, z: int)
    ensures InfoAllows(a + b, e, z) <==> InfoAllows(a, e, z) && InfoAllows(b, e, z)
  {
    if InfoAllows(a + b, e, z) {
      assert forall i :: 0 <= i < |a| ==> (a + b)[i] == a[i];
      assert forall i :: 0 <= i < |b| ==> (a + b)[|a| + i] == b[i];
    }
  }

  lemma {:induction false} OneAllows(c: Cond, v: VarName, z: int)
    requires Readable(c) && !c.And? && Roomy(c) && Inside(z)
    ensures InfoAllows(DetectOne(c), Var(v), z) <==> (AboutVar(c, v) ==> Holds(c, map[v := z]))
  {
    var i, env: Env := DetectOne(c)[0], map[v := z];
    assert DetectOne(c) == [i];
    assert InfoAllows([i], Var(v), z) <==> (i.e == Var(v) ==> InB(z, i.b));
    assert Eval(Var(v), env) == z;
    if AboutVar(c, v) {
      OneExact(c, env);
      assert InfoHolds([i], env) <==> InB(Eval(i.e, env), i.b);
    }
  }

  lemma {:induction false} DetectAllows(c: Cond, v: VarName, z: int)
    requires Readable(c) && Roomy(c) && Inside(z)
    ensures InfoAllows(DetectBoundInfo(c), Var(v), z) <==> Permits(c, v, z)
  {
    if c.And? {
      DetectAllows(c.p, v, z);
      DetectAllows(c.q, v, z);
      DetectAppend(Conjuncts(c.p), Conjuncts(c.q));
      AllowsSplit(DetectBoundInfo(c.p), DetectBoundInfo(c.q), Var(v), z);
    } else {
      DetectSingle(c);
      OneAllows(c, v, z);
    }
  }

  /** Constants of the constraint leave room for the steps of one that strict comparisons take. */
  predicate SmallCond(c: Cond) {
    match c
    case Bool(_) => true
    case And(p, q) => SmallCond(p) && SmallCond(q)
    case Or(p, q) => SmallCond(p) && SmallCond(q)
    case Not(p) => SmallCond(p)
    case _ => (c.x.Const? ==> Inside(c.x.value)) && (c.y.Const? ==> Inside(c.y.value))
  }

  lemma {:induction false} DetectRanged(c: Cond)
    requires SmallCond(c)
    ensures forall i :: 0 <= i < |DetectBoundInfo(c)| ==> BoundOk(DetectBoundInfo(c)[i].b)
  {
    ConjunctsSmall(c);
    AllRanged(Conjuncts(c));
  }

  lemma {:induction false} ConjunctsSmall(c: Cond)
    requires SmallCond(c)
    ensures forall i :: 0 <= i < |Conjuncts(c)| ==> SmallCond(Conjuncts(c)[i])
  {
    if c.And? {
      ConjunctsSmall(c.p);
      ConjunctsSmall(c.q);
    }
  }

  lemma {:induction false} AllRanged(cs: seq<Cond>)
    requires forall i :: 0 <= i < |cs| ==> SmallCond(cs[i])
    ensures forall i :: 0 <= i < |DetectAll(cs)| ==> BoundOk(DetectAll(cs)[i].b)
  {
    if cs != [] { AllRanged(cs[1..]); }
  }

  /** The variable and class that a congruence constraint names. */
  function DetectMod(c: Cond): Option<(VarName, int, int)> {
    match c
    case EQ(TMod(Var(v), Const(m)), Const(b)) => if m != 0 then Some((v, m, b)) else None
    case EQ(FMod(Var(v), Const(m)), Const(b)) => if m != 0 then Some((v, m, b)) else None
    case EQ(Var(v), Const(b)) => Some((v, 1, b))
    case EQ(Const(b), Var(v)) => Some((v, 1, b))
    case _ => None
  }

  /** A negative modulus is read rightly only when it divides twice the base. */
  predicate FairMod(c: Cond) {
    DetectMod(c).Some? ==>
      DetectMod(c).value.1 > 0 ||
      (DetectMod(c).value.1 != 0 && I.FloorMod(2 * DetectMod(c).value.2, DetectMod(c).value.1) == 0)
  }

  lemma {:induction false} DetectModSound(c: Cond, env: Env)
    requires Holds(c, env) && FairMod(c) && DetectMod(c).Some?
    ensures var (v, m, b) := DetectMod(c).value; M.In(Lookup(env, v), M.MakeEntry(m, b))
  {
    var (v, m, b) := DetectMod(c).value;
    var z := Lookup(env, v);
    if c.x.Var? || c.y.Var? {
      M.MakeEntryIn(1, b, z);
      assert z - b == 1 * (z - b);
    } else {
      var mode := if c.x.TMod? then Trunc else Floor;
      assert c.x.a == Var(v) && c.x.b == Const(m) && c.y == Const(b);
      assert Eval(c.x.a, env) == z && Eval(c.x.b, env) == m;
      assert Eval(c.x, env) == Rem(mode, z, m);
      AnyConstraint(m, b, z, mode);
    }
  }

  lemma {:induction false} AnyConstraint(m: int, b: int, z: int, mode: DivMode)
    requires m != 0 && Rem(mode, z, m) == b && (m > 0 || I.FloorMod(2 * b, m) == 0)
    ensures M.In(z, M.MakeEntry(m, b))
  {
    if m > 0 {
      M.PositiveConstraint(m, b, z, mode);
    } else {
      I.ModZero(2 * b, m);
      QuotRem(mode, z, m);
      M.MakeEntryIn(m, b, z);
      var k :| 2 * b == m * k;
      M.Spread4(m, Quot(mode, z, m), k);
      I.DividesMul(m, Quot(mode, z, m) + k);
      M.NegDivides(m, z + b);
    }
  }

  lemma {:induction false} ClassIsRemainder(m: int, b: int, z: int)
    requires 0 <= b < m
    ensures I.Divides(m, z - b) <==> I.FloorMod(z, m) == b
  {
    QuotRem(Floor, z, m);
    if I.Divides(m, z - b) {
      var k :| z - b == m * k;
      QuotUnique(Floor, z, m, k, b);
    }
    if I.FloorMod(z, m) == b { I.DividesMul(m, I.FloorDiv(z, m)); }
  }

  // ----- entering and leaving -----

  /** What leaving a scope takes back: the length of the bound list, and one variable's class. */
  datatype Scope = Scope(size: nat, mod: Option<(VarName, M.ModEntry)>)

  function EnterState(st: State, c: Cond): (State, Scope) {
    Entered(st, DetectBoundInfo(c), DetectMod(c))
  }

  /** The joint class of a variable's own and the one a congruence gives it. */
  function Joint(before: M.ModEntry, entry: M.ModEntry): Option<M.ModEntry> {
    // Two single values cannot be intersected; the source would divide by zero.
    if before.coeff == 0 && entry.coeff == 0 then None else Some(M.Intersect(before, entry))
  }

  /** The state with the bounds and the congruence of a constraint taken in. */
  function Entered(st: State, bounds: seq<Info>, d: Option<(VarName, int, int)>): (State, Scope) {
    var st1 := st.(info := st.info + bounds);
    match d
    case None => (st1, Scope(|st.info|, None))
    case Some((v, m, b)) =>
      var before := VarMod(st, v);
      match Joint(before, M.MakeEntry(m, b))
      case None => (st1, Scope(|st.info|, None))
      case Some(joint) => (st1.(mods := st.mods[v := joint]), Scope(|st.info|, Some((v, before))))
  }

  /** The bound of every variable is cut to exactly the values that the constraint allows. */
  lemma {:induction false} EnterCuts(st: State, c: Cond, v: VarName, z: int)
    requires Readable(c) && Roomy(c) && Inside(z)
    ensures InB(z, BoundOf(Var(v), EnterState(st, c).0)) <==> InB(z, BoundOf(Var(v), st)) && Permits(c, v, z)
  {
    var info := DetectBoundInfo(c);
    NarrowExact(VarBound(st, v), st.info, Var(v), z);
    NarrowExact(VarBound(st, v), st.info + info, Var(v), z);
    AllowsSplit(st.info, info, Var(v), z);
    DetectAllows(c, v, z);
  }

  /** The bound of every variable in st' is the one in st cut by the constraint. */
  ghost predicate CutBy(st: State, c: Cond, st': State) {
    forall v, z :: Inside(z) ==> (InB(z, BoundOf(Var(v), st')) <==> InB(z, BoundOf(Var(v), st)) && Permits(c, v, z))
  }

  lemma {:induction false} AllCut(st: State, c: Cond)
    requires Readable(c) && Roomy(c)
    ensures CutBy(st, c, EnterState(st, c).0)
  {
    forall v, z | Inside(z)
      ensures InB(z, BoundOf(Var(v), EnterState(st, c).0)) <==> InB(z, BoundOf(Var(v), st)) && Permits(c, v, z)
    {
      EnterCuts(st, c, v, z);
    }
  }

  lemma {:induction false} IntersectEntered(st: State, c: Cond, v: VarName, m: int, b: int)
    requires c == EQ(FMod(Var(v), Const(m)), Const(b)) && m > 0 && M.MakeEntry(m, b).coeff == m
    ensures VarMod(EnterState(st, c).0, v) == M.Intersect(VarMod(st, v), M.MakeEntry(m, b))
  {
    assert DetectMod(c) == Some((v, m, b));
  }

  /** And its class, by a floored congruence that it can meet, to the values that satisfy it. */
  lemma {:induction false} EnterClass(st: State, c: Cond, v: VarName, m: int, b: int, z: int)
    requires StateOk(st) && c == EQ(FMod(Var(v), Const(m)), Const(b)) && 0 <= b < m
    requires M.Meet(VarMod(st, v), M.MakeEntry(m, b))
    ensures M.In(z, VarMod(EnterState(st, c).0, v)) <==> M.In(z, VarMod(st, v)) && Holds(c, map[v := z])
  {
    var env: Env := map[v := z];
    M.MakeEntryIn(m, b, z);
    assert M.MakeEntry(m, b).coeff == m;
    IntersectEntered(st, c, v, m, b);
    M.IntersectExact(VarMod(st, v), M.MakeEntry(m, b), z);
    assert Eval(Var(v), env) == z && Eval(c.x, env) == I.FloorMod(z, m);
    ClassIsRemainder(m, b, z);
  }

  function Undo(st: State, s: Scope): State {
    var info := if s.size <= |st.info| then st.info[..s.size] else st.info;
    var mods := if s.mod.Some? then st.mods[s.mod.value.0 := s.mod.value.1] else st.mods;
    st.(info := info, mods := mods)
  }

  /** States that differ at most in classes that say nothing. */
  ghost predicate SameAnswers(a: State, b: State) {
    a.vars == b.vars && a.info == b.info && forall v :: VarMod(a, v) == VarMod(b, v)
  }

  /** Such states answer every query alike. */
  lemma {:induction false} AnswersAgree(e: Expr, a: State, b: State)
    requires SameAnswers(a, b)
    ensures BoundOf(e, a) == BoundOf(e, b) && ModOf(e, a) == ModOf(e, b)
  {
    match e
    case Const(_) =>
    case Var(_) =>
    case Select(_, t, f) =>
      AnswersAgree(t, a, b);
      AnswersAgree(f, a, b);
    case _ =>
      AnswersAgree(e.a, a, b);
      AnswersAgree(e.b, a, b);
  }

  /** Leaving at once what was entered restores every answer. */
  lemma {:induction false} UndoEnter(st: State, c: Cond)
    ensures var (st', s) := EnterState(st, c); SameAnswers(Undo(st', s), st)
  {
    var (st', s) := EnterState(st, c);
    assert st'.info[..|st.info|] == st.info;
  }

  lemma {:induction false} UndoSame(a: State, b: State, s: Scope)
    requires SameAnswers(a, b)
    ensures SameAnswers(Undo(a, s), Undo(b, s))
  {
    forall v ensures VarMod(Undo(a, s), v) == VarMod(Undo(b, s), v) { assert VarMod(a, v) == VarMod(b, v); }
  }

  ghost predicate Meets(env: Env, open: seq<Cond>) {
    forall i :: 0 <= i < |open| ==> Obeys(env, open[i])
  }

  ghost predicate ModsHold(mods: map<VarName, M.ModEntry>, env: Env) {
    forall v :: v in mods ==> M.In(Lookup(env, v), mods[v])
  }

  lemma {:induction false} ModsUpdate(mods: map<VarName, M.ModEntry>, v: VarName, entry: M.ModEntry, env: Env)
    requires ModsHold(mods, env) && M.In(Lookup(env, v), entry)
    ensures ModsHold(mods[v := entry], env)
  {
    forall w | w in mods[v := entry] ensures M.In(Lookup(env, w), mods[v := entry][w]) {
      if w != v { assert w in mods && mods[v := entry][w] == mods[w]; }
    }
  }

  lemma {:induction false} IntersectHolds(before: M.ModEntry, entry: M.ModEntry, z: int, m: int, b: int)
    requires M.Normal(before) && entry == M.MakeEntry(m, b) && M.In(z, before) && M.In(z, entry)
    requires (before.coeff != 0 || entry.coeff != 0)
    ensures M.In(z, M.Intersect(before, entry))
  {
    M.MakeEntryIn(m, b, 0);
    M.BothMeet(before, entry, z);
    M.IntersectExact(before, entry, z);
  }

  lemma {:induction false} JointHolds(st: State, v: VarName, m: int, b: int, env: Env)
    requires StateOk(st) && ModsHold(st.mods, env) && M.In(Lookup(env, v), M.MakeEntry(m, b))
    ensures Joint(VarMod(st, v), M.MakeEntry(m, b)).Some? ==>
      M.In(Lookup(env, v), Joint(VarMod(st, v), M.MakeEntry(m, b)).value)
  {
    var before, entry := VarMod(st, v), M.MakeEntry(m, b);
    if before.coeff != 0 || entry.coeff != 0 {
      M.EverythingHolds(Lookup(env, v));
      assert M.In(Lookup(env, v), before);
      IntersectHolds(before, entry, Lookup(env, v), m, b);
    }
  }

  lemma {:induction false} ModsEntered(st: State, bounds: seq<Info>, v: VarName, m: int, b: int)
    ensures var joint := Joint(VarMod(st, v), M.MakeEntry(m, b));
      Entered(st, bounds, Some((v, m, b))).0.mods == if joint.Some? then st.mods[v := joint.value] else st.mods
  {
  }

  lemma {:induction false} EnteredMods(st: State, bounds: seq<Info>, d: Option<(VarName, int, int)>, env: Env)
    requires StateOk(st) && ModsHold(st.mods, env)
    requires d.Some? ==> M.In(Lookup(env, d.value.0), M.MakeEntry(d.value.1, d.value.2))
    ensures ModsHold(Entered(st, bounds, d).0.mods, env)
  {
    if d.Some? {
      var v, m, b := d.value.0, d.value.1, d.value.2;
      assert d == Some((v, m, b));
      ModsEntered(st, bounds, v, m, b);
      JointHolds(st, v, m, b, env);
      var joint := Joint(VarMod(st, v), M.MakeEntry(m, b));
      if joint.Some? { ModsUpdate(st.mods, v, joint.value, env); }
    }
  }

  lemma {:induction false} InfoAppend(a: seq<Info>, b: seq<Info>, env: Env)
    requires InfoHolds(a, env) && InfoHolds(b, env)
    ensures InfoHolds(a + b, env)
  {
  }

  lemma {:induction false} EnteredAdmits(st: State, bounds: seq<Info>, d: Option<(VarName, int, int)>, env: Env)
    requires StateOk(st) && Admits(st, env) && InfoHolds(bounds, env)
    requires d.Some? ==> M.In(Lookup(env, d.value.0), M.MakeEntry(d.value.1, d.value.2))
    ensures Admits(Entered(st, bounds, d).0, env)
  {
    InfoAppend(st.info, bounds, env);
    EnteredMods(st, bounds, d, env);
    var st' := Entered(st, bounds, d).0;
    assert st'.vars == st.vars && st'.info == st.info + bounds;
  }

  lemma {:induction false} EnterAdmits(st: State, c: Cond, env: Env)
    requires StateOk(st) && Admits(st, env) && Obeys(env, c) && FairMod(c)
    ensures Admits(EnterState(st, c).0, env)
  {
    DetectSound(c, env);
    if DetectMod(c).Some? { DetectModSound(c, env); }
    EnteredAdmits(st, DetectBoundInfo(c), DetectMod(c), env);
  }

  lemma {:induction false} EnterOk(st: State, c: Cond)
    requires StateOk(st) && SmallCond(c)
    ensures StateOk(EnterState(st, c).0)
  {
    DetectRanged(c);
    if DetectMod(c).Some? {
      var (v, m, b) := DetectMod(c).value;
      var before, entry := VarMod(st, v), M.MakeEntry(m, b);
      M.MakeEntryIn(m, b, 0);
      if before.coeff != 0 || entry.coeff != 0 { IntersectNormal(before, entry); }
    }
  }

  lemma {:induction false} IntersectNormal(a: M.ModEntry, b: M.ModEntry)
    requires a.coeff != 0 || b.coeff != 0
    ensures M.Normal(M.Intersect(a, b))
  {
    I.BezoutUnimodular(a.coeff, b.coeff);
    var (g, x, y) := I.ExtGcd(a.coeff, b.coeff);
    var v := b.base - a.base;
    M.MakeEntryIn(I.TruncDiv(a.coeff, g) * b.coeff, (I.TruncDiv(v, g) * x) * a.coeff + a.base, 0);
  }

  // ----- runs -----

  /** A binding: the variable's value, or the range it lies in. */
  datatype Fact = Equals(v: VarName, e: Expr) | Within(v: VarName, lo: Expr, extent: Expr)

  /** The binding holds, between machine integers. */
  predicate FactHolds(f: Fact, env: Env) {
    match f
    case Equals(v, e) => Lookup(env, v) == Eval(e, env) && Calm(e, env)
    case Within(v, lo, extent) =>
      && Eval(lo, env) <= Lookup(env, v) < Eval(lo, env) + Eval(extent, env)
      && Calm(lo, env) && Calm(extent, env) && Inside(Eval(lo, env) + Eval(extent, env))
  }

  ghost predicate FactsHold(facts: seq<Fact>, env: Env) {
    forall i :: 0 <= i < |facts| ==> FactHolds(facts[i], env)
  }

  /** At every level of the stack: what meets the bindings and the constraints open there is admitted. */
  ghost predicate Layered(st: State, scopes: seq<Scope>, open: seq<Cond>, facts: seq<Fact>)
    requires |scopes| == |open|
    decreases |scopes|
  {
    && StateOk(st)
    && (forall env :: FactsHold(facts, env) && Meets(env, open) ==> Admits(st, env))
    && (scopes != [] ==>
          var n := |scopes| - 1;
          Layered(Undo(st, scopes[n]), scopes[..n], open[..n], facts))
  }

  /** The state with every scope taken back. */
  function Bottom(st: State, scopes: seq<Scope>): State
    decreases |scopes|
  {
    if scopes == [] then st
    else
      var n := |scopes| - 1;
      Bottom(Undo(st, scopes[n]), scopes[..n])
  }

  lemma {:induction false} BottomAdmits(st: State, scopes: seq<Scope>, open: seq<Cond>, facts: seq<Fact>)
    requires |scopes| == |open| && Layered(st, scopes, open, facts)
    ensures StateOk(Bottom(st, scopes)) && forall env :: FactsHold(facts, env) ==> Admits(Bottom(st, scopes), env)
    decreases |scopes|
  {
    if scopes == [] {
      forall env | FactsHold(facts, env) ensures Admits(st, env) { assert Meets(env, open); }
    } else {
      var n := |scopes| - 1;
      BottomAdmits(Undo(st, scopes[n]), scopes[..n], open[..n], facts);
    }
  }

  lemma {:induction false} SameAdmits(a: State, b: State, env: Env)
    requires SameAnswers(a, b) && Admits(a, env)
    ensures Admits(b, env)
  {
    forall v | v in b.mods ensures M.In(Lookup(env, v), b.mods[v]) {
      assert VarMod(a, v) == VarMod(b, v);
      M.EverythingHolds(Lookup(env, v));
    }
  }

  lemma {:induction false} SameOk(a: State, b: State)
    requires SameAnswers(a, b) && StateOk(a)
    ensures StateOk(b)
  {
    forall v | v in b.mods ensures M.Normal(b.mods[v]) { assert VarMod(a, v) == VarMod(b, v); }
  }

  lemma {:induction false} LayeredSame(a: State, b: State, scopes: seq<Scope>, open: seq<Cond>, facts: seq<Fact>)
    requires |scopes| == |open| && SameAnswers(a, b) && Layered(a, scopes, open, facts)
    ensures Layered(b, scopes, open, facts)
    decreases |scopes|
  {
    SameOk(a, b);
    forall env | FactsHold(facts, env) && Meets(env, open) ensures Admits(b, env) { SameAdmits(a, b, env); }
    if scopes != [] {
      var n := |scopes| - 1;
      UndoSame(a, b, scopes[n]);
      LayeredSame(Undo(a, scopes[n]), Undo(b, scopes[n]), scopes[..n], open[..n], facts);
    }
  }

  /** Entering a fair constraint keeps every level. */
  lemma {:induction false} LayeredEnter(st: State, c: Cond, scopes: seq<Scope>, open: seq<Cond>, facts: seq<Fact>)
    requires |scopes| == |open| && Layered(st, scopes, open, facts) && FairMod(c) && SmallCond(c)
    ensures var (st', s) := EnterState(st, c); Layered(st', scopes + [s], open + [c], facts)
  {
    var (st', s) := EnterState(st, c);
    EnterOk(st, c);
    forall env | FactsHold(facts, env) && Meets(env, open + [c]) ensures Admits(st', env) {
      assert (open + [c])[|open|] == c;
      forall i | 0 <= i < |open| ensures Obeys(env, open[i]) { assert (open + [c])[i] == open[i]; }
      EnterAdmits(st, c, env);
    }
    UndoEnter(st, c);
    SameSym(Undo(st', s), st);
    LayeredSame(st, Undo(st', s), scopes, open, facts);
    assert (scopes + [s])[..|scopes|] == scopes && (open + [c])[..|open|] == open;
  }

  lemma {:induction false} SameSym(a: State, b: State)
    requires SameAnswers(a, b)
    ensures SameAnswers(b, a)
  {
    forall v ensures VarMod(b, v) == VarMod(a, v) { assert VarMod(a, v) == VarMod(b, v); }
  }

  lemma {:induction false} SameTrans(a: State, b: State, c: State)
    requires SameAnswers(a, b) && SameAnswers(b, c)
    ensures SameAnswers(a, c)
  {
    forall v
      ensures VarMod(a, v) == VarMod(c, v)
    {
      assert VarMod(a, v) == VarMod(b, v) && VarMod(b, v) == VarMod(c, v);
    }
  }

  function Update(st: State, v: VarName, b: Bound, m: Option<M.ModEntry>): State {
    st.(vars := st.vars[v := b], mods := if m.Some? then st.mods[v := m.value] else st.mods)
  }

  /**
   * The class a binding of v leaves behind when the scope is left: a scope that holds a class of v takes its own back.
   */
  function Leaves(s: Scope, v: VarName, m: Option<M.ModEntry>): Option<M.ModEntry> {
    if s.mod.Some? && s.mod.value.0 == v then None else m
  }

  /** What the binding f says of v, whatever else is open. */
  ghost predicate Implied(facts: seq<Fact>, v: VarName, b: Bound, m: Option<M.ModEntry>) {
    && BoundOk(b) && (m.Some? ==> M.Normal(m.value))
    && (forall env :: FactsHold(facts, env) ==> InB(Lookup(env, v), b) && (m.Some? ==> M.In(Lookup(env, v), m.value)))
  }

  /** A binding whose entries the bindings alone imply keeps every level. */
  lemma {:induction false} LayeredBind(st: State, scopes: seq<Scope>, open: seq<Cond>, facts: seq<Fact>, f: Fact,
                                       v: VarName, b: Bound, m: Option<M.ModEntry>)
    requires |scopes| == |open| && Layered(st, scopes, open, facts) && Implied(facts + [f], v, b, m)
    ensures Layered(Update(st, v, b, m), scopes, open, facts + [f])
    decreases |scopes|
  {
    forall env | FactsHold(facts + [f], env) && Meets(env, open) ensures Admits(Update(st, v, b, m), env) {
      forall i | 0 <= i < |facts| ensures FactHolds(facts[i], env) { assert (facts + [f])[i] == facts[i]; }
      assert Admits(st, env);
    }
    if scopes != [] {
      var n := |scopes| - 1;
      var s := scopes[n];
      LayeredBind(Undo(st, s), scopes[..n], open[..n], facts, f, v, b, Leaves(s, v, m));
      UndoUpdate(st, s, v, b, m);
    }
  }

  lemma {:induction false} UndoUpdate(st: State, s: Scope, v: VarName, b: Bound, m: Option<M.ModEntry>)
    ensures Undo(Update(st, v, b, m), s) == Update(Undo(st, s), v, b, Leaves(s, v, m))
  {
  }

  // ----- restored answers -----

  /** Leaving each open scope restores the answers saved for it. */
  ghost predicate Restores(st: State, scopes: seq<Scope>, saved: seq<State>)
    requires |scopes| == |saved|
    decreases |scopes|
  {
    scopes != [] ==>
      var n := |scopes| - 1;
      && SameAnswers(Undo(st, scopes[n]), saved[n])
      && Restores(Undo(st, scopes[n]), scopes[..n], saved[..n])
  }

  lemma {:induction false} RestoresSame(a: State, b: State, scopes: seq<Scope>, saved: seq<State>)
    requires |scopes| == |saved| && SameAnswers(a, b) && Restores(a, scopes, saved)
    ensures Restores(b, scopes, saved)
    decreases |scopes|
  {
    if scopes != [] {
      var n := |scopes| - 1;
      UndoSame(a, b, scopes[n]);
      SameSym(Undo(a, scopes[n]), Undo(b, scopes[n]));
      SameTrans(Undo(b, scopes[n]), Undo(a, scopes[n]), saved[n]);
      RestoresSame(Undo(a, scopes[n]), Undo(b, scopes[n]), scopes[..n], saved[..n]);
    }
  }

  lemma {:induction false} RestoresEnter(st: State, c: Cond, scopes: seq<Scope>, saved: seq<State>)
    requires |scopes| == |saved| && Restores(st, scopes, saved)
    ensures var (st', s) := EnterState(st, c); Restores(st', scopes + [s], saved + [st])
  {
    var (st', s) := EnterState(st, c);
    UndoEnter(st, c);
    SameSym(Undo(st', s), st);
    RestoresSame(st, Undo(st', s), scopes, saved);
    assert (scopes + [s])[..|scopes|] == scopes && (saved + [st])[..|saved|] == saved;
  }

  /** The saved states after a binding: each is updated at v alone. */
  function Rebound(saved: seq<State>, scopes: seq<Scope>, v: VarName, b: Bound, m: Option<M.ModEntry>): (r: seq<State>)
    requires |scopes| == |saved|
    ensures |r| == |saved|
    decreases |scopes|
  {
    if scopes == [] then []
    else
      var n := |scopes| - 1;
      var m' := Leaves(scopes[n], v, m);
      Rebound(saved[..n], scopes[..n], v, b, m') + [Update(saved[n], v, b, m')]
  }

  lemma {:induction false} UpdateSame(a: State, b: State, v: VarName, bound: Bound, m: Option<M.ModEntry>)
    requires SameAnswers(a, b)
    ensures SameAnswers(Update(a, v, bound, m), Update(b, v, bound, m))
  {
    forall w ensures VarMod(Update(a, v, bound, m), w) == VarMod(Update(b, v, bound, m), w) {
      assert VarMod(a, w) == VarMod(b, w);
    }
  }

  /** A binding changes what leaving restores at the bound variable alone. */
  lemma {:induction false} RestoresBind(
    st: State, scopes: seq<Scope>, saved: seq<State>, v: VarName, b: Bound, m: Option<M.ModEntry>)
    requires |scopes| == |saved| && Restores(st, scopes, saved)
    ensures Restores(Update(st, v, b, m), scopes, Rebound(saved, scopes, v, b, m))
    decreases |scopes|
  {
    if scopes != [] {
      var n := |scopes| - 1;
      var s, m' := scopes[n], Leaves(scopes[n], v, m);
      UndoUpdate(st, s, v, b, m);
      UpdateSame(Undo(st, s), saved[n], v, b, m');
      RestoresBind(Undo(st, s), scopes[..n], saved[..n], v, b, m');
      assert Rebound(saved, scopes, v, b, m)[..n] == Rebound(saved[..n], scopes[..n], v, b, m');
    }
  }

  /** The answers about e do not depend on the open constraints. */
  predicate Steady(e: Expr, st: State, scopes: seq<Scope>) {
    BoundOf(e, st) == BoundOf(e, Bottom(st, scopes)) && ModOf(e, st) == ModOf(e, Bottom(st, scopes))
  }

  function RangeBound(lo: Expr, extent: Expr, st: State): Bound {
    var a, b := BoundOf(lo, st), BoundOf(extent, st);
    Bound(a.lo, InfAdd(a.hi, InfAdd(b.hi, -1)))
  }

  /** The answers about e are right, and do not depend on the open constraints. */
  predicate FairValue(e: Expr, st: State, scopes: seq<Scope>) {
    Sized(e) && Steady(e, st, scopes) && Fair(e, Bottom(st, scopes))
  }

  predicate FairRange(lo: Expr, extent: Expr, st: State, scopes: seq<Scope>) {
    FairValue(lo, st, scopes) && FairValue(extent, st, scopes)
  }

  lemma {:induction false} FactAt(facts: seq<Fact>, f: Fact, env: Env)
    requires FactsHold(facts + [f], env)
    ensures FactsHold(facts, env) && FactHolds(f, env)
  {
    assert (facts + [f])[|facts|] == f;
    forall i | 0 <= i < |facts| ensures FactHolds(facts[i], env) { assert (facts + [f])[i] == facts[i]; }
  }

  lemma {:induction false} EqualsImplied(
    st: State, scopes: seq<Scope>, open: seq<Cond>, facts: seq<Fact>, v: VarName, e: Expr)
    requires |scopes| == |open| && Layered(st, scopes, open, facts) && FairValue(e, st, scopes)
    ensures Implied(facts + [Equals(v, e)], v, BoundOf(e, st), Some(ModOf(e, st)))
  {
    var bottom := Bottom(st, scopes);
    BottomAdmits(st, scopes, open, facts);
    BoundRanged(e, bottom);
    ClassNormal(e, bottom);
    forall env | FactsHold(facts + [Equals(v, e)], env)
      ensures InB(Lookup(env, v), BoundOf(e, st)) && M.In(Lookup(env, v), ModOf(e, st))
    {
      FactAt(facts, Equals(v, e), env);
      AnalysisSound(e, bottom, env);
    }
  }

  lemma {:induction false} WithinImplied(
    st: State, scopes: seq<Scope>, open: seq<Cond>, facts: seq<Fact>, v: VarName, lo: Expr, extent: Expr)
    requires |scopes| == |open| && Layered(st, scopes, open, facts) && FairRange(lo, extent, st, scopes)
    ensures Implied(facts + [Within(v, lo, extent)], v, RangeBound(lo, extent, st), None)
  {
    var bottom := Bottom(st, scopes);
    BottomAdmits(st, scopes, open, facts);
    BoundRanged(lo, bottom);
    BoundRanged(extent, bottom);
    var a, b := BoundOf(lo, st), BoundOf(extent, st);
    InfAddRanged(b.hi, -1);
    InfAddRanged(a.hi, InfAdd(b.hi, -1));
    forall env | FactsHold(facts + [Within(v, lo, extent)], env)
      ensures InB(Lookup(env, v), RangeBound(lo, extent, st))
    {
      FactAt(facts, Within(v, lo, extent), env);
      AnalysisSound(lo, bottom, env);
      AnalysisSound(extent, bottom, env);
      RangeEnd(a, b, Eval(lo, env), Eval(extent, env));
    }
  }

  lemma {:induction false} RangeEnd(a: Bound, b: Bound, x: int, y: int)
    requires BoundOk(a) && BoundOk(b) && InB(x, a) && InB(y, b) && Inside(x) && Inside(y) && y > 0 && Inside(x + y)
    ensures x + y - 1 <= InfAdd(a.hi, InfAdd(b.hi, -1))
  {
    InfAddSound(b.hi, -1, y, -1);
    InfAddSound(a.hi, InfAdd(b.hi, -1), x, y - 1);
  }

  class Analyzer {
    var st: State
    var scopes: seq<Scope>
    ghost var facts: seq<Fact>
    ghost var open: seq<Cond>
    /** For every open scope, the state on entry updated by the bindings made since. */
    ghost var saved: seq<State>
    /** Every step so far was fair. */
    ghost var fair: bool

    ghost predicate Valid()
      reads this
    {
      && |scopes| == |open| == |saved|
      && (fair ==> Layered(st, scopes, open, facts)) && Restores(st, scopes, saved)
    }

    constructor ()
      ensures Valid() && fair && facts == [] && open == [] && scopes == [] && st == State(map[], [], map[])
    {
      st, scopes := State(map[], [], map[]), [];
      facts, open, saved, fair := [], [], [], true;
    }

    /**
     * In every state of every run of fair steps: what meets the bindings and the open constraints is answered rightly.
     */
    lemma Answers(e: Expr, env: Env)
      requires Valid() && fair && FactsHold(facts, env) && Meets(env, open)
      requires Sized(e) && Calm(e, env) && Fair(e, st)
      ensures Right(e, st, env)
    {
      assert StateOk(st) && Admits(st, env);
      AnalysisSound(e, st, env);
    }

    method EnterConstraint(c: Cond)
      requires Valid()
      modifies this
      ensures Valid() && facts == old(facts) && open == old(open) + [c]
      ensures fair <==> old(fair) && FairMod(c) && SmallCond(c)
      ensures (st, scopes[|scopes| - 1]) == EnterState(old(st), c) && scopes[..|scopes| - 1] == old(scopes)
      ensures saved == old(saved) + [old(st)]
      ensures Readable(c) && Roomy(c) ==> CutBy(old(st), c, st)
    {
      if Readable(c) && Roomy(c) { AllCut(st, c); }
      var (next, scope) := EnterState(st, c);
      fair := fair && FairMod(c) && SmallCond(c);
      if fair { LayeredEnter(st, c, scopes, open, facts); }
      RestoresEnter(st, c, scopes, saved);
      saved, open := saved + [st], open + [c];
      st, scopes := next, scopes + [scope];
    }

    /** Leaving restores every answer given on entry, but for the variables bound in between. */
    method ExitConstraint()
      requires Valid() && scopes != []
      modifies this
      ensures Valid() && facts == old(facts) && open == old(open)[..|old(open)| - 1] && fair == old(fair)
      ensures saved == old(saved)[..|old(saved)| - 1] && scopes == old(scopes)[..|old(scopes)| - 1]
      ensures SameAnswers(st, old(saved)[|old(saved)| - 1])
    {
      var n := |scopes| - 1;
      st := Undo(st, scopes[n]);
      scopes, open, saved := scopes[..n], open[..n], saved[..n];
    }

    /** Binds a variable to an expression; refused when it is bound to something else. */
    method BindExpr(v: VarName, e: Expr) returns (ok: bool)
      requires Valid()
      modifies this
      ensures Valid() && open == old(open) && scopes == old(scopes)
      ensures !ok ==> st == old(st) && facts == old(facts) && fair == old(fair) && saved == old(saved)
      ensures ok <==>
        && (v in old(st).vars ==> old(st).vars[v] == BoundOf(e, old(st)))
        && (v in old(st).mods ==> old(st).mods[v] == ModOf(e, old(st)))
      ensures ok ==> VarBound(st, v) == BoundOf(e, old(st)) && VarMod(st, v) == ModOf(e, old(st))
      ensures ok ==> facts == old(facts) + [Equals(v, e)]
      ensures ok ==> st == Update(old(st), v, BoundOf(e, old(st)), Some(ModOf(e, old(st))))
      ensures ok ==> saved == Rebound(old(saved), scopes, v, BoundOf(e, old(st)), Some(ModOf(e, old(st))))
      ensures ok ==> (fair <==> old(fair) && FairValue(e, old(st), scopes))
    {
      var b, m := BoundOf(e, st), ModOf(e, st);
      if (v in st.vars && st.vars[v] != b) || (v in st.mods && st.mods[v] != m) {
        return false;
      }
      fair := fair && FairValue(e, st, scopes);
      if fair {
        EqualsImplied(st, scopes, open, facts, v, e);
        LayeredBind(st, scopes, open, facts, Equals(v, e), v, b, Some(m));
      }
      RestoresBind(st, scopes, saved, v, b, Some(m));
      facts, saved := facts + [Equals(v, e)], Rebound(saved, scopes, v, b, Some(m));
      st := Update(st, v, b, Some(m));
      ok := true;
    }

    /** Binds a variable to a range; a single value is bound as an expression. */
    method BindRange(v: VarName, lo: Expr, extent: Expr) returns (ok: bool)
      requires Valid()
      modifies this
      ensures Valid() && open == old(open) && scopes == old(scopes)
      ensures !ok ==> st == old(st) && facts == old(facts) && fair == old(fair) && saved == old(saved)
      ensures extent != Const(1) ==> (ok <==> v in old(st).vars ==> old(st).vars[v] == RangeBound(lo, extent, old(st)))
      ensures ok && extent != Const(1) ==> VarBound(st, v) == RangeBound(lo, extent, old(st))
      ensures ok ==> facts == old(facts) + [if extent == Const(1) then Equals(v, lo) else Within(v, lo, extent)]
      ensures ok ==> (st, saved) == if extent == Const(1)
        then (Update(old(st), v, BoundOf(lo, old(st)), Some(ModOf(lo, old(st)))),
              Rebound(old(saved), scopes, v, BoundOf(lo, old(st)), Some(ModOf(lo, old(st)))))
        else (Update(old(st), v, RangeBound(lo, extent, old(st)), None),
              Rebound(old(saved), scopes, v, RangeBound(lo, extent, old(st)), None))
      ensures ok && extent == Const(1) ==> (fair <==> old(fair) && FairValue(lo, old(st), scopes))
      ensures ok && extent != Const(1) ==> (fair <==> old(fair) && FairRange(lo, extent, old(st), scopes))
    {
      if extent == Const(1) {
        ok := BindExpr(v, lo);
        return;
      }
      var b := RangeBound(lo, extent, st);
      if v in st.vars && st.vars[v] != b {
        return false;
      }
      fair := fair && FairRange(lo, extent, st, scopes);
      if fair {
        WithinImplied(st, scopes, open, facts, v, lo, extent);
        LayeredBind(st, scopes, open, facts, Within(v, lo, extent), v, b, None);
      }
      RestoresBind(st, scopes, saved, v, b, None);
      facts, saved := facts + [Within(v, lo, extent)], Rebound(saved, scopes, v, b, None);
      st := Update(st, v, b, None);
      ok := true;
    }
  }

  /**
   * A binding made under an open constraint keeps what it took from the constraint after the scope is
   * left: entering x < 5, binding y to x and leaving rules out x == y == 10, which the binding allows.
   */
  lemma {:induction false} BindInScopeLeaks()
    ensures
      var (inner, scope) := EnterState(State(map[], [], map[]), LT(Var("x"), Const(5)));
      var bound := Update(inner, "y", BoundOf(Var("x"), inner), Some(ModOf(Var("x"), inner)));
      var env: Env := map["x" := 10, "y" := 10];
      FactHolds(Equals("y", Var("x")), env) && !Admits(Undo(bound, scope), env)
  {
    var c := LT(Var("x"), Const(5));
    assert Conjuncts(c) == [c];
    var i := Info(Var("x"), Bound(NEG, 4));
    assert DetectOne(c) == [i];
    assert DetectAll([c]) == [i] + DetectAll([]);
    var inner := State(map[], [i], map[]);
    assert EnterState(State(map[], [], map[]), c).0 == inner;
    assert Narrow(ANYTHING, [i], Var("x")) == Narrow(IntersectB(ANYTHING, i.b), [], Var("x"));
    assert BoundOf(Var("x"), inner) == Bound(NEG, 4);
    var env: Env := map["x" := 10, "y" := 10];
    assert Lookup(env, "y") == 10;
  }

  /** The values the answers about v leave open. */
  ghost predicate Allows(st: State, v: VarName, z: int) {
    Inside(z) && InB(z, BoundOf(Var(v), st)) && M.In(z, ModOf(Var(v), st))
  }

  /** The state after entering c, binding y to x, and leaving. */
  function BoundInScope(st: State, c: Cond, y: VarName, x: VarName): State {
    var (inner, scope) := EnterState(st, c);
    Undo(Update(inner, y, BoundOf(Var(x), inner), Some(ModOf(Var(x), inner))), scope)
  }

  /** Some valuation that the state and the binding allow is no longer admitted. */
  ghost predicate Loses(st: State, f: Fact, after: State) {
    exists env :: Admits(st, env) && FactHolds(f, env) && !Admits(after, env)
  }

  /** The expressions that constraints speak of. */
  predicate InfoUses(info: seq<Info>, v: VarName) {
    exists i :: 0 <= i < |info| && Uses(info[i].e, v)
  }

  /** The constraint takes from x some value that the bindings and the constraints open before leave it. */
  ghost predicate Narrows(st: State, c: Cond, x: VarName) {
    exists env :: Admits(st, env) && Inside(Lookup(env, x)) && !Allows(EnterState(st, c).0, x, Lookup(env, x))
  }

  /**
   * Whatever is open, a variable bound to x inside one more scope loses an allowed valuation after that scope is left
   * exactly when the scope narrows the bound or the class of x.
   */
  lemma {:induction false} BindLeaksIff(st: State, c: Cond, y: VarName, x: VarName)
    requires x != y && y !in st.vars && y !in st.mods && !InfoUses(st.info, y)
    ensures Loses(st, Equals(y, Var(x)), BoundInScope(st, c, y, x)) <==> Narrows(st, c, x)
  {
    var inner := EnterState(st, c).0;
    if Loses(st, Equals(y, Var(x)), BoundInScope(st, c, y, x)) {
      var env :| Admits(st, env) && FactHolds(Equals(y, Var(x)), env) && !Admits(BoundInScope(st, c, y, x), env);
      assert Eval(Var(x), env) == Lookup(env, x);
      if Allows(inner, x, Lookup(env, x)) { AdmittedAfter(st, c, y, x, env); }
    }
    if Narrows(st, c, x) {
      var env :| Admits(st, env) && Inside(Lookup(env, x)) && !Allows(inner, x, Lookup(env, x));
      LostValue(st, c, y, x, env);
    }
  }

  lemma {:induction false} AdmittedAfter(st: State, c: Cond, y: VarName, x: VarName, env: Env)
    requires Admits(st, env) && Lookup(env, y) == Lookup(env, x)
    requires Allows(EnterState(st, c).0, x, Lookup(env, x))
    ensures Admits(BoundInScope(st, c, y, x), env)
  {
    var (inner, scope) := EnterState(st, c);
    var b, m := BoundOf(Var(x), inner), ModOf(Var(x), inner);
    UndoUpdate(inner, scope, y, b, Some(m));
    UndoEnter(st, c);
    SameSym(Undo(inner, scope), st);
    SameAdmits(st, Undo(inner, scope), env);
  }

  /** Nothing the state says is about y. */
  lemma {:induction false} MovedAdmits(st: State, y: VarName, env0: Env, z: int)
    requires y !in st.vars && y !in st.mods && !InfoUses(st.info, y) && Admits(st, env0)
    ensures Admits(st, env0[y := z])
  {
    var env: Env := env0[y := z];
    forall v | v in st.vars ensures InB(Lookup(env, v), st.vars[v]) { assert InB(Lookup(env0, v), st.vars[v]); }
    forall v | v in st.mods ensures M.In(Lookup(env, v), st.mods[v]) { assert M.In(Lookup(env0, v), st.mods[v]); }
    forall i | 0 <= i < |st.info| ensures InB(Eval(st.info[i].e, env), st.info[i].b) {
      assert !Uses(st.info[i].e, y);
      Coincidence(st.info[i].e, env0, env);
    }
  }

  /** What is left of the binding: its bound, and its class unless the scope takes the class of y back. */
  lemma {:induction false} EntryAfter(st: State, c: Cond, y: VarName, x: VarName)
    requires x != y
    ensures var inner, after := EnterState(st, c).0, BoundInScope(st, c, y, x);
      && y in after.vars && after.vars[y] == BoundOf(Var(x), inner)
      && (VarMod(inner, x) == VarMod(st, x) || (y in after.mods && after.mods[y] == VarMod(inner, x)))
  {
  }

  lemma {:induction false} Excluded(st: State, inner: State, after: State, y: VarName, x: VarName, z: int, env: Env)
    requires Inside(z) && M.In(z, VarMod(st, x)) && !Allows(inner, x, z) && Lookup(env, y) == z
    requires y in after.vars && after.vars[y] == BoundOf(Var(x), inner)
    requires VarMod(inner, x) == VarMod(st, x) || (y in after.mods && after.mods[y] == VarMod(inner, x))
    ensures !Admits(after, env)
  {
    assert ModOf(Var(x), inner) == VarMod(inner, x);
  }

  lemma {:induction false} LostValue(st: State, c: Cond, y: VarName, x: VarName, env0: Env)
    requires x != y && y !in st.vars && y !in st.mods && !InfoUses(st.info, y) && Admits(st, env0)
    requires Inside(Lookup(env0, x)) && !Allows(EnterState(st, c).0, x, Lookup(env0, x))
    ensures Loses(st, Equals(y, Var(x)), BoundInScope(st, c, y, x))
  {
    var z := Lookup(env0, x);
    var env: Env := env0[y := z];
    var inner, after := EnterState(st, c).0, BoundInScope(st, c, y, x);
    MovedAdmits(st, y, env0, z);
    EntryAfter(st, c, y, x);
    M.EverythingHolds(z);
    Excluded(st, inner, after, y, x, z, env);
    assert Lookup(env, y) == z && Eval(Var(x), env) == z;
    assert FactHolds(Equals(y, Var(x)), env);
  }
}
