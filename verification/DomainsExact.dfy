// On expressions that read every variable once the two analyses lose nothing: each member of the class
// is a value, and both ends of the bound are attained.
module DomainsExact {
  import opened Expr
  import opened DivModes
  import opened ConstBound
  import opened Domains
  import M = ModularSet
  import X = ModularExact
  import I = IntOperator

  ghost predicate Apart(a: Expr, b: Expr) {
    forall u :: !(Uses(a, u) && Uses(b, u))
  }

  /** The valuation that is env on the variables of a, and env' elsewhere. */
  function Joined(a: Expr, env: Env, env': Env): Env {
    map v | v in env.Keys + env'.Keys :: if Uses(a, v) then Lookup(env, v) else Lookup(env', v)
  }

  lemma {:induction false} JoinedLookup(a: Expr, env: Env, env': Env, v: VarName)
    ensures Lookup(Joined(a, env, env'), v) == if Uses(a, v) then Lookup(env, v) else Lookup(env', v)
  {
  }

  lemma {:induction false} JoinedValues(a: Expr, b: Expr, env: Env, env': Env)
    requires Apart(a, b)
    ensures Eval(a, Joined(a, env, env')) == Eval(a, env) && Eval(b, Joined(a, env, env')) == Eval(b, env')
  {
    var j := Joined(a, env, env');
    forall v | Uses(a, v) ensures Lookup(j, v) == Lookup(env, v) { JoinedLookup(a, env, env', v); }
    forall v | Uses(b, v) ensures Lookup(j, v) == Lookup(env', v) { JoinedLookup(a, env, env', v); }
    Coincidence(a, j, env);
    Coincidence(b, j, env');
  }

  // ----- congruence classes -----

  /** Sums and differences of different variables, multiplied by constants. */
  ghost predicate LinearOnce(e: Expr) {
    || e.Const? || e.Var?
    || ((e.Add? || e.Sub?) && LinearOnce(e.a) && LinearOnce(e.b) && Apart(e.a, e.b))
    || (e.Mul? && LinearOnce(e.a) && e.b.Const?)
  }

  ghost predicate Respects(st: State, env: Env) {
    forall v :: v in st.mods ==> M.In(Lookup(env, v), st.mods[v])
  }

  ghost predicate ValueOf(e: Expr, st: State, z: int) {
    exists env :: Respects(st, env) && Eval(e, env) == z
  }

  lemma {:induction false} JoinedRespects(a: Expr, st: State, env: Env, env': Env)
    requires Respects(st, env) && Respects(st, env')
    ensures Respects(st, Joined(a, env, env'))
  {
    forall v | v in st.mods ensures M.In(Lookup(Joined(a, env, env'), v), st.mods[v]) {
      JoinedLookup(a, env, env', v);
    }
  }

  /** Every variable at the base of its class. */
  function AtBases(st: State): Env {
    map v | v in st.mods :: st.mods[v].base
  }

  lemma {:induction false} BasesRespect(st: State)
    ensures Respects(st, AtBases(st))
  {
    forall v | v in st.mods ensures M.In(Lookup(AtBases(st), v), st.mods[v]) { X.InStep(st.mods[v], 0); }
  }

  lemma {:induction false} Operands(e: Expr, a: M.ModEntry, b: M.ModEntry, z: int) returns (x: int, y: int)
    requires (e.Add? && M.In(z, M.AddEntry(a, b))) || (e.Sub? && M.In(z, M.SubEntry(a, b)))
    ensures M.In(x, a) && M.In(y, b) && z == if e.Add? then x + y else x - y
  {
    if e.Add? {
      X.AddExact(a, b, z);
      x, y :| M.In(x, a) && M.In(y, b) && z == x + y;
    } else {
      X.SubExact(a, b, z);
      x, y :| M.In(x, a) && M.In(y, b) && z == x - y;
    }
  }

  lemma {:induction false} Multiplicand(e: Expr, st: State, z: int) returns (x: int)
    requires e.Mul? && e.b.Const? && M.In(z, ModOf(e, st))
    ensures M.In(x, ModOf(e.a, st)) && z == x * e.b.value
  {
    assert ModOf(e.b, st) == M.ModEntry(0, e.b.value);
    x := X.ScaledMember(ModOf(e.a, st), e.b.value, z);
  }

  lemma {:induction false} LeafAttained(e: Expr, st: State, z: int) returns (env: Env)
    requires (e.Const? || e.Var?) && M.In(z, ModOf(e, st))
    ensures Respects(st, env) && Eval(e, env) == z
  {
    BasesRespect(st);
    if e.Const? {
      M.MakeEntryIn(0, e.value, z);
      env := AtBases(st);
    } else {
      env := AtBases(st)[e.name := z];
      forall v | v in st.mods ensures M.In(Lookup(env, v), st.mods[v]) {
        assert M.In(Lookup(AtBases(st), v), st.mods[v]);
      }
    }
  }

  /** Every member of the class is a value. */
  lemma {:induction false} MemberAttained(e: Expr, st: State, z: int) returns (env: Env)
    requires LinearOnce(e) && M.In(z, ModOf(e, st))
    ensures Respects(st, env) && Eval(e, env) == z
  {
    if e.Const? || e.Var? {
      env := LeafAttained(e, st, z);
    } else if e.Mul? {
      var x := Multiplicand(e, st, z);
      env := MemberAttained(e.a, st, x);
    } else {
      var x, y := Operands(e, ModOf(e.a, st), ModOf(e.b, st), z);
      var env1 := MemberAttained(e.a, st, x);
      var env2 := MemberAttained(e.b, st, y);
      JoinedValues(e.a, e.b, env1, env2);
      JoinedRespects(e.a, st, env1, env2);
      env := Joined(e.a, env1, env2);
    }
  }

  /** Every value is a member, whatever the bounds. */
  lemma {:induction false} ValueIsMember(e: Expr, st: State, env: Env)
    requires LinearOnce(e) && Respects(st, env)
    ensures M.In(Eval(e, env), ModOf(e, st))
  {
    if e.Const? {
      M.MakeEntryIn(0, e.value, e.value);
      assert e.value - e.value == 0 * 0;
    } else if e.Var? {
      M.EverythingHolds(Lookup(env, e.name));
    } else {
      ValueIsMember(e.a, st, env);
      ValueIsMember(e.b, st, env);
      M.AddSound(ModOf(e.a, st), ModOf(e.b, st), Eval(e.a, env), Eval(e.b, env));
      M.MulSound(ModOf(e.a, st), ModOf(e.b, st), Eval(e.a, env), Eval(e.b, env));
    }
  }

  /** The class of an expression linear in different variables is exactly the set of its values. */
  lemma {:induction false} ClassExact(e: Expr, st: State, z: int)
    requires LinearOnce(e)
    ensures M.In(z, ModOf(e, st)) <==> ValueOf(e, st, z)
  {
    if M.In(z, ModOf(e, st)) {
      var env := MemberAttained(e, st, z);
    }
    if ValueOf(e, st, z) {
      var env :| Respects(st, env) && Eval(e, env) == z;
      ValueIsMember(e, st, env);
    }
  }

  // ----- bounds -----

  /** Sums, differences, products, extremes and quotients by positive constants, of different variables. */
  ghost predicate Once(e: Expr) {
    || e.Const? || e.Var?
    || ((e.Add? || e.Sub? || e.Mul? || e.Min? || e.Max?) && Once(e.a) && Once(e.b) && Apart(e.a, e.b))
    || ((e.FDiv? || e.TDiv?) && Once(e.a) && e.b.Const? && e.b.value > 0)
  }

  /** No bound of the expression or a part of it is infinite. */
  predicate Unsaturated(e: Expr, st: State) {
    && Inside(BoundOf(e, st).lo) && Inside(BoundOf(e, st).hi)
    && match e
       case Const(_) => true
       case Var(v) => v in st.vars
       case Select(_, t, f) => Unsaturated(t, st) && Unsaturated(f, st)
       case _ => Unsaturated(e.a, st) && Unsaturated(e.b, st)
  }

  /** Bounds of variables only, none of them empty. */
  predicate BoundsOnly(st: State) {
    st.info == [] && forall v :: v in st.vars ==> st.vars[v].lo <= st.vars[v].hi
  }

  ghost predicate Keeps(st: State, env: Env) {
    forall v :: v in st.vars ==> InB(Lookup(env, v), st.vars[v])
  }

  lemma {:induction false} JoinedKeeps(a: Expr, st: State, env: Env, env': Env)
    requires Keeps(st, env) && Keeps(st, env')
    ensures Keeps(st, Joined(a, env, env'))
  {
    forall v | v in st.vars ensures InB(Lookup(Joined(a, env, env'), v), st.vars[v]) { JoinedLookup(a, env, env', v); }
  }

  function AtEnd(st: State, low: bool): Env {
    map v | v in st.vars :: if low then st.vars[v].lo else st.vars[v].hi
  }

  function End(b: Bound, low: bool): int { if low then b.lo else b.hi }

  /** Which ends of the operands give the end of the result. */
  lemma {:induction false} EndFrom(e: Expr, x: Bound, y: Bound, r: Bound, low: bool) returns (p: bool, q: bool)
    requires e.Add? || e.Sub? || e.Mul? || e.Min? || e.Max?
    requires Inside(x.lo) && Inside(x.hi) && Inside(y.lo) && Inside(y.hi) && Inside(r.lo) && Inside(r.hi)
    requires r == match e
      case Add(_, _) => Bound(InfAdd(x.lo, y.lo), InfAdd(x.hi, y.hi))
      case Sub(_, _) => Bound(InfAdd(x.lo, -y.hi), InfAdd(x.hi, -y.lo))
      case Mul(_, _) => MulBound(x, y)
      case Min(_, _) => Bound(Lesser(x.lo, y.lo), Lesser(x.hi, y.hi))
      case _ => Bound(Greater(x.lo, y.lo), Greater(x.hi, y.hi))
    ensures var u, v := End(x, p), End(y, q);
      End(r, low) == match e
        case Add(_, _) => u + v
        case Sub(_, _) => u - v
        case Mul(_, _) => u * v
        case Min(_, _) => Lesser(u, v)
        case _ => Greater(u, v)
  {
    if e.Mul? {
      InfMulIsClamp(x.lo, y.lo);
      InfMulIsClamp(x.hi, y.hi);
      InfMulIsClamp(x.lo, y.hi);
      InfMulIsClamp(x.hi, y.lo);
      var z := End(r, low);
      if z == x.lo * y.lo { p, q := true, true; }
      else if z == x.hi * y.hi { p, q := false, false; }
      else if z == x.lo * y.hi { p, q := true, false; }
      else { p, q := false, true; }
    } else {
      p, q := low, if e.Sub? then !low else low;
    }
  }

  lemma Ordered(v1: int, v2: int, v3: int, v4: int)
    ensures Corners(v1, v2, v3, v4).lo <= Corners(v1, v2, v3, v4).hi
  {
  }

  lemma {:induction false} NonEmpty(e: Expr, st: State)
    requires Once(e) && BoundsOnly(st) && Unsaturated(e, st)
    ensures BoundOf(e, st).lo <= BoundOf(e, st).hi
  {
    if e.Const? || e.Var? {
    } else if e.FDiv? || e.TDiv? {
      var m, x, c := if e.FDiv? then Floor else Trunc, BoundOf(e.a, st), e.b.value;
      assert BoundOf(e.b, st) == Bound(c, c);
      Ordered(InfDiv(m, x.lo, c), InfDiv(m, x.hi, c), InfDiv(m, x.lo, c), InfDiv(m, x.hi, c));
    } else {
      NonEmpty(e.a, st);
      NonEmpty(e.b, st);
      var x, y := BoundOf(e.a, st), BoundOf(e.b, st);
      Ordered(InfMul(x.lo, y.lo), InfMul(x.hi, y.hi), InfMul(x.lo, y.hi), InfMul(x.hi, y.lo));
    }
  }

  lemma {:induction false} QuotientEnd(e: Expr, st: State, low: bool)
    requires (e.FDiv? || e.TDiv?) && e.b.Const? && e.b.value > 0 && st.info == []
    requires Unsaturated(e, st) && BoundOf(e.a, st).lo <= BoundOf(e.a, st).hi
    ensures End(BoundOf(e, st), low) ==
      Quot(if e.FDiv? then Floor else Trunc, End(BoundOf(e.a, st), low), e.b.value)
  {
    var m, x, c := if e.FDiv? then Floor else Trunc, BoundOf(e.a, st), e.b.value;
    assert BoundOf(e.b, st) == Bound(c, c);
    QuotMonotone(m, x.lo, x.hi, c);
  }

  /** Both ends of the bound are values of the expression. */
  lemma {:induction false} EndAttained(e: Expr, st: State, low: bool) returns (env: Env)
    requires Once(e) && BoundsOnly(st) && Unsaturated(e, st)
    ensures Keeps(st, env) && Eval(e, env) == End(BoundOf(e, st), low)
  {
    if e.Const? || e.Var? {
      env := AtEnd(st, low);
    } else if e.FDiv? || e.TDiv? {
      env := EndAttained(e.a, st, low);
      NonEmpty(e.a, st);
      QuotientEnd(e, st, low);
    } else {
      var x, y := BoundOf(e.a, st), BoundOf(e.b, st);
      var p, q := EndFrom(e, x, y, RawBound(e, st), low);
      var env1 := EndAttained(e.a, st, p);
      var env2 := EndAttained(e.b, st, q);
      JoinedValues(e.a, e.b, env1, env2);
      JoinedKeeps(e.a, st, env1, env2);
      env := Joined(e.a, env1, env2);
    }
  }

  /** So no interval around all values is narrower. */
  lemma {:induction false} BoundTightest(e: Expr, st: State, b: Bound)
    requires Once(e) && BoundsOnly(st) && Unsaturated(e, st)
    requires forall env :: Keeps(st, env) ==> InB(Eval(e, env), b)
    ensures b.lo <= BoundOf(e, st).lo && BoundOf(e, st).hi <= b.hi
  {
    var env1 := EndAttained(e, st, true);
    var env2 := EndAttained(e, st, false);
  }

  lemma Factors(g: int, k: int)
    requires g * k == 1
    ensures g <= 1
  {
  }

  lemma {:induction false} GcdWithOne(c: int)
    ensures I.Gcd(1, c) <= 1
  {
    I.GcdSpec(1, c, 1);
    var k :| 1 == I.Gcd(1, c) * k;
    Factors(I.Gcd(1, c), k);
  }

  /** The remainder of a variable that takes all remainders. */
  lemma {:induction false} RemainderEnd(v: VarName, c: int, st: State, low: bool) returns (env: Env)
    requires BoundsOnly(st) && v in st.vars && v !in st.mods && 0 < c && Inside(c)
    requires st.vars[v].lo <= 0 && c - 1 <= st.vars[v].hi
    ensures Keeps(st, env) && Eval(FMod(Var(v), Const(c)), env) == End(BoundOf(FMod(Var(v), Const(c)), st), low)
  {
    var x := if low then 0 else c - 1;
    env := AtEnd(st, true)[v := x];
    QuotUnique(Floor, x, c, 0, x);
    GcdWithOne(c);
    assert BoundOf(Const(c), st) == Bound(c, c);
    assert BoundOf(Var(v), st) == RawBound(Var(v), st) == VarBound(st, v);
    assert RawBound(FMod(Var(v), Const(c)), st) == RemBound(Floor, st.vars[v], Bound(c, c), M.EVERYTHING);
    assert PlainMod(Floor, st.vars[v], Bound(c, c)) == Bound(0, c - 1);
  }
}
