// Forms in which every scale is non-negative and every factor positive: what divisions of such
// expressions are folded into is always right.
module CanonicalSign {
  import opened Expr
  import opened DivModes
  import opened CanonicalForm

  /** What is allowed: floored divisions only, or truncated ones too; negative constants as offsets. */
  datatype Kind = Kind(floored: bool, signed: bool)

  const ANY := Kind(false, true)

  const LEAN := Kind(true, true)

  /** No term is subtracted or multiplied by a negative constant. */
  predicate Upright(e: Expr, k: Kind) {
    match e
    case Const(c) => k.signed || c >= 0
    case Var(_) => true
    case Add(a, b) => Upright(a, k) && Upright(b, k)
    case Sub(a, b) => k.signed && Upright(a, k) && b.Const?
    case Mul(a, b) =>
      || (Upright(a, Kind(k.floored, false)) && Upright(b, Kind(k.floored, false)))
      || (a.Const? && a.value >= 0 && Upright(b, k)) || (b.Const? && b.value >= 0 && Upright(a, k))
    case FDiv(a, b) => Upright(a, k) && Upright(b, k)
    case FMod(a, b) => Upright(a, k) && Upright(b, k)
    case TDiv(a, b) => !k.floored && Upright(a, k) && Upright(b, k)
    case TMod(a, b) => !k.floored && Upright(a, k) && Upright(b, k)
    case _ => false
  }

  /** A sum, or a floored quotient of one by a positive constant: never a single split. */
  predicate Summed(e: Expr) {
    e.Add? || e.Sub? || (e.FDiv? && Summed(e.a) && e.b.Const? && e.b.value > 0)
  }

  predicate NoSplit(c: Canon) {
    c.AsSum? || (c.Plain? && c.e.Const?)
  }

  /** A sum of upright terms and of terms without divisions, which may have any sign and be subtracted. */
  predicate Mild(e: Expr, k: Kind) {
    || Divs(e) == 0 || Upright(e, k)
    || (e.Add? && Mild(e.a, k) && Mild(e.b, k)) || (e.Sub? && Mild(e.a, k) && Divs(e.b) == 0)
    || (e.Mul? && Mild(e.a, k) && e.b.Const? && e.b.value >= 0)
  }

  /** Every dividend is mild, or the sum of a floored quotient. */
  predicate Safe(e: Expr) {
    match e
    case Const(_) => true
    case Var(_) => true
    case Add(a, b) => Safe(a) && Safe(b)
    case Sub(a, b) => Safe(a) && Safe(b)
    case Mul(a, b) => Safe(a) && Safe(b)
    case FDiv(a, b) => Safe(a) && Safe(b) && (Mild(a, ANY) || Summed(a))
    case FMod(a, b) => Safe(a) && Safe(b) && Mild(a, ANY)
    case TDiv(a, b) => Safe(a) && Safe(b) && Mild(a, ANY)
    case TMod(a, b) => Safe(a) && Safe(b) && Mild(a, ANY)
    case _ => true
  }

  lemma {:induction false} UprightWidens(e: Expr, k: Kind)
    requires Upright(e, k)
    ensures Upright(e, ANY)
    decreases e, 1
  {
    match e
    case Add(a, b) => UprightWidens(a, k); UprightWidens(b, k);
    case Sub(a, _) => UprightWidens(a, k);
    case Mul(a, b) => FactorsWiden(a, b, k);
    case FDiv(a, b) => UprightWidens(a, k); UprightWidens(b, k);
    case FMod(a, b) => UprightWidens(a, k); UprightWidens(b, k);
    case TDiv(a, b) => UprightWidens(a, k); UprightWidens(b, k);
    case TMod(a, b) => UprightWidens(a, k); UprightWidens(b, k);
    case _ =>
  }

  lemma {:induction false} FactorsWiden(a: Expr, b: Expr, k: Kind)
    requires Upright(Mul(a, b), k)
    ensures Upright(Mul(a, b), ANY)
    decreases Mul(a, b), 0
  {
    if Upright(a, Kind(k.floored, false)) && Upright(b, Kind(k.floored, false)) {
      UnsignedWidens(a, k.floored);
      UnsignedWidens(b, k.floored);
    } else if a.Const? && a.value >= 0 && Upright(b, k) {
      UprightWidens(b, k);
    } else {
      UprightWidens(a, k);
    }
  }

  lemma {:induction false} UnsignedWidens(e: Expr, floored: bool)
    requires Upright(e, Kind(floored, false))
    ensures Upright(e, Kind(false, false))
  {
    match e
    case Add(a, b) => UnsignedWidens(a, floored); UnsignedWidens(b, floored);
    case Mul(a, b) => UnsignedWidens(a, floored); UnsignedWidens(b, floored);
    case FDiv(a, b) => UnsignedWidens(a, floored); UnsignedWidens(b, floored);
    case FMod(a, b) => UnsignedWidens(a, floored); UnsignedWidens(b, floored);
    case TDiv(a, b) => UnsignedWidens(a, floored); UnsignedWidens(b, floored);
    case TMod(a, b) => UnsignedWidens(a, floored); UnsignedWidens(b, floored);
    case _ =>
  }

  lemma {:induction false} UprightIsSafe(e: Expr, k: Kind)
    requires Upright(e, k)
    ensures Safe(e)
    decreases e, 1
  {
    match e
    case Add(a, b) => UprightIsSafe(a, k); UprightIsSafe(b, k);
    case Sub(a, _) => UprightIsSafe(a, k);
    case Mul(a, b) => FactorsSafe(a, b, k);
    case FDiv(a, b) => UprightIsSafe(a, k); UprightIsSafe(b, k); UprightWidens(a, k);
    case FMod(a, b) => UprightIsSafe(a, k); UprightIsSafe(b, k); UprightWidens(a, k);
    case TDiv(a, b) => UprightIsSafe(a, k); UprightIsSafe(b, k); UprightWidens(a, k);
    case TMod(a, b) => UprightIsSafe(a, k); UprightIsSafe(b, k); UprightWidens(a, k);
    case _ =>
  }

  lemma {:induction false} FactorsSafe(a: Expr, b: Expr, k: Kind)
    requires Upright(Mul(a, b), k)
    ensures Safe(Mul(a, b))
    decreases Mul(a, b), 0
  {
    if Upright(a, Kind(k.floored, false)) && Upright(b, Kind(k.floored, false)) {
      UprightIsSafe(a, Kind(k.floored, false));
      UprightIsSafe(b, Kind(k.floored, false));
    } else if a.Const? && a.value >= 0 && Upright(b, k) {
      UprightIsSafe(b, k);
    } else {
      UprightIsSafe(a, k);
    }
  }

  lemma {:induction false} UndividedIsSafe(e: Expr)
    requires Divs(e) == 0
    ensures Safe(e)
  {
    match e
    case Add(a, b) => UndividedIsSafe(a); UndividedIsSafe(b);
    case Sub(a, b) => UndividedIsSafe(a); UndividedIsSafe(b);
    case Mul(a, b) => UndividedIsSafe(a); UndividedIsSafe(b);
    case _ =>
  }

  lemma {:induction false} MildIsSafe(e: Expr, k: Kind)
    requires Mild(e, k)
    ensures Safe(e)
  {
    if Divs(e) == 0 {
      UndividedIsSafe(e);
    } else if Upright(e, k) {
      UprightIsSafe(e, k);
    } else if e.Add? {
      MildIsSafe(e.a, k);
      MildIsSafe(e.b, k);
    } else {
      MildIsSafe(e.a, k);
      if e.Sub? { UndividedIsSafe(e.b); }
    }
  }

  predicate UprightSplit(s: SplitExpr, k: Kind) {
    && s.scale >= 0 && s.lower > 0 && (s.upper.Some? ==> s.upper.value > 0) && Upright(s.index, k)
    && (k.floored ==> s.mode == Floor || s.IsWhole())
  }

  predicate AllUpright(args: seq<SplitExpr>, k: Kind) {
    forall i :: 0 <= i < |args| ==> UprightSplit(args[i], k)
  }

  predicate UprightSum(sum: SumForm, k: Kind) {
    AllUpright(sum.args, k) && (k.signed || sum.base >= 0)
  }

  predicate UprightCanon(c: Canon, k: Kind) {
    match c
    case Plain(e) => Upright(e, k)
    case AsSplit(s) => UprightSplit(s, k)
    case AsSum(sum) => UprightSum(sum, k)
  }

  // ----- terms with factors -----

  /** A term with a factor is upright; whole terms may have any scale. */
  predicate MildSplit(s: SplitExpr, k: Kind) {
    s.IsWhole() || UprightSplit(s, k)
  }

  predicate AllMild(args: seq<SplitExpr>, k: Kind) {
    forall i :: 0 <= i < |args| ==> MildSplit(args[i], k)
  }

  predicate MildCanon(c: Canon, k: Kind) {
    match c
    case Plain(_) => true
    case AsSplit(s) => MildSplit(s, k)
    case AsSum(sum) => AllMild(sum.args, k)
  }

  lemma {:induction false} FreeIsWhole(args: seq<SplitExpr>)
    requires ArgsCost(args) == 0
    ensures forall i :: 0 <= i < |args| ==> args[i].IsWhole()
  {
    if args != [] {
      FreeIsWhole(args[1..]);
      assert args == [args[0]] + args[1..];
    }
  }

  lemma {:induction false} FreeIsMild(c: Canon, k: Kind)
    requires Cost(c) == 0
    ensures MildCanon(c, k)
  {
    if c.AsSum? { FreeIsWhole(c.sum.args); }
  }

  // ----- back to expressions -----

  lemma {:induction false} UprightMod(m: DivMode, e: Expr, c: int, k: Kind)
    requires Upright(e, k) && c > 0 && (k.floored ==> m == Floor)
    ensures Upright(MkMod(m, e, c), k) && Upright(MkDiv(m, e, c), k)
  {
  }

  lemma {:induction false} UprightCore(s: SplitExpr, k: Kind)
    requires UprightSplit(s, k)
    ensures Upright(CoreExpr(s), k)
  {
    if s.upper.Some? { UprightMod(s.mode, s.index, s.upper.value, k); }
    if s.lower != 1 { UprightMod(s.mode, ReducedExpr(s), s.lower, k); }
  }

  lemma {:induction false} UprightAdd(a: Expr, b: Expr, k: Kind)
    requires Upright(a, k) && Upright(b, k)
    ensures Upright(MkAdd(a, b), k) && (k.signed && b.Const? ==> Upright(MkSub(a, b), k))
  {
  }

  lemma {:induction false} UprightMul(a: Expr, c: int, k: Kind)
    requires Upright(a, k) && c >= 0
    ensures Upright(MkMul(a, Const(c)), k)
  {
    if a.Const? && a.value >= 0 { NonNegative(a.value, c); }
  }

  lemma {:induction false} UprightProduct(a: Expr, b: Expr, k: Kind)
    requires Upright(a, Kind(k.floored, false)) && Upright(b, Kind(k.floored, false))
    ensures Upright(MkMul(a, b), Kind(k.floored, false))
  {
    if a.Const? && b.Const? { NonNegative(a.value, b.value); }
  }

  lemma NonNegative(a: int, b: int)
    requires a >= 0 && b >= 0
    ensures a * b >= 0
  {
  }

  lemma {:induction false} UprightNormal(s: SplitExpr, k: Kind)
    requires UprightSplit(s, k)
    ensures Upright(NormalizeWithScale(s, 1), k)
  {
    UprightCore(s, k);
    UprightMul(CoreExpr(s), s.scale, k);
  }

  // ----- what the operations on terms keep -----

  /** The second list is upright, and mild, wherever the first is. */
  ghost predicate KeepsSigns(before: seq<SplitExpr>, after: seq<SplitExpr>) {
    forall k :: (AllUpright(before, k) ==> AllUpright(after, k)) && (AllMild(before, k) ==> AllMild(after, k))
  }

  lemma {:induction false} JoinSigns(args: seq<SplitExpr>, j: nat, t: SplitExpr)
    requires j < |args| && args[j].lower == t.lower && args[j].upper == t.upper
    ensures var r := args[j := args[j].(scale := args[j].scale + t.scale)];
      && (forall k :: AllUpright(args, k) && UprightSplit(t, k) ==> AllUpright(r, k))
      && (forall k :: AllMild(args, k) && MildSplit(t, k) ==> AllMild(r, k))
  {
  }

  lemma {:induction false} InsertSigns(args: seq<SplitExpr>, j: nat, t: SplitExpr)
    requires j <= |args|
    ensures var r := Insert(args, j, t);
      && (forall k :: AllUpright(args, k) && UprightSplit(t, k) ==> AllUpright(r, k))
      && (forall k :: AllMild(args, k) && MildSplit(t, k) ==> AllMild(r, k))
  {
    var r := Insert(args, j, t);
    assert forall i :: 0 <= i < |r| ==> r[i] == if i < j then args[i] else if i == j then t else args[i - 1];
  }

  lemma {:induction false} ScaleSigns(t: SplitExpr, c: int)
    ensures var r := t.(scale := t.scale * c);
      && (c >= 0 ==> forall k :: UprightSplit(t, k) ==> UprightSplit(r, k))
      && (c >= 0 || t.IsWhole() ==> forall k :: MildSplit(t, k) ==> MildSplit(r, k))
  {
    if t.scale >= 0 && c >= 0 { NonNegative(t.scale, c); }
  }

  lemma {:induction false} SameTerms(before: seq<SplitExpr>, after: seq<SplitExpr>)
    requires multiset(before) == multiset(after)
    ensures KeepsSigns(before, after)
  {
    forall i | 0 <= i < |after| ensures exists j :: 0 <= j < |before| && before[j] == after[i] {
      assert after[i] in multiset(after);
      assert after[i] in multiset(before);
    }
  }

  /** Offsets may be dropped from what is asked. */
  lemma {:induction false} SignedWidens(e: Expr, floored: bool)
    requires Upright(e, Kind(floored, false))
    ensures Upright(e, Kind(floored, true))
  {
    match e
    case Add(a, b) => SignedWidens(a, floored); SignedWidens(b, floored);
    case FDiv(a, b) => SignedWidens(a, floored); SignedWidens(b, floored);
    case FMod(a, b) => SignedWidens(a, floored); SignedWidens(b, floored);
    case TDiv(a, b) => SignedWidens(a, floored); SignedWidens(b, floored);
    case TMod(a, b) => SignedWidens(a, floored); SignedWidens(b, floored);
    case _ =>
  }

  lemma {:induction false} SignedCanon(c: Canon, floored: bool)
    requires UprightCanon(c, Kind(floored, false))
    ensures UprightCanon(c, Kind(floored, true))
  {
    match c
    case Plain(e) => SignedWidens(e, floored);
    case AsSplit(s) => SignedWidens(s.index, floored);
    case AsSum(sum) =>
      forall i | 0 <= i < |sum.args|
        ensures UprightSplit(sum.args[i], Kind(floored, true))
      {
        SignedWidens(sum.args[i].index, floored);
      }
  }
}
