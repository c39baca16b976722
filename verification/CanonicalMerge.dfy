// Merging the splits of a sum and turning the sum back into an expression.
module CanonicalMerge {
  import opened Expr
  import opened DivModes
  import opened CanonicalForm
  import opened CanonicalSign
  import opened CanonicalSum
  import I = IntOperator

  /** lhs continues rhs: its lower factor is rhs's upper one, and the scales agree. */
  predicate Continues(lhs: SplitExpr, rhs: SplitExpr) {
    && Some(lhs.lower) == rhs.upper && rhs.scale != 0 && Divisible(lhs.scale, rhs.scale)
    && lhs.lower == I.TruncDiv(lhs.scale, rhs.scale) * rhs.lower && lhs.CompatibleTo(rhs.mode)
  }

  /** Two consecutive digits of one index are one digit over both ranges, in either mode. */
  lemma {:induction false} MergeVal(lhs: SplitExpr, rhs: SplitExpr, env: Env)
    requires lhs.Valid() && rhs.Valid() && lhs.index == rhs.index && Continues(lhs, rhs)
    ensures rhs.(upper := lhs.upper).Valid()
    ensures SplitVal(rhs.(upper := lhs.upper), env) == SplitVal(lhs, env) + SplitVal(rhs, env)
  {
    var s, v := I.TruncDiv(lhs.scale, rhs.scale), Eval(lhs.index, env);
    I.ExactDiv(rhs.scale, lhs.scale);
    assert lhs.lower == rhs.lower * s;
    assert I.Divides(rhs.lower, lhs.lower);
    if lhs.upper.Some? { I.DividesTrans(rhs.lower, lhs.lower, lhs.upper.value); }
    var merged := rhs.(upper := lhs.upper);
    MergeCore(lhs, rhs, merged, s, v);
    assert lhs.scale * Core(lhs, v) == rhs.scale * (s * Core(lhs, v)) by { Assoc(rhs.scale, s, Core(lhs, v)); }
    Spread2(rhs.scale, s * Core(lhs, v), Core(rhs, v));
  }

  lemma {:induction false} MergeCore(lhs: SplitExpr, rhs: SplitExpr, merged: SplitExpr, s: int, v: int)
    requires lhs.Valid() && rhs.Valid() && merged == rhs.(upper := lhs.upper) && merged.Valid()
    requires Some(lhs.lower) == rhs.upper && lhs.lower == s * rhs.lower && lhs.CompatibleTo(rhs.mode)
    ensures Core(merged, v) == s * Core(lhs, v) + Core(rhs, v)
  {
    var m, n, y := rhs.mode, lhs.lower, Reduced(merged, v);
    FactorNonZero(s, rhs.lower);
    assert Core(lhs, v) == Quot(m, y, n) by {
      if lhs.mode != m {
        DivideByOne(lhs.mode, v);
        DivideByOne(m, v);
      }
    }
    if lhs.upper.Some? { RemRem(m, v, lhs.upper.value, n); }
    Join(m, y, s, rhs.lower);
  }

  lemma FactorNonZero(a: int, b: int)
    requires a * b != 0
    ensures a != 0
  {
  }

  /** As many terms, of the same value and no more divisions, and as upright. */
  ghost predicate SameSum(terms: seq<SplitExpr>, args: seq<SplitExpr>) {
    && AllValid(args) && |args| == |terms| && ArgsCost(args) <= ArgsCost(terms)
    && (forall env :: ArgsVal(args, env) == ArgsVal(terms, env))
    && (forall k :: AllUpright(terms, k) ==> AllUpright(args, k))
  }

  lemma {:induction false} SameSumTrans(a: seq<SplitExpr>, b: seq<SplitExpr>, c: seq<SplitExpr>)
    requires SameSum(a, b) && SameSum(b, c)
    ensures SameSum(a, c)
  {
  }

  /** Neighbours of one index that are one term: the same digit twice, or consecutive digits. */
  predicate Joinable(lhs: SplitExpr, rhs: SplitExpr) {
    && lhs.scale != 0 && rhs.scale != 0 && lhs.index == rhs.index
    && !(lhs.upper.Some? && lhs.upper.value < rhs.lower) && (Like(rhs, lhs) || Continues(lhs, rhs))
  }

  /** None of the first n terms can be joined to its neighbour. */
  predicate Parted(args: seq<SplitExpr>, n: nat) {
    forall i :: 0 <= i < n && i + 1 < |args| ==> !Joinable(args[i], args[i + 1])
  }

  /** One pass over the pairs of equal index: like terms are joined, consecutive ones merged, until none are left. */
  method MergeSplits(terms: seq<SplitExpr>) returns (args: seq<SplitExpr>)
    requires AllValid(terms)
    ensures SameSum(terms, args)
    ensures Parted(args, |args|) && (Bares(terms) ==> args == terms)
  {
    args := terms;
    for i := 0 to |args|
      invariant SameSum(terms, args) && (Bares(terms) ==> args == terms)
      invariant Parted(args, i)
    {
      if args[i].scale != 0 {
        var j := i + 1;
        while j < |args|
          invariant i < j <= |args| && SameSum(terms, args) && (Bares(terms) ==> args == terms)
          invariant Parted(args, i) && (j > i + 1 ==> !Joinable(args[i], args[i + 1]))
        {
          ghost var before := args;
          var lhs, rhs := args[i], args[j];
          if lhs.index != rhs.index || (lhs.upper.Some? && lhs.upper.value < rhs.lower) {
            break;
          }
          if lhs.upper == rhs.upper && lhs.lower == rhs.lower && lhs.CompatibleTo(rhs.mode) {
            args := Replace(args, i, lhs.(scale := 0), j, rhs.(scale := rhs.scale + lhs.scale));
            SameSumTrans(terms, before, args);
          } else if Continues(lhs, rhs) {
            args := Replace(args, i, lhs.(scale := 0), j, rhs.(upper := lhs.upper));
            SameSumTrans(terms, before, args);
            break;
          }
          j := j + 1;
        }
      }
    }
  }

  /** Both updates at once: what i loses, j gains. */
  method Replace(args: seq<SplitExpr>, i: nat, lhs: SplitExpr, j: nat, rhs: SplitExpr) returns (r: seq<SplitExpr>)
    requires AllValid(args) && i < j < |args| && lhs == args[i].(scale := 0) && args[i].index == args[j].index
    requires
      || (Like(args[j], args[i]) && rhs == args[j].(scale := args[j].scale + args[i].scale))
      || (Continues(args[i], args[j]) && rhs == args[j].(upper := args[i].upper))
    ensures SameSum(args, r) && r == args[i := lhs][j := rhs]
  {
    r := args[i := lhs][j := rhs];
    ArgsUpdate(args, i, lhs);
    ArgsUpdate(args[i := lhs], j, rhs);
    forall env ensures rhs.Valid() && ArgsVal(r, env) == ArgsVal(args, env) {
      assert SplitVal(lhs, env) == 0;
      if Like(args[j], args[i]) && rhs == args[j].(scale := args[j].scale + args[i].scale) {
        JoinLike(args[j], args[i], env);
      } else {
        MergeVal(args[i], args[j], env);
      }
    }
    assert rhs.Valid() by { var env: Env := map[]; assert ArgsVal(r, env) == ArgsVal(args, env); }
  }

  // ----- the order of the normal form -----

  function UpperRank(s: SplitExpr, t: SplitExpr): int {
    if s.upper == t.upper then 0
    else if s.upper.None? then 1
    else if t.upper.None? then -1
    else s.upper.value - t.upper.value
  }

  /** By descending scale, lower factor, upper factor and mode. */
  predicate Before(s: SplitExpr, t: SplitExpr) {
    if s.scale != t.scale then s.scale > t.scale
    else if s.lower != t.lower then s.lower > t.lower
    else if UpperRank(s, t) != 0 then UpperRank(s, t) > 0
    else s.mode == Floor && t.mode == Trunc
  }

  ghost predicate Ordered(args: seq<SplitExpr>) {
    forall i, j :: 0 <= i < j < |args| ==> !Before(args[j], args[i])
  }

  lemma BeforeTrans(a: SplitExpr, b: SplitExpr, c: SplitExpr)
    requires Before(a, b) && Before(b, c)
    ensures Before(a, c)
  {
  }

  lemma {:induction false} InsertOrdered(args: seq<SplitExpr>, p: nat, s: SplitExpr)
    requires Ordered(args) && p <= |args| && (forall t :: 0 <= t < p ==> !Before(s, args[t]))
    requires (p < |args| ==> Before(s, args[p]))
    ensures Ordered(Insert(args, p, s))
  {
    var r := Insert(args, p, s);
    assert forall t :: 0 <= t < |r| ==> r[t] == if t < p then args[t] else if t == p then s else args[t - 1];
    forall t | p <= t < |args| ensures !Before(args[t], s) {
      if Before(args[t], s) { BeforeTrans(args[t], s, args[p]); }
    }
  }

  lemma {:induction false} InsertBag(args: seq<SplitExpr>, p: nat, s: SplitExpr)
    requires p <= |args|
    ensures multiset(Insert(args, p, s)) == multiset(args) + multiset{s}
  {
    assert args == args[..p] + args[p..];
  }

  /** Puts a term after those it does not come before. */
  method PlaceSplit(terms: seq<SplitExpr>, s: SplitExpr) returns (args: seq<SplitExpr>)
    requires AllValid(terms) && s.Valid() && Ordered(terms)
    ensures Ordered(args) && multiset(args) == multiset(terms) + multiset{s} && AllValid(args)
    ensures ArgsCost(args) == ArgsCost(terms) + SplitCost(s)
    ensures forall env :: ArgsVal(args, env) == ArgsVal(terms, env) + SplitVal(s, env)
  {
    var p := 0;
    while p < |terms| && !Before(s, terms[p])
      invariant p <= |terms| && forall t :: 0 <= t < p ==> !Before(s, terms[t])
    {
      p := p + 1;
    }
    InsertOrdered(terms, p, s);
    ArgsInsert(terms, p, s);
    InsertBag(terms, p, s);
    args := Insert(terms, p, s);
  }

  /** The stable sort that puts the terms in order. */
  method SortSplits(terms: seq<SplitExpr>) returns (args: seq<SplitExpr>)
    requires AllValid(terms)
    ensures Ordered(args) && multiset(args) == multiset(terms) && AllValid(args) && ArgsCost(args) == ArgsCost(terms)
    ensures forall env :: ArgsVal(args, env) == ArgsVal(terms, env)
  {
    args := [];
    for i := 0 to |terms|
      invariant Ordered(args) && multiset(args) == multiset(terms[..i]) && AllValid(args)
      invariant ArgsCost(args) == ArgsCost(terms[..i])
      invariant forall env :: ArgsVal(args, env) == ArgsVal(terms[..i], env)
    {
      PrefixStep(terms, i);
      assert terms[..i + 1] == terms[..i] + [terms[i]];
      args := PlaceSplit(args, terms[i]);
    }
    assert terms[..|terms|] == terms;
  }

  /** Merged and sorted, with the value of the original terms. */
  method SimplifySplitExprs(terms: seq<SplitExpr>) returns (args: seq<SplitExpr>)
    requires AllValid(terms)
    ensures AllValid(args) && Ordered(args) && |args| == |terms| && ArgsCost(args) <= ArgsCost(terms)
    ensures forall env :: ArgsVal(args, env) == ArgsVal(terms, env)
    ensures forall k :: AllUpright(terms, k) ==> AllUpright(args, k)
    ensures Bares(terms) ==> multiset(args) == multiset(terms)
  {
    var merged := MergeSplits(terms);
    args := SortSplits(merged);
    SameTerms(merged, args);
    assert |multiset(args)| == |multiset(merged)|;
  }

  // ----- the expression -----

  predicate Signed(s: SplitExpr, positive: bool) {
    if positive then s.scale > 0 else s.scale < 0
  }

  /** What the terms of one sign contribute. */
  ghost function PartVal(args: seq<SplitExpr>, positive: bool, env: Env): int {
    if args == [] then 0
    else (if Signed(args[0], positive) then SplitVal(args[0], env) else 0) + PartVal(args[1..], positive, env)
  }

  ghost function PartCost(args: seq<SplitExpr>, positive: bool): nat {
    if args == [] then 0
      else (if Signed(args[0], positive) then SplitCost(args[0]) else 0) + PartCost(args[1..], positive)
  }

  lemma {:induction false} PartsAddUp(args: seq<SplitExpr>, env: Env)
    ensures PartVal(args, true, env) + PartVal(args, false, env) == ArgsVal(args, env)
    ensures PartCost(args, true) + PartCost(args, false) <= ArgsCost(args)
  {
    if args != [] { PartsAddUp(args[1..], env); }
  }

  lemma {:induction false} PartFront(args: seq<SplitExpr>, i: nat, positive: bool, env: Env)
    requires i < |args|
    ensures PartVal(args[i..], positive, env) ==
      (if Signed(args[i], positive) then SplitVal(args[i], env) else 0) + PartVal(args[i + 1..], positive, env)
    ensures PartCost(args[i..], positive) ==
      (if Signed(args[i], positive) then SplitCost(args[i]) else 0) + PartCost(args[i + 1..], positive)
  {
    assert args[i..][1..] == args[i + 1..];
  }

  lemma {:induction false} AddDivs(a: Expr, b: Expr)
    ensures Divs(MkAdd(a, b)) <= Divs(a) + Divs(b) && Divs(MkSub(a, b)) <= Divs(a) + Divs(b)
  {
  }

  /** One more term of the wanted sign. */
  function AddTerm(e: Expr, s: SplitExpr, positive: bool): Expr {
    if !Signed(s, positive) then e
    else if positive then MkAdd(e, NormalizeWithScale(s, 1))
    else MkSub(e, NormalizeWithScale(s, -1))
  }

  lemma {:induction false} AddTermVal(e: Expr, s: SplitExpr, positive: bool, env: Env)
    requires s.Valid()
    ensures Eval(AddTerm(e, s, positive), env) == Eval(e, env) + if Signed(s, positive) then SplitVal(s, env) else 0
    ensures Divs(AddTerm(e, s, positive)) <= Divs(e) + if Signed(s, positive) then SplitCost(s) else 0
    ensures forall k :: Upright(e, k) && UprightSplit(s, k) ==> Upright(AddTerm(e, s, positive), k)
  {
    forall k | Upright(e, k) && UprightSplit(s, k) ensures Upright(AddTerm(e, s, positive), k) {
      UprightNormal(s, k);
      UprightAdd(e, NormalizeWithScale(s, 1), k);
    }
    NormalizeSplitVal(s, 1, env);
    NormalizeSplitVal(s, -1, env);
    AddDivs(e, NormalizeWithScale(s, 1));
    AddDivs(e, NormalizeWithScale(s, -1));
  }

  /** v is used by a term that is not zero. */
  predicate Reads(args: seq<SplitExpr>, v: VarName) {
    exists i :: 0 <= i < |args| && args[i].scale != 0 && Uses(args[i].index, v)
  }

  predicate AllZero(args: seq<SplitExpr>) {
    forall i :: 0 <= i < |args| ==> args[i].scale == 0
  }

  lemma {:induction false} DivisionUses(m: DivMode, e: Expr, c: int, v: VarName)
    ensures (Uses(MkMod(m, e, c), v) ==> Uses(e, v)) && (Uses(MkDiv(m, e, c), v) ==> Uses(e, v))
  {
    assert !Uses(Const(c), v);
  }

  lemma {:induction false} AddTermUses(e: Expr, s: SplitExpr, positive: bool, v: VarName)
    requires Uses(AddTerm(e, s, positive), v)
    ensures Uses(e, v) || (s.scale != 0 && Uses(s.index, v))
  {
    if s.upper.Some? { DivisionUses(s.mode, s.index, s.upper.value, v); }
    DivisionUses(s.mode, ReducedExpr(s), s.lower, v);
  }

  method AddTerms(args: seq<SplitExpr>, acc: Expr, positive: bool) returns (e: Expr)
    requires AllValid(args)
    ensures forall v :: Uses(e, v) ==> Uses(acc, v) || Reads(args, v)
    ensures AllZero(args) ==> e == acc
    ensures forall env :: Eval(e, env) == Eval(acc, env) + PartVal(args, positive, env)
    ensures Divs(e) <= Divs(acc) + PartCost(args, positive)
    ensures forall k :: Upright(acc, k) && AllUpright(args, k) ==> Upright(e, k)
  {
    e := acc;
    for i := 0 to |args|
      invariant forall v :: Uses(e, v) ==> Uses(acc, v) || Reads(args, v)
      invariant AllZero(args) ==> e == acc
      invariant forall env ::
        Eval(e, env) + PartVal(args[i..], positive, env) == Eval(acc, env) + PartVal(args, positive, env)
      invariant Divs(e) + PartCost(args[i..], positive) <= Divs(acc) + PartCost(args, positive)
      invariant forall k :: Upright(acc, k) && AllUpright(args, k) ==> Upright(e, k)
    {
      ghost var e0 := e;
      e := AddTerm(e, args[i], positive);
      forall env
        ensures Eval(e, env) + PartVal(args[i + 1..], positive, env) == Eval(acc, env) + PartVal(args, positive, env)
      {
        AddTermVal(e0, args[i], positive, env);
        PartFront(args, i, positive, env);
        assert Eval(e0, env) + PartVal(args[i..], positive, env) == Eval(acc, env) + PartVal(args, positive, env);
      }
      forall v | Uses(e, v) ensures Uses(acc, v) || Reads(args, v) { AddTermUses(e0, args[i], positive, v); }
      AddTermVal(e0, args[i], positive, map[]);
      PartFront(args, i, positive, map[]);
    }
    assert args[|args|..] == [];
  }

  /** Positive terms and base first, negative ones by subtraction. */
  method SumToExpr(args: seq<SplitExpr>, base: int) returns (e: Expr)
    requires AllValid(args)
    ensures forall env :: Eval(e, env) == ArgsVal(args, env) + base
    ensures Divs(e) <= ArgsCost(args)
    ensures forall k :: UprightSum(SumForm(args, base), k) ==> Upright(e, k)
    ensures forall v :: Uses(e, v) ==> Reads(args, v)
    ensures AllZero(args) ==> e == Const(base)
  {
    e := AddTerms(args, Const(0), true);
    if base > 0 {
      AddDivs(e, Const(base));
      forall k | Upright(e, k) ensures Upright(MkAdd(e, Const(base)), k) { UprightAdd(e, Const(base), k); }
      e := MkAdd(e, Const(base));
    }
    e := AddTerms(args, e, false);
    if base < 0 {
      AddDivs(e, Const(-base));
      forall k | Upright(e, k) && k.signed
        ensures Upright(MkSub(e, Const(-base)), k)
      {
        UprightAdd(e, Const(-base), k);
      }
      e := MkSub(e, Const(-base));
    }
    forall env ensures Eval(e, env) == ArgsVal(args, env) + base { PartsAddUp(args, env); }
    PartsAddUp(args, map[]);
  }

  lemma {:induction false} SameReads(args: seq<SplitExpr>, args': seq<SplitExpr>)
    requires multiset(args) == multiset(args')
    ensures forall v :: Reads(args', v) ==> Reads(args, v)
    ensures AllZero(args) ==> AllZero(args')
  {
    forall i | 0 <= i < |args'| ensures exists j :: 0 <= j < |args| && args[j] == args'[i] {
      assert args'[i] in multiset(args');
    }
  }

  /** e uses only the variables that the terms of c read. */
  ghost predicate NormalOf(c: Canon, e: Expr) {
    match c
    case Plain(p) => e == p
    case AsSplit(s) => e == NormalizeWithScale(s, 1)
    case AsSum(sum) => Bares(sum.args) ==> ReadsOnly(sum, e)
  }

  ghost predicate ReadsOnly(sum: SumForm, e: Expr) {
    (forall v :: Uses(e, v) ==> Reads(sum.args, v)) && (AllZero(sum.args) ==> e == Const(sum.base))
  }

  /** The normal expression of a canonical form: same value, no more divisions. */
  method Normalize(c: Canon) returns (e: Expr)
    requires CanonOk(c)
    ensures forall env :: Eval(e, env) == CanonVal(c, env)
    ensures Divs(e) <= Cost(c)
    ensures forall k :: UprightCanon(c, k) ==> Upright(e, k)
    ensures NormalOf(c, e)
  {
    match c
    case Plain(p) => e := p;
    case AsSplit(s) =>
      e := NormalizeWithScale(s, 1);
      forall env ensures Eval(e, env) == CanonVal(c, env) { NormalizeSplitVal(s, 1, env); }
      NormalizeSplitVal(s, 1, map[]);
      forall k | UprightSplit(s, k) ensures Upright(e, k) { UprightNormal(s, k); }
    case AsSum(sum) =>
      if sum.args == [] {
        return Const(sum.base);
      }
      var args := SimplifySplitExprs(sum.args);
      if Bares(sum.args) { SameReads(sum.args, args); }
      e := SumToExpr(args, sum.base);
  }
}
