// The sum form and its in-place operations: adding terms, scaling, dividing, and the merging of
// splits before the sum is turned back into an expression.
module CanonicalSum {
  import opened Expr
  import opened DivModes
  import opened CanonicalForm
  import opened CanonicalSign
  import I = IntOperator

  // ----- segments -----

  /** Equal indices stand together, larger lower factors first. */
  ghost predicate Segmented(args: seq<SplitExpr>) {
    forall i, j :: 0 <= i < j < |args| && args[i].index == args[j].index ==>
      args[i].lower >= args[j].lower && (forall t :: i < t < j ==> args[t].index == args[i].index)
  }

  /** Where a term of this index and lower factor may be inserted. */
  ghost predicate Slot(args: seq<SplitExpr>, s: SplitExpr, start: nat, j: nat)
    requires start <= j <= |args|
  {
    && (forall t :: 0 <= t < start ==> args[t].index != s.index)
    && (forall t :: start <= t < j ==> args[t].index == s.index && args[t].lower >= s.lower)
    && (j < |args| ==> args[j].index != s.index || s.lower > args[j].lower)
  }

  lemma {:induction false} InsertSegmented(args: seq<SplitExpr>, s: SplitExpr, start: nat, j: nat)
    requires Segmented(args) && start <= j <= |args| && Slot(args, s, start, j)
    requires (start < |args| ==> args[start].index == s.index)
    ensures Segmented(Insert(args, j, s))
  {
    var r := Insert(args, j, s);
    assert forall t :: 0 <= t < |r| ==> r[t] == if t < j then args[t] else if t == j then s else args[t - 1];
    forall t | j < t < |r| && r[t].index == s.index
      ensures s.lower >= r[t].lower && forall p :: j < p < t ==> r[p].index == s.index
    {
      AfterSlot(args, s, start, j, t - 1);
    }
    forall a, b | 0 <= a < b < |r| && r[a].index == r[b].index
      ensures r[a].lower >= r[b].lower && forall t :: a < t < b ==> r[t].index == r[a].index
    {
      if a == j || b == j {
      } else {
        InsertPair(args, s, start, j, a, b);
      }
    }
  }

  lemma {:induction false} AfterSlot(args: seq<SplitExpr>, s: SplitExpr, start: nat, j: nat, t: nat)
    requires Segmented(args) && start <= j <= t < |args| && Slot(args, s, start, j) && args[t].index == s.index
    requires args[start].index == s.index
    ensures s.lower >= args[t].lower && forall p :: j <= p < t ==> args[p].index == s.index
  {
    if start < t { assert args[start].index == args[t].index; }
    if j < t { assert args[j].index == s.index && args[j].lower >= args[t].lower; }
  }

  lemma {:induction false} InsertPair(args: seq<SplitExpr>, s: SplitExpr, start: nat, j: nat, a: nat, b: nat)
    requires Segmented(args) && start <= j <= |args| && Slot(args, s, start, j)
    requires (start < |args| ==> args[start].index == s.index)
    requires a < b < |args| + 1 && a != j && b != j && Insert(args, j, s)[a].index == Insert(args, j, s)[b].index
    ensures Insert(args, j, s)[a].lower >= Insert(args, j, s)[b].lower
    ensures forall t :: a < t < b ==> Insert(args, j, s)[t].index == Insert(args, j, s)[a].index
  {
    var r := Insert(args, j, s);
    var a', b' := if a < j then a else a - 1, if b < j then b else b - 1;
    assert r[a] == args[a'] && r[b] == args[b'] && a' < b';
  }

  lemma {:induction false} AddedMore(args0: seq<SplitExpr>, before: seq<SplitExpr>, after: seq<SplitExpr>,
                                     more: seq<SplitExpr>, i: nat, scale: int)
    requires i < |more|
    requires forall env :: ArgsVal(before, env) == ArgsVal(args0, env) + scale * ArgsVal(more[..i], env)
    requires forall env :: ArgsVal(after, env) == ArgsVal(before, env) + scale * SplitVal(more[i], env)
    ensures forall env :: ArgsVal(after, env) == ArgsVal(args0, env) + scale * ArgsVal(more[..i + 1], env)
  {
    PrefixStep(more, i);
    forall env ensures ArgsVal(after, env) == ArgsVal(args0, env) + scale * ArgsVal(more[..i + 1], env) {
      assert ArgsVal(before, env) == ArgsVal(args0, env) + scale * ArgsVal(more[..i], env);
      Spread2(scale, ArgsVal(more[..i], env), SplitVal(more[i], env));
    }
  }

  lemma {:induction false} InsertBare(args: seq<SplitExpr>, j: nat, term: SplitExpr)
    requires Bares(args) && j <= |args| && Bare(term) && forall t :: 0 <= t < |args| ==> args[t].index != term.index
    ensures Bares(Insert(args, j, term))
  {
    var r := Insert(args, j, term);
    assert forall t :: 0 <= t < |r| ==> r[t] == if t < j then args[t] else if t == j then term else args[t - 1];
  }

  class SumExprNode {
    var args: seq<SplitExpr>
    var base: int

    function Contents(): SumForm
      reads this
    {
      SumForm(args, base)
    }

    constructor (sum: SumForm)
      ensures Contents() == sum
    {
      args, base := sum.args, sum.base;
    }

    method AddConst(value: int)
      modifies this`base
      ensures base == old(base) + value
    {
      base := base + value;
    }

    /** Where a term goes: the place of a like term to join, or a slot in its segment. */
    method FindSlot(term: SplitExpr) returns (j: nat, join: bool, ghost start: nat)
      ensures start <= j <= |args| && (start < |args| ==> args[start].index == term.index)
      ensures join ==> j < |args| && Like(args[j], term)
      ensures !join ==> Slot(args, term, start, j)
      ensures !join && Bare(term) && Bares(args) ==> forall t :: 0 <= t < |args| ==> args[t].index != term.index
    {
      j := 0;
      while j < |args| && args[j].index != term.index
        invariant j <= |args| && forall t :: 0 <= t < j ==> args[t].index != term.index
      {
        j := j + 1;
      }
      start := j;
      join := false;
      while j < |args|
        invariant start <= j <= |args|
        invariant forall t :: start <= t < j ==> args[t].index == term.index && args[t].lower >= term.lower
        invariant j > start ==> !Like(args[start], term)
      {
        if args[j].index != term.index || term.lower > args[j].lower {
          return;
        }
        if Like(args[j], term) {
          join := true;
          return;
        }
        j := j + 1;
      }
    }

    /** self += other * scale, joining a like term or taking its place in the segment. */
    method AddSplit(other: SplitExpr, scale: int)
      requires AllValid(args) && other.Valid()
      modifies this`args
      ensures AllValid(args) && (old(Segmented(args)) ==> Segmented(args))
      ensures forall env :: ArgsVal(args, env) == old(ArgsVal(args, env)) + scale * SplitVal(other, env)
      ensures ArgsCost(args) <= old(ArgsCost(args)) + SplitCost(other)
      ensures scale >= 0 ==> forall k :: old(AllUpright(args, k)) && UprightSplit(other, k) ==> AllUpright(args, k)
      ensures scale >= 0 || other.IsWhole() ==>
        forall k :: old(AllMild(args, k)) && MildSplit(other, k) ==> AllMild(args, k)
      ensures old(Bares(args)) && Bare(other) ==> Bares(args)
    {
      if other.scale == 0 {
        return;
      }
      var term := other.(scale := other.scale * scale);
      forall env ensures SplitVal(term, env) == scale * SplitVal(other, env) { TermScaled(other, scale, env); }
      ScaleSigns(other, scale);
      PlaceTerm(term);
    }

    method PlaceTerm(term: SplitExpr)
      requires AllValid(args) && term.Valid()
      modifies this`args
      ensures AllValid(args) && (old(Segmented(args)) ==> Segmented(args))
      ensures forall env :: ArgsVal(args, env) == old(ArgsVal(args, env)) + SplitVal(term, env)
      ensures ArgsCost(args) <= old(ArgsCost(args)) + SplitCost(term)
      ensures forall k :: old(AllUpright(args, k)) && UprightSplit(term, k) ==> AllUpright(args, k)
      ensures forall k :: old(AllMild(args, k)) && MildSplit(term, k) ==> AllMild(args, k)
      ensures old(Bares(args)) && Bare(term) ==> Bares(args)
    {
      var j, join, start := FindSlot(term);
      if join {
        JoinAt(args, j, term);
        JoinSigns(args, j, term);
        args := args[j := args[j].(scale := args[j].scale + term.scale)];
      } else {
        InsertTerm(term, start, j);
      }
    }

    method InsertTerm(term: SplitExpr, ghost start: nat, j: nat)
      requires AllValid(args) && term.Valid() && start <= j <= |args| && Slot(args, term, start, j)
      requires start < |args| ==> args[start].index == term.index
      requires Bare(term) && Bares(args) ==> forall t :: 0 <= t < |args| ==> args[t].index != term.index
      modifies this`args
      ensures AllValid(args) && (old(Segmented(args)) ==> Segmented(args))
      ensures forall env :: ArgsVal(args, env) == old(ArgsVal(args, env)) + SplitVal(term, env)
      ensures ArgsCost(args) <= old(ArgsCost(args)) + SplitCost(term)
      ensures forall k :: old(AllUpright(args, k)) && UprightSplit(term, k) ==> AllUpright(args, k)
      ensures forall k :: old(AllMild(args, k)) && MildSplit(term, k) ==> AllMild(args, k)
      ensures old(Bares(args)) && Bare(term) ==> Bares(args)
    {
      if Segmented(args) { InsertSegmented(args, term, start, j); }
      ArgsInsert(args, j, term);
      InsertSigns(args, j, term);
      if Bares(args) && Bare(term) { InsertBare(args, j, term); }
      args := Insert(args, j, term);
    }

    method AddSum(other: SumForm, scale: int)
      requires AllValid(args) && AllValid(other.args)
      modifies this
      ensures AllValid(args) && (old(Segmented(args)) ==> Segmented(args))
      ensures forall env :: SumVal(Contents(), env) == old(SumVal(Contents(), env)) + scale * SumVal(other, env)
      ensures ArgsCost(args) <= old(ArgsCost(args)) + ArgsCost(other.args) && base == old(base) + other.base * scale
      ensures scale >= 0 ==> forall k :: old(AllUpright(args, k)) && AllUpright(other.args, k) ==> AllUpright(args, k)
      ensures scale >= 0 || ArgsCost(other.args) == 0 ==>
        forall k :: old(AllMild(args, k)) && AllMild(other.args, k) ==> AllMild(args, k)
      ensures old(Bares(args)) && Bares(other.args) ==> Bares(args)
    {
      if ArgsCost(other.args) == 0 { FreeIsWhole(other.args); }
      ghost var bare := Bares(args) && Bares(other.args);
      for i := 0 to |other.args|
        invariant AllValid(args) && base == old(base) && (old(Segmented(args)) ==> Segmented(args))
        invariant forall env :: ArgsVal(args, env) == old(ArgsVal(args, env)) + scale * ArgsVal(other.args[..i], env)
        invariant ArgsCost(args) <= old(ArgsCost(args)) + ArgsCost(other.args[..i])
        invariant scale >= 0 ==> forall k :: old(AllUpright(args, k)) && AllUpright(other.args, k) ==>
          AllUpright(args, k)
        invariant scale >= 0 || ArgsCost(other.args) == 0 ==>
          forall k :: old(AllMild(args, k)) && AllMild(other.args, k) ==> AllMild(args, k)
        invariant bare ==> Bares(args)
      {
        ghost var before := args;
        assert bare ==> Bare(other.args[i]);
        AddSplit(other.args[i], scale);
        PrefixStep(other.args, i);
        AddedMore(old(args), before, args, other.args, i, scale);
      }
      assert other.args[..|other.args|] == other.args;
      AddConst(other.base * scale);
      forall env ensures SumVal(Contents(), env) == old(SumVal(Contents(), env)) + scale * SumVal(other, env) {
        Spread2(scale, ArgsVal(other.args, env), other.base);
      }
    }

    /** self *= scale. */
    method MulToSelf(scale: int)
      requires AllValid(args)
      modifies this
      ensures AllValid(args) && ArgsCost(args) == old(ArgsCost(args)) && |args| == |old(args)|
      ensures old(Segmented(args)) ==> Segmented(args)
      ensures forall env :: SumVal(Contents(), env) == scale * old(SumVal(Contents(), env))
      ensures scale >= 0 ==> forall k :: old(UprightSum(Contents(), k)) ==> UprightSum(Contents(), k)
      ensures scale >= 0 ==> forall k :: old(AllMild(args, k)) ==> AllMild(args, k)
      ensures old(Bares(args)) ==> Bares(args)
    {
      base := base * scale;
      ghost var before := args;
      for i := 0 to |args|
        invariant |args| == |before| && base == old(base) * scale
        invariant forall t :: 0 <= t < |args| ==>
          args[t] == if t < i then before[t].(scale := before[t].scale * scale) else before[t]
      {
        args := args[i := args[i].(scale := args[i].scale * scale)];
      }
      assert args == Scaled(before, scale);
      ScaledFacts(old(args), scale);
      if scale >= 0 { ScaledSigns(old(Contents()), scale); }
      forall env ensures SumVal(Contents(), env) == scale * old(SumVal(Contents(), env)) {
        ScaledVal(old(args), scale, env);
        Spread2(scale, ArgsVal(old(args), env), old(base));
      }
    }

    /** self /= c, where c divides every scale and the base. */
    method DivideBy(c: int)
      requires AllValid(args) && c != 0 && Divisible(base, c) && forall i :: 0 <= i < |args| ==>
        Divisible(args[i].scale, c)
      modifies this
      ensures AllValid(args) && ArgsCost(args) == old(ArgsCost(args)) && (old(Segmented(args)) ==> Segmented(args))
      ensures forall env :: c * SumVal(Contents(), env) == old(SumVal(Contents(), env))
      ensures c > 0 ==> forall k :: old(UprightSum(Contents(), k)) ==> UprightSum(Contents(), k)
    {
      ghost var before, base0 := args, base;
      base := I.TruncDiv(base, c);
      for i := 0 to |args|
        invariant |args| == |before| && base == I.TruncDiv(base0, c)
        invariant forall t :: 0 <= t < |args| ==>
          args[t] == if t < i then before[t].(scale := I.TruncDiv(before[t].scale, c)) else before[t]
      {
        args := args[i := args[i].(scale := I.TruncDiv(args[i].scale, c))];
      }
      forall t | 0 <= t < |args|
        ensures before[t] == args[t].(scale := args[t].scale * c)
      {
        I.ExactDiv(c, before[t].scale);
      }
      assert before == Scaled(args, c);
      I.ExactDiv(c, base0);
      ScaledFacts(args, c);
      if c > 0 { UnscaledSigns(Contents(), SumForm(before, base0), c); }
      forall env ensures c * SumVal(Contents(), env) == SumVal(SumForm(before, base0), env) {
        ScaledVal(args, c, env);
        Spread2(c, ArgsVal(args, env), base);
      }
    }
  }

  predicate Like(s: SplitExpr, t: SplitExpr) {
    s.index == t.index && s.lower == t.lower && s.upper == t.upper && t.CompatibleTo(s.mode)
  }

  lemma {:induction false} JoinAt(args: seq<SplitExpr>, j: nat, t: SplitExpr)
    requires AllValid(args) && t.Valid() && j < |args| && Like(args[j], t)
    ensures var r := args[j := args[j].(scale := args[j].scale + t.scale)];
      && AllValid(r) && (Segmented(args) ==> Segmented(r)) && ArgsCost(r) == ArgsCost(args)
      && forall env :: ArgsVal(r, env) == ArgsVal(args, env) + SplitVal(t, env)
  {
    var joined := args[j].(scale := args[j].scale + t.scale);
    ArgsUpdate(args, j, joined);
    forall env ensures SplitVal(joined, env) == SplitVal(args[j], env) + SplitVal(t, env) { JoinLike(args[j], t, env); }
  }

  lemma {:induction false} TermScaled(s: SplitExpr, scale: int, env: Env)
    ensures SplitVal(s.(scale := s.scale * scale), env) == scale * SplitVal(s, env)
  {
    if s.Valid() {
      var c := Core(s, Eval(s.index, env));
      assert Core(s.(scale := s.scale * scale), Eval(s.index, env)) == c;
      assert (s.scale * scale) * c == scale * (s.scale * c) by { Assoc(scale, s.scale, c); }
    }
  }

  /** Terms that differ in scale only, or in the mode of a whole index, add up. */
  lemma {:induction false} JoinLike(s: SplitExpr, t: SplitExpr, env: Env)
    requires s.Valid() && t.Valid() && Like(s, t)
    ensures SplitVal(s.(scale := s.scale + t.scale), env) == SplitVal(s, env) + SplitVal(t, env)
  {
    var v := Eval(s.index, env);
    LikeCores(s, t, v);
    var c := Core(s, v);
    assert Core(s.(scale := s.scale + t.scale), v) == c;
    assert (s.scale + t.scale) * c == s.scale * c + t.scale * c;
  }

  lemma {:induction false} LikeCores(s: SplitExpr, t: SplitExpr, v: int)
    requires s.Valid() && t.Valid() && s.lower == t.lower && s.upper == t.upper && t.CompatibleTo(s.mode)
    ensures Core(s, v) == Core(t, v)
  {
    if s.mode != t.mode {
      DivideByOne(s.mode, v);
      DivideByOne(t.mode, v);
    }
  }

  lemma Spread2(a: int, b: int, c: int)
    ensures a * (b + c) == a * b + a * c
  {
  }

  lemma {:induction false} PrefixStep(args: seq<SplitExpr>, i: nat)
    requires i < |args|
    ensures forall env :: ArgsVal(args[..i + 1], env) == ArgsVal(args[..i], env) + SplitVal(args[i], env)
    ensures ArgsCost(args[..i + 1]) == ArgsCost(args[..i]) + SplitCost(args[i])
  {
    assert args[..i + 1] == Insert(args[..i], i, args[i]);
    ArgsInsert(args[..i], i, args[i]);
  }

  function Scaled(args: seq<SplitExpr>, scale: int): (r: seq<SplitExpr>)
    ensures |r| == |args| && forall i :: 0 <= i < |args| ==> r[i] == args[i].(scale := args[i].scale * scale)
  {
    seq(|args|, i requires 0 <= i < |args| => args[i].(scale := args[i].scale * scale))
  }

  lemma {:induction false} ScaledFacts(args: seq<SplitExpr>, scale: int)
    ensures AllValid(Scaled(args, scale)) == AllValid(args) && ArgsCost(Scaled(args, scale)) == ArgsCost(args)
    ensures Segmented(args) <==> Segmented(Scaled(args, scale))
  {
    ScaledCost(args, scale);
    var r := Scaled(args, scale);
    forall i | 0 <= i < |args| ensures r[i].Valid() == args[i].Valid() {
    }
  }

  lemma {:induction false} ScaledCost(args: seq<SplitExpr>, scale: int)
    ensures ArgsCost(Scaled(args, scale)) == ArgsCost(args)
  {
    if args != [] {
      ScaledCost(args[1..], scale);
      assert Scaled(args, scale)[1..] == Scaled(args[1..], scale);
    }
  }

  lemma {:induction false} ScaledVal(args: seq<SplitExpr>, scale: int, env: Env)
    ensures ArgsVal(Scaled(args, scale), env) == scale * ArgsVal(args, env)
  {
    if args != [] {
      ScaledVal(args[1..], scale, env);
      assert Scaled(args, scale)[1..] == Scaled(args[1..], scale);
      TermScaled(args[0], scale, env);
      Spread2(scale, SplitVal(args[0], env), ArgsVal(args[1..], env));
    }
  }

  lemma {:induction false} ScaledSigns(sum: SumForm, c: int)
    requires c >= 0
    ensures forall k :: UprightSum(sum, k) ==> UprightSum(SumForm(Scaled(sum.args, c), sum.base * c), k)
    ensures forall k :: AllMild(sum.args, k) ==> AllMild(Scaled(sum.args, c), k)
  {
    forall k, i | AllMild(sum.args, k) && 0 <= i < |sum.args| ensures MildSplit(Scaled(sum.args, c)[i], k) {
      ScaleSigns(sum.args[i], c);
    }
    forall k | UprightSum(sum, k) ensures UprightSum(SumForm(Scaled(sum.args, c), sum.base * c), k) {
      forall i | 0 <= i < |sum.args| ensures UprightSplit(Scaled(sum.args, c)[i], k) { ScaleSigns(sum.args[i], c); }
      if sum.base >= 0 { NonNegative(sum.base, c); }
    }
  }

  lemma {:induction false} UnscaledSigns(sum: SumForm, whole: SumForm, c: int)
    requires c > 0 && whole.args == Scaled(sum.args, c) && whole.base == c * sum.base
    ensures forall k :: UprightSum(whole, k) ==> UprightSum(sum, k)
  {
    forall k | UprightSum(whole, k) ensures UprightSum(sum, k) {
      forall i | 0 <= i < |sum.args| ensures UprightSplit(sum.args[i], k) {
        assert UprightSplit(whole.args[i], k);
        Unscale(sum.args[i].scale, c);
      }
      if sum.base * c >= 0 { Unscale(sum.base, c); }
    }
  }

  lemma Unscale(x: int, c: int)
    requires x * c >= 0 && c > 0
    ensures x >= 0
  {
  }
}
