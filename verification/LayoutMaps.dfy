// Everyday index maps: loops split by a constant, permuted, or flattened into one index.
module LayoutMaps {
  import opened Expr
  import opened Radix
  import opened SplitCover
  import opened FuseDigits
  import opened SplitSum
  import opened FuseIters
  import opened IterMap
  import opened StackMap
  import R = IterRewriter
  import I = IntOperator

  /** One unscaled digit is a stack. */
  lemma {:induction false} LoneStack(s: Split)
    requires s.scale == 1 && s.extent > 1
    ensures R.IsStack(Sum([s], 0)) && R.StackOf(Sum([s], 0)) == Fusion([s], 1, s.extent)
  {
    var args := [s];
    assert Pick(args, [0]) == args;
    assert StackedBy(args, [0]);
    forall q | StackedBy(args, q) ensures FusionOf(args, q) == Fusion([s], 1, s.extent) {
      assert q == [0];
      I.ExactQuotient(1, 1);
      assert FusionOf(args, q).args == [s];
      assert Weight([s]) == s.extent * Weight([]);
    }
    var q :| StackedBy(args, q) && R.StackOf(Sum(args, 0)) == FusionOf(args, q);
  }

  lemma {:induction false} DigitStack(vars: map<VarName, R.IterVal>, e: Expr, s: Split)
    requires R.ValOf(vars, e) == Some(R.One(s)) && s.scale == 1 && s.extent > 1
    ensures IsStacked(vars, e) && StackFor(vars, e) == Stack(Fusion([s], 1, s.extent), 0)
  {
    LoneStack(s);
  }

  /** The indices are the given digits, all different. */
  ghost predicate AreDigits(vars: map<VarName, R.IterVal>, es: seq<Expr>, ds: seq<Split>) {
    && |es| == |ds|
    && (forall i :: 0 <= i < |es| ==>
          R.ValOf(vars, es[i]) == Some(R.One(ds[i])) && ds[i].scale == 1 && ds[i].extent > 1)
    && (forall i, j :: 0 <= i < j < |ds| ==> ds[i] != ds[j])
  }

  lemma {:induction false} DigitStacks(vars: map<VarName, R.IterVal>, es: seq<Expr>, ds: seq<Split>)
    requires AreDigits(vars, es, ds)
    ensures AreStacks(vars, es) && UnitScales(StacksOf(vars, es))
    ensures forall i :: 0 <= i < |es| ==> StacksOf(vars, es)[i].f.args == [ds[i]]
  {
    forall i | 0 <= i < |es| ensures IsStacked(vars, es[i]) && StackFor(vars, es[i]).f.scale == 1
      ensures StackFor(vars, es[i]).f.args == [ds[i]]
    {
      DigitStack(vars, es[i], ds[i]);
    }
    forall i, j | 0 <= i < j < |es| ensures StackFor(vars, es[i]).f.args != StackFor(vars, es[j]).f.args {
      assert [ds[i]][0] != [ds[j]][0];
    }
  }

  lemma {:induction false} SplitPlaces(ss: seq<Stack>, outer: Split, inner: Split, e: int, c: int, m: int)
    requires outer == Split(0, c, m, 1) && inner == Split(0, 1, c, 1) && e == c * m
    requires |ss| == 2 && ss[0].f.args == [outer] && ss[1].f.args == [inner]
    ensures Tiles(ss, 0, e, true)
  {
    var at: seq<Place> := [(1, 0), (0, 0)];
    assert DigitsAt(ss, at) == [inner, outer];
    assert Chain([outer], c, e) && Chain([inner, outer], 1, e);
    forall p: Place | HasPlace(ss, p) ensures p in at <==> DigitAt(ss, p).mark == 0 {
      assert p == (0, 0) || p == (1, 0);
      assert at[0] in at && at[1] in at;
    }
    assert TilesBy(ss, 0, e, at, true);
  }

  lemma {:induction false} EvenSplit(e: int, c: int, m: int)
    requires c > 1 && e == c * m
    ensures R.QuotientStep(Split(0, 1, e, 1), c) == Some(Split(0, c, m, 1))
  {
    Commute(c, m);
    DivUnique(e, c, m, 0);
  }

  lemma {:induction false} SplitVals(vars: map<VarName, R.IterVal>, v: VarName, e: int, c: int, m: int)
    requires c > 1 && m > 1 && e == c * m && v in vars && vars[v] == R.One(Split(0, 1, e, 1))
    ensures R.ValOf(vars, FDiv(Var(v), Const(c))) == Some(R.One(Split(0, c, m, 1)))
    ensures R.ValOf(vars, FMod(Var(v), Const(c))) == Some(R.One(Split(0, 1, c, 1)))
  {
    EvenSplit(e, c, m);
    assert R.ValOf(vars, Var(v)) == Some(R.One(Split(0, 1, e, 1))) && R.ValOf(vars, Const(c)) == Some(R.Num(c));
  }

  /** A loop over an extent divisible by c, split by c. */
  lemma {:induction false} SplitTiles(v: VarName, c: int, m: int, names: seq<VarName>, extents: seq<int>, es: seq<Expr>)
    requires c > 1 && m > 1 && names == [v] && extents == [c * m]
    requires es == [FDiv(Var(v), Const(c)), FMod(Var(v), Const(c))]
    ensures AreStacks(R.InputVals(names, extents), es) && TilesInputs(names, extents, es, true)
    ensures UnitScales(StacksOf(R.InputVals(names, extents), es))
  {
    var vars, outer, inner := R.InputVals(names, extents), Split(0, c, m, 1), Split(0, 1, c, 1);
    assert vars[names[0]] == R.One(Split(0, 1, c * m, 1));
    SplitVals(vars, v, c * m, c, m);
    DigitStacks(vars, es, [outer, inner]);
    SplitPlaces(StacksOf(vars, es), outer, inner, c * m, c, m);
  }

  function VarsAt(names: seq<VarName>, p: seq<nat>): (r: seq<Expr>)
    requires Injective(p, |names|)
    ensures |r| == |p| && forall i :: 0 <= i < |p| ==> r[i] == Var(names[p[i]])
  {
    seq(|p|, i requires 0 <= i < |p| => Var(names[p[i]]))
  }

  function Wholes(extents: seq<int>, p: seq<nat>): (r: seq<Split>)
    requires Injective(p, |extents|)
    ensures |r| == |p| && forall i :: 0 <= i < |p| ==> r[i] == Split(p[i], 1, extents[p[i]], 1)
  {
    seq(|p|, i requires 0 <= i < |p| => Split(p[i], 1, extents[p[i]], 1))
  }

  lemma {:induction false} WholePlace(ss: seq<Stack>, p: seq<nat>, extents: seq<int>, k: nat, t: nat)
    requires |ss| == |p| && Injective(p, |extents|) && t < |p| && p[t] == k
    requires forall i :: 0 <= i < |p| ==> ss[i].f.args == [Split(p[i], 1, extents[p[i]], 1)]
    ensures Tiles(ss, k, extents[k], true)
  {
    var at: seq<Place> := [(t, 0)];
    assert DigitsAt(ss, at) == [Split(k, 1, extents[k], 1)];
    forall q: Place | HasPlace(ss, q) ensures q in at <==> DigitAt(ss, q).mark == k {
      assert q.1 == 0;
      assert q in at <==> q == (t, 0);
    }
    assert TilesBy(ss, k, extents[k], at, true);
  }

  /** A permutation of loops, none of them trivial. */
  lemma {:induction false} PermutationTiles(names: seq<VarName>, extents: seq<int>, p: seq<nat>)
    requires |names| == |extents| && forall i, j :: 0 <= i < j < |names| ==> names[i] != names[j]
    requires Injective(p, |names|) && |p| == |names| && forall i :: 0 <= i < |extents| ==> extents[i] > 1
    ensures AreStacks(R.InputVals(names, extents), VarsAt(names, p))
    ensures TilesInputs(names, extents, VarsAt(names, p), true)
    ensures UnitScales(StacksOf(R.InputVals(names, extents), VarsAt(names, p)))
  {
    var vars, es, ds := R.InputVals(names, extents), VarsAt(names, p), Wholes(extents, p);
    forall i | 0 <= i < |p| ensures R.ValOf(vars, es[i]) == Some(R.One(ds[i])) {
      assert vars[names[p[i]]] == R.One(Split(p[i], 1, extents[p[i]], 1));
    }
    DigitStacks(vars, es, ds);
    forall k | 0 <= k < |names| ensures Tiles(StacksOf(vars, es), k, R.InputMarks(names, extents)[k].extent, true) {
      InjectiveCovers(p, |names|, k);
      var t :| 0 <= t < |p| && p[t] == k;
      WholePlace(StacksOf(vars, es), p, extents, k, t);
    }
  }

  // ----- loops flattened into one index -----

  /** ((v0 * e1 + v1) * e2 + v2) ..., over the first k loops. */
  function Flattened(names: seq<VarName>, extents: seq<int>, k: nat): Expr
    requires |names| == |extents| && 0 < k <= |names|
  {
    if k == 1 then Var(names[0])
    else Add(Mul(Flattened(names, extents, k - 1), Const(extents[k - 1])), Var(names[k - 1]))
  }

  /** The product of the extents from position i up to k. */
  function Product(extents: seq<int>, i: nat, k: nat): int
    requires k <= |extents|
    decreases k - i
  {
    if i >= k then 1 else Product(extents, i, k - 1) * extents[k - 1]
  }

  lemma {:induction false} ProductFront(extents: seq<int>, i: nat, k: nat)
    requires i < k <= |extents|
    ensures Product(extents, i, k) == Product(extents, i + 1, k) * extents[i]
    decreases k
  {
    if i + 1 < k {
      ProductFront(extents, i, k - 1);
      assert (Product(extents, i + 1, k - 1) * extents[i]) * extents[k - 1]
          == (Product(extents, i + 1, k - 1) * extents[k - 1]) * extents[i];
    }
  }

  lemma {:induction false} ProductPositive(extents: seq<int>, i: nat, k: nat)
    requires k <= |extents| && forall j :: 0 <= j < |extents| ==> extents[j] > 1
    ensures Product(extents, i, k) > 0
    decreases k - i
  {
    if i < k { ProductPositive(extents, i, k - 1); }
  }

  function FlatArgs(extents: seq<int>, k: nat): (r: seq<Split>)
    requires k <= |extents|
    ensures |r| == k && forall t :: 0 <= t < k ==> r[t] == Split(t, 1, extents[t], Product(extents, t + 1, k))
  {
    seq(k, t requires 0 <= t < k => Split(t, 1, extents[t], Product(extents, t + 1, k)))
  }

  lemma {:induction false} AddedAppends(args: seq<Split>, s: Split)
    requires forall i :: 0 <= i < |args| ==> args[i].mark != s.mark
    ensures R.Added(args, s, 1) == args + [s]
  {
    if args != [] {
      AddedAppends(args[1..], s);
      assert args == [args[0]] + args[1..];
    }
  }

  lemma {:induction false} FlatStep(extents: seq<int>, k: nat)
    requires 1 < k <= |extents|
    ensures R.ScaleArgs(FlatArgs(extents, k - 1), extents[k - 1]) + [Split(k - 1, 1, extents[k - 1], 1)]
      == FlatArgs(extents, k)
  {
    var a, b := R.ScaleArgs(FlatArgs(extents, k - 1), extents[k - 1]), FlatArgs(extents, k);
    forall t | 0 <= t < k - 1 ensures a[t] == b[t] { }
  }

  /** What the flattened loops are rewritten to. */
  lemma {:induction false} FlattenedVal(names: seq<VarName>, extents: seq<int>, k: nat)
    requires |names| == |extents| && 0 < k <= |names|
    requires forall i, j :: 0 <= i < j < |names| ==> names[i] != names[j]
    ensures var v := R.ValOf(R.InputVals(names, extents), Flattened(names, extents, k));
      v.Some? && !v.value.Num? && R.ToSum(v.value) == Sum(FlatArgs(extents, k), 0)
  {
    var vars, e := R.InputVals(names, extents), Flattened(names, extents, k);
    var s := Split(k - 1, 1, extents[k - 1], 1);
    assert vars[names[k - 1]] == R.One(s);
    if k == 1 {
      assert FlatArgs(extents, 1) == [s];
    } else {
      FlattenedVal(names, extents, k - 1);
      var a, c := R.ValOf(vars, e.a.a).value, extents[k - 1];
      assert R.ValOf(vars, e.a.b) == Some(R.Num(c)) && R.ValOf(vars, e.b) == Some(R.One(s));
      var m := R.MulledVals(a, R.Num(c)).value;
      assert R.ValOf(vars, e.a) == Some(m);
      var scaled := R.ScaleArgs(FlatArgs(extents, k - 1), c);
      assert R.ToSum(m) == Sum(scaled, 0) by {
        if a.One? { assert R.ScaleArgs([a.split], c) == [a.split.(scale := a.split.scale * c)]; }
      }
      AddedAppends(scaled, s);
      R.AddedLone(scaled, s, 1);
      FlatStep(extents, k);
      assert R.ValOf(vars, e) == Some(R.AddedVals(m, R.One(s), 1));
    }
  }

  function Identity(n: nat): (q: seq<nat>)
    ensures |q| == n && forall i :: 0 <= i < n ==> q[i] == i
  {
    seq(n, i requires 0 <= i < n => i)
  }

  lemma {:induction false} FlatStacks(extents: seq<int>)
    requires extents != [] && forall j :: 0 <= j < |extents| ==> extents[j] > 1
    ensures R.IsStack(Sum(FlatArgs(extents, |extents|), 0))
  {
    var n := |extents|;
    var args, q := FlatArgs(extents, n), Identity(n);
    var p := Pick(args, q);
    forall i | 0 <= i < |p| - 1 ensures p[i].scale == p[i + 1].scale * p[i + 1].extent {
      ProductFront(extents, i + 1, n);
    }
    forall i | 0 <= i < n ensures args[n - 1].scale <= args[i].scale { ProductPositive(extents, i + 1, n); }
    assert StackedBy(args, q);
  }

  lemma {:induction false} FlatScale(extents: seq<int>, q: seq<nat>)
    requires extents != [] && forall j :: 0 <= j < |extents| ==> extents[j] > 1
    requires StackedBy(FlatArgs(extents, |extents|), q)
    ensures FlatArgs(extents, |extents|)[q[|q| - 1]].scale == 1
  {
    var n, p := |extents|, q[|q| - 1];
    ProductPositive(extents, p + 1, n);
    assert FlatArgs(extents, n)[p].scale <= FlatArgs(extents, n)[n - 1].scale;
  }

  lemma {:induction false} FlatPlace(extents: seq<int>, q: seq<nat>, ss: seq<Stack>, k: nat)
    requires extents != [] && k < |extents| && StackedBy(FlatArgs(extents, |extents|), q)
    requires |ss| == 1 && ss[0].f == FusionOf(FlatArgs(extents, |extents|), q)
    ensures Tiles(ss, k, extents[k], true)
  {
    InjectiveCovers(q, |extents|, k);
    var t :| 0 <= t < |q| && q[t] == k;
    var at: seq<Place> := [(0, t)];
    var d := DigitAt(ss, (0, t));
    assert d.mark == k && d.lower == 1 && d.extent == extents[k];
    assert DigitsAt(ss, at) == [d];
    forall p: Place | HasPlace(ss, p) ensures p in at <==> DigitAt(ss, p).mark == k {
      assert p.0 == 0 && DigitAt(ss, p).mark == q[p.1];
      assert p in at <==> p == (0, t);
    }
    assert Chain([d], 1, extents[k]);
    assert TilesBy(ss, k, extents[k], at, true);
  }

  lemma {:induction false} FlattenedStack(names: seq<VarName>, extents: seq<int>, e: Expr) returns (q: seq<nat>)
    requires |names| == |extents| && names != [] && forall j :: 0 <= j < |extents| ==> extents[j] > 1
    requires forall i, j :: 0 <= i < j < |names| ==> names[i] != names[j]
    requires e == Flattened(names, extents, |names|)
    ensures var vars, args := R.InputVals(names, extents), FlatArgs(extents, |extents|);
      IsStacked(vars, e) && StackedBy(args, q) && StackFor(vars, e).f == FusionOf(args, q)
  {
    var vars, args := R.InputVals(names, extents), FlatArgs(extents, |extents|);
    FlattenedVal(names, extents, |names|);
    FlatStacks(extents);
    assert IndexSum(vars, e) == Sum(args, 0);
    q :| StackedBy(args, q) && R.StackOf(Sum(args, 0)) == FusionOf(args, q);
  }

  /** Loops of more than one iteration each, flattened in any number: one index with a single digit of each. */
  lemma {:induction false} FlattenedTiles(names: seq<VarName>, extents: seq<int>, e: Expr)
    requires |names| == |extents| && names != [] && forall j :: 0 <= j < |extents| ==> extents[j] > 1
    requires forall i, j :: 0 <= i < j < |names| ==> names[i] != names[j]
    requires e == Flattened(names, extents, |names|)
    ensures AreStacks(R.InputVals(names, extents), [e]) && TilesInputs(names, extents, [e], true)
    ensures UnitScales(StacksOf(R.InputVals(names, extents), [e]))
  {
    var vars, es := R.InputVals(names, extents), [e];
    var q := FlattenedStack(names, extents, e);
    assert es[0] == e && AreStacks(vars, es);
    var ss := StacksOf(vars, es);
    assert ss[0] == StackFor(vars, e);
    FlatScale(extents, q);
    forall k | 0 <= k < |names| ensures Tiles(ss, k, R.InputMarks(names, extents)[k].extent, true) {
      FlatPlace(extents, q, ss, k);
    }
  }
}
