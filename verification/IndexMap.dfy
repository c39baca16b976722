// The inverse of an index map: detection at bijective level, back-propagation, and the minimum
// for iterators that the map leaves out.
module IndexMap {
  import opened Expr
  import opened SplitCover
  import opened IterMap
  import opened FuseDigits
  import opened InverseMap
  import opened IterMapInverse
  import opened MappingCheck

  /** The loop variables stay in their ranges. */
  ghost predicate InputsInRange(g: Graph, env: Env) {
    forall k :: 0 <= k < |g.marks| && g.marks[k].source.Input? ==>
      0 <= Lookup(env, g.marks[k].source.v) < g.marks[k].extent
  }

  /** Fused iterators are mixed-radix numbers over all their digits, as exact fusion makes them. */
  predicate ExactlyFused(g: Graph) {
    forall k :: 0 <= k < |g.marks| && g.marks[k].source.Fused? ==> ExactSum(g.marks[k].source.sum, g.marks[k].extent)
  }

  predicate ExactSum(sum: Sum, extent: int) {
    && sum.base == 0 && sum.args != [] && FusePattern(sum.args)
    && sum.args[|sum.args| - 1].scale == 1 && extent == Weight(sum.args)
  }

  /** Then every iterator of the DAG stays in its range when the loop variables do. */
  lemma {:induction false} FusedInRange(g: Graph, env: Env)
    requires WellFormed(g) && ExactlyFused(g) && InputsInRange(g, env)
    ensures InRange(g, env)
  {
    forall k | 0 <= k < |g.marks|
      ensures 0 <= MarkVal(g, env, k) < g.marks[k].extent
    {
      if g.marks[k].source.Fused? {
        var args, u := SumAt(g, Inner(k)).args, SumDigits(g, env, Inner(k));
        SumArgsValid(g, env, Inner(k));
        SumValIsTotal(g, env, Inner(k));
        TotalIsScaledNumber(args, u);
        NumberBound(args, u);
      }
    }
  }

  /** The substitution gives each input its value in env. */
  ghost predicate RecoversAll(g: Graph, inv: Subst, env: Env, oenv: Env) {
    forall k :: 0 <= k < |g.marks| && g.marks[k].source.Input? ==>
      g.marks[k].source.v in inv && Eval(inv[g.marks[k].source.v], oenv) == Lookup(env, g.marks[k].source.v)
  }

  /** An input with a single value that the inverse does not name. */
  predicate LeftOut(g: Graph, inv: Subst, k: nat)
    requires k < |g.marks|
  {
    g.marks[k].source.Input? && g.marks[k].extent == 1 && g.marks[k].source.v !in inv
  }

  predicate Zeroed(g: Graph, inv: Subst, k: nat)
    requires k < |g.marks|
  {
    g.marks[k].source.Input? && g.marks[k].source.v in inv && inv[g.marks[k].source.v] == Const(0)
  }

  /** Names the inputs that the map leaves out with their only value. */
  method FillUnits(g: Graph, inv: Subst) returns (r: Subst)
    requires WellFormed(g)
    ensures forall v :: v in inv ==> v in r && r[v] == inv[v]
    ensures forall k :: 0 <= k < |g.marks| && LeftOut(g, inv, k) ==> Zeroed(g, r, k)
  {
    r := inv;
    for i := 0 to |g.marks|
      invariant forall v :: v in inv ==> v in r && r[v] == inv[v]
      invariant forall k :: 0 <= k < i && LeftOut(g, inv, k) ==> Zeroed(g, r, k)
    {
      if LeftOut(g, inv, i) {
        r := r[g.marks[i].source.v := Const(0)];
      }
    }
  }

  /** Whatever it returns gives every input iterator its value, from the outputs alone. */
  method Inverse(g: Graph, outs: seq<Expr>) returns (r: Option<Subst>)
    requires WellFormed(g)
    ensures r.Some? ==> |outs| == |g.outputs| && AllPass(g, true) && InputsUsed(g) && LiveInvertible(g)
    ensures (forall k :: 0 <= k < |g.marks| ==> WideLive(g, k)) ==>
      (r.Some? <==> |outs| == |g.outputs| && AllPass(g, true) && InputsUsed(g) && LiveInvertible(g))
    ensures r.Some? ==>
      forall env, oenv :: InRange(g, env) && Outputs(g, env, outs, oenv) ==> RecoversAll(g, r.value, env, oenv)
  {
    var ok := CheckMapping(g, true);
    if !ok {
      return None;
    }
    var m := InverseAffineIterMap(g, outs);
    if m.None? {
      return None;
    }
    var inv := FillUnits(g, m.value);
    forall env, oenv | InRange(g, env) && Outputs(g, env, outs, oenv)
      ensures RecoversAll(g, inv, env, oenv)
    {
      FilledRecovers(g, m.value, inv, env, oenv);
    }
    r := Some(inv);
  }

  lemma {:induction false} FilledRecovers(g: Graph, inv: Subst, r: Subst, env: Env, oenv: Env)
    requires WellFormed(g) && InRange(g, env) && InputsUsed(g) && Recovers(g, inv, env, oenv)
    requires forall v :: v in inv ==> v in r && r[v] == inv[v]
    requires forall k :: 0 <= k < |g.marks| && LeftOut(g, inv, k) ==> Zeroed(g, r, k)
    ensures RecoversAll(g, r, env, oenv)
  {
    forall k | 0 <= k < |g.marks| && g.marks[k].source.Input?
      ensures g.marks[k].source.v in r && Eval(r[g.marks[k].source.v], oenv) == Lookup(env, g.marks[k].source.v)
    {
      assert RecoversMark(g, inv, env, oenv, k);
      assert 0 <= MarkVal(g, env, k) < g.marks[k].extent;
      if !LiveMark(g, k) { assert LeftOut(g, inv, k); }
    }
  }
}
