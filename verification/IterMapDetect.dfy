// From index expressions to an iterator map and back: detection, simplification and inversion.
module IterMapDetect {
  import opened Expr
  import opened SplitCover
  import opened SplitSum
  import opened IterMap
  import opened InverseMap
  import opened IterMapInverse
  import opened MappingCheck
  import opened IndexMap
  import opened EvenDivisions
  import opened FuseIters
  import opened StackMap
  import R = IterRewriter

  // ----- the rewriter's marks as a DAG -----

  lemma {:induction false} MarkValIsValue(g: Graph, env: Env, k: nat)
    requires WellFormed(g) && R.MarksOk(g.marks) && k < |g.marks|
    ensures MarkVal(g, env, k) == R.Values(g.marks, env)[k]
    decreases 2 * k + 1, 0
  {
    R.MarkValue(g.marks, k, env);
    match g.marks[k].source
    case Input(_) =>
    case Fused(sum) => ArgsValIsTermSum(g, env, sum.args, k);
  }

  lemma {:induction false} ArgsValIsTermSum(g: Graph, env: Env, args: seq<Split>, bound: nat)
    requires WellFormed(g) && R.MarksOk(g.marks) && bound <= |g.marks| && SumOk(Sum(args, 0), bound)
    ensures ArgsVal(g, env, args, bound) == TermSum(args, R.Values(g.marks, env))
    decreases 2 * bound, |args|
  {
    if args != [] {
      MarkValIsValue(g, env, args[0].mark);
      ArgsValIsTermSum(g, env, args[1..], bound);
    }
  }

  predicate Distinct(names: seq<VarName>) {
    forall i, j :: 0 <= i < j < |names| ==> names[i] != names[j]
  }

  lemma {:induction false} GraphOk(names: seq<VarName>, extents: seq<int>, g: Graph)
    requires |names| == |extents| && Distinct(names)
    requires R.MarksOk(g.marks) && R.Extends(R.InputMarks(names, extents), g.marks)
    requires forall i :: 0 <= i < |g.outputs| ==> ArgsOk(g.outputs[i].args, |g.marks|)
    ensures WellFormed(g)
  {
    var inputs := R.InputMarks(names, extents);
    forall k | 0 <= k < |g.marks| && g.marks[k].source.Fused? ensures SumOk(g.marks[k].source.sum, k) {
      assert ArgsOk(g.marks[k].source.sum.args, k);
    }
    forall i | 0 <= i < |g.outputs| ensures SumOk(g.outputs[i], |g.marks|) {
      assert ArgsOk(g.outputs[i].args, |g.marks|);
    }
    forall k | 0 <= k < |inputs| ensures g.marks[k] == R.InputMarks(names, extents)[k] {
    }
    forall j, k | 0 <= j < k < |g.marks| && g.marks[j].source.Input? && g.marks[k].source.Input?
      ensures g.marks[j].source.v != g.marks[k].source.v
    {
      assert k < |inputs|;
    }
  }

  /** The loop variables are in their ranges. */
  ghost predicate InBounds(names: seq<VarName>, extents: seq<int>, env: Env)
    requires |names| == |extents|
  {
    forall i :: 0 <= i < |names| ==> 0 <= Lookup(env, names[i]) < extents[i]
  }

  lemma {:induction false} BoundsFit(names: seq<VarName>, extents: seq<int>, marks: seq<Mark>, env: Env)
    requires |names| == |extents| && R.Extends(R.InputMarks(names, extents), marks)
    ensures InBounds(names, extents, env) <==> R.InputsFit(marks, env)
  {
    R.ExtendsFit(R.InputMarks(names, extents), marks, env);
    var inputs := R.InputMarks(names, extents);
    if R.InputsFit(inputs, env) {
      forall i | 0 <= i < |names| ensures 0 <= Lookup(env, names[i]) < extents[i] {
        assert inputs[i].source == Input(names[i]);
      }
    }
  }

  /** The map's outputs are the index expressions, for all loop variables in range. */
  ghost predicate Represents(names: seq<VarName>, extents: seq<int>, indices: seq<Expr>, g: Graph)
    requires |names| == |extents| && WellFormed(g)
  {
    && |g.outputs| == |indices|
    && (forall env :: InBounds(names, extents, env) ==> InRange(g, env) && Follows(g, env, indices))
  }

  ghost predicate Follows(g: Graph, env: Env, indices: seq<Expr>)
    requires WellFormed(g) && |g.outputs| == |indices|
  {
    forall i :: 0 <= i < |indices| ==> SumVal(g, env, Out(i)) == Eval(indices[i], env)
  }

  lemma {:induction false} MeaningIsRepresentation(names: seq<VarName>, extents: seq<int>, indices: seq<Expr>, g: Graph)
    requires |names| == |extents| && WellFormed(g) && |g.outputs| == |indices|
    requires R.MarksOk(g.marks) && R.Ranged(g.marks) && R.Extends(R.InputMarks(names, extents), g.marks)
    requires forall i :: 0 <= i < |indices| ==> R.Means(g.marks, R.Many(g.outputs[i]), indices[i])
    ensures Represents(names, extents, indices, g)
  {
    forall env | InBounds(names, extents, env)
      ensures InRange(g, env) && Follows(g, env, indices)
    {
      BoundsFit(names, extents, g.marks, env);
      assert R.AllFit(g.marks, env);
      forall k | 0 <= k < |g.marks| ensures 0 <= MarkVal(g, env, k) < g.marks[k].extent { MarkValIsValue(g, env, k); }
      forall i | 0 <= i < |indices| ensures SumVal(g, env, Out(i)) == Eval(indices[i], env) {
        ArgsValIsTermSum(g, env, g.outputs[i].args, |g.marks|);
        assert R.ValAt(R.Many(g.outputs[i]), R.Values(g.marks, env)) == Eval(indices[i], env);
      }
    }
  }

  // ----- detection -----

  /** The sums rewritten so far are over the marks and, while every division was right, mean their indices. */
  ghost predicate Rewritten(marks: seq<Mark>, sums: seq<Sum>, indices: seq<Expr>, right: bool) {
    && |sums| <= |indices|
    && (forall i :: 0 <= i < |sums| ==> ArgsOk(sums[i].args, |marks|))
    && (right ==> forall i :: 0 <= i < |sums| ==> R.Means(marks, R.Many(sums[i]), indices[i]))
  }

  lemma {:induction false} RewrittenMore(
    marks: seq<Mark>, marks': seq<Mark>, sums: seq<Sum>, sum: Sum, indices: seq<Expr>, right: bool, right': bool)
    requires Rewritten(marks, sums, indices, right) && |sums| < |indices| && R.Extends(marks, marks')
    requires (right' ==> right)
    requires ArgsOk(sum.args, |marks'|) && (right' ==> R.Means(marks', R.Many(sum), indices[|sums|]))
    ensures Rewritten(marks', sums + [sum], indices, right')
  {
    if right' {
      forall i | 0 <= i < |sums| ensures R.Means(marks', R.Many(sums[i]), indices[i]) {
        R.MeansLater(marks, marks', R.Many(sums[i]), indices[i]);
      }
    }
  }

  function AllDivisions(indices: seq<Expr>): nat {
    if indices == [] then 0 else R.Divisions(indices[0]) + AllDivisions(indices[1..])
  }

  /** One index, in the first pass, which records padding, or in the only one. */
  method RewriteIndex(rw: R.IterMapRewriter, e: Expr, update: bool) returns (s: Option<Sum>)
    requires rw.Valid() && !rw.update
    requires if update then !rw.requiresPadding ==> rw.exact else !rw.requiresPadding
    modifies rw
    ensures rw.Valid() && !rw.update && R.Extends(old(rw.marks), rw.marks) && (rw.exact ==> old(rw.exact))
    ensures if update then !rw.requiresPadding ==> rw.exact else !rw.requiresPadding
    ensures !update && rw.bijective && old(rw.exact) && Even(e) ==> rw.exact
    ensures |rw.sites| <= |old(rw.sites)| + R.Divisions(e)
    ensures s.Some? ==> ArgsOk(s.value.args, |rw.marks|) && (rw.exact ==> R.Means(rw.marks, R.Many(s.value), e))
    ensures !update || R.EvenSteps(rw.vars, e) ==>
      StackTaken(rw.vars, e, old(rw.marks), old(rw.fuseMap), rw.marks, rw.fuseMap, s, rw.bijective && !update)
    ensures update && R.EvenSteps(rw.vars, e) && R.ValOf(rw.vars, e).Some? ==>
      rw.requiresPadding == old(rw.requiresPadding)
  {
    if update {
      s := rw.RewriteAndUpdatePadding(e);
    } else {
      s := rw.Rewrite(e);
      assert AreSums(rw.vars, [e]) ==> IsSum(rw.vars, [e][0]);
    }
  }

  /** One pass over the indices; `update` is the first pass, which records padding. */
  method RewriteAll(rw: R.IterMapRewriter, indices: seq<Expr>, update: bool) returns (r: Option<seq<Sum>>)
    requires rw.Valid() && rw.exact && rw.sites == [] && !rw.requiresPadding && !rw.update && rw.fuseMap == map[]
    modifies rw
    ensures rw.Valid() && R.Extends(old(rw.marks), rw.marks)
    ensures if update then !rw.requiresPadding ==> rw.exact else !rw.requiresPadding
    ensures |rw.sites| <= AllDivisions(indices)
    ensures !update && rw.bijective && AllEven(indices) ==> rw.exact
    ensures r.Some? ==> |r.value| == |indices| && Rewritten(rw.marks, r.value, indices, rw.exact)
    ensures !update && rw.bijective && AreSums(rw.vars, indices) && r.Some? ==> AllStacked(rw.vars, indices, |indices|)
    ensures AreStacks(rw.vars, indices) && (!update || AllEvenSteps(rw.vars, indices)) ==>
      var ss := StacksOf(rw.vars, indices);
      && r == Some(StackOutputs(|old(rw.marks)|, ss)) && rw.marks == old(rw.marks) + StackMarks(ss)
      && !rw.requiresPadding
  {
    ghost var plain, strict := !update || AllEvenSteps(rw.vars, indices), rw.bijective && !update;
    var sums: seq<Sum> := [];
    for i := 0 to |indices|
      invariant rw.Valid() && !rw.update && R.Extends(old(rw.marks), rw.marks) && |sums| == i
      invariant if update then !rw.requiresPadding ==> rw.exact else !rw.requiresPadding
      invariant !update && rw.bijective && AllEven(indices) ==> rw.exact
      invariant |rw.sites| + AllDivisions(indices[i..]) <= AllDivisions(indices)
      invariant Rewritten(rw.marks, sums, indices, rw.exact)
      invariant plain ==> PassDone(rw.vars, indices, old(rw.marks), rw.marks, rw.fuseMap, sums, strict, i)
      invariant plain && AreStacks(rw.vars, indices) ==> !rw.requiresPadding
    {
      ghost var marks1, fuseMap1, exact1 := rw.marks, rw.fuseMap, rw.exact;
      assert indices[i..][1..] == indices[i + 1..];
      var s := RewriteIndex(rw, indices[i], update);
      if plain {
        PassStep(rw.vars, indices, old(rw.marks), marks1, fuseMap1, sums, strict, i, rw.marks, rw.fuseMap, s);
      }
      R.ExtendsTrans(old(rw.marks), marks1, rw.marks);
      if s.None? {
        return None;
      }
      RewrittenMore(marks1, rw.marks, sums, s.value, indices, exact1, rw.exact);
      sums := sums + [s.value];
    }
    if plain { PassEnd(rw.vars, indices, old(rw.marks), rw.marks, rw.fuseMap, sums, strict); }
    r := Some(sums);
  }

  ghost function MapOfStacks(names: seq<VarName>, extents: seq<int>, indices: seq<Expr>): Graph
    requires |names| == |extents| && Distinct(names) && AreStacks(R.InputVals(names, extents), indices)
  {
    StackGraph(R.InputMarks(names, extents), StacksOf(R.InputVals(names, extents), indices))
  }

  lemma {:induction false} MapOfStacksPasses(
    names: seq<VarName>, extents: seq<int>, indices: seq<Expr>, bijective: bool)
    requires |names| == |extents| && Distinct(names) && forall i :: 0 <= i < |extents| ==> extents[i] > 0
    requires AreStacks(R.InputVals(names, extents), indices) && WellFormed(MapOfStacks(names, extents, indices))
    ensures var g := MapOfStacks(names, extents, indices);
      && (Passes(g, bijective) <==> TilesInputs(names, extents, indices, bijective))
      && forall k :: 0 <= k < |g.marks| ==> WideLive(g, k)
  {
    var inputs, ss := R.InputMarks(names, extents), StacksOf(R.InputVals(names, extents), indices);
    StacksFit(names, extents, indices);
    PassesIffTiled(inputs, ss, bijective);
    StacksWide(inputs, ss);
  }

  /** Nothing is padded: at the bijective level never, below it where no remainder leaves a digit ragged. */
  predicate Unpadded(names: seq<VarName>, extents: seq<int>, indices: seq<Expr>, bijective: bool)
    requires |names| == |extents| && Distinct(names)
  {
    bijective || AllEvenSteps(R.InputVals(names, extents), indices)
  }

  lemma {:induction false} FusedStacksInvert(inputs: seq<Mark>, ss: seq<Stack>)
    requires StacksOver(inputs, ss) && WellFormed(StackGraph(inputs, ss)) && ExactlyFused(StackGraph(inputs, ss))
    ensures LiveInvertible(StackGraph(inputs, ss)) <==> UnitScales(ss)
  {
    var g := StackGraph(inputs, ss);
    forall i | 0 <= i < |ss| ensures ExactArgs(ss[i].f.args) {
      assert g.marks[|inputs| + i] == R.MarkOf(ss[i].f);
      assert ExactSum(g.marks[|inputs| + i].source.sum, g.marks[|inputs| + i].extent);
    }
    InvertibleIffUnit(inputs, ss);
  }

  lemma {:induction false} MapOfStacksInverts(names: seq<VarName>, extents: seq<int>, indices: seq<Expr>)
    requires |names| == |extents| && Distinct(names) && forall i :: 0 <= i < |extents| ==> extents[i] > 0
    requires AreStacks(R.InputVals(names, extents), indices) && WellFormed(MapOfStacks(names, extents, indices))
    requires ExactlyFused(MapOfStacks(names, extents, indices))
    ensures LiveInvertible(MapOfStacks(names, extents, indices)) <==>
      UnitScales(StacksOf(R.InputVals(names, extents), indices))
  {
    StacksFit(names, extents, indices);
    FusedStacksInvert(R.InputMarks(names, extents), StacksOf(R.InputVals(names, extents), indices));
  }

  /**
   * The map of the indices, checked for independence. It represents the indices when every division
   * met was right on the whole range of its source; below the bijective level that always holds.
   */
  method DetectIterMap(names: seq<VarName>, extents: seq<int>, indices: seq<Expr>, bijective: bool)
    returns (r: Option<Graph>, ghost sites: seq<R.Site>)
    requires |names| == |extents| && Distinct(names) && forall i :: 0 <= i < |extents| ==> extents[i] > 0
    ensures r.Some? ==>
      WellFormed(r.value) && R.Extends(R.InputMarks(names, extents), r.value.marks) && |r.value.outputs| == |indices|
    ensures r.Some? ==> AllPass(r.value, bijective) && (bijective ==> InputsUsed(r.value) && ExactlyFused(r.value))
    ensures |sites| <= AllDivisions(indices)
    ensures !bijective && r.Some? ==> R.AllRight(sites)
    ensures bijective && AllEven(indices) ==> R.AllRight(sites)
    ensures r.Some? && R.AllRight(sites) ==> Represents(names, extents, indices, r.value)
    ensures bijective && AreSums(R.InputVals(names, extents), indices) && r.Some? ==>
      AllStacked(R.InputVals(names, extents), indices, |indices|)
    ensures AreStacks(R.InputVals(names, extents), indices) && Unpadded(names, extents, indices, bijective) ==>
      && (r.Some? <==> TilesInputs(names, extents, indices, bijective))
      && (r.Some? ==> r.value == MapOfStacks(names, extents, indices))
  {
    var rw := new R.IterMapRewriter(names, extents, bijective);
    var sums := RewriteAll(rw, indices, !bijective);
    sites := rw.sites;
    if sums.None? || (!bijective && rw.requiresPadding) {
      return None, sites;
    }
    var g := Graph(rw.marks, sums.value);
    GraphOk(names, extents, g);
    var ok := CheckMapping(g, bijective);
    if AreStacks(R.InputVals(names, extents), indices) && Unpadded(names, extents, indices, bijective) {
      MapOfStacksPasses(names, extents, indices, bijective);
    }
    if !ok {
      return None, sites;
    }
    if bijective { MarksFuseExactly(g); }
    if R.AllRight(sites) { MeaningIsRepresentation(names, extents, indices, g); }
    r := Some(g);
  }

  lemma {:induction false} MarksFuseExactly(g: Graph)
    requires R.ExactMarks(g.marks)
    ensures ExactlyFused(g)
  {
    forall k | 0 <= k < |g.marks| && g.marks[k].source.Fused?
      ensures ExactSum(g.marks[k].source.sum, g.marks[k].extent)
    {
      assert R.ExactMark(g.marks[k]);
    }
  }

  /** The outputs of the map, converted to expressions. */
  ghost predicate Converted(g: Graph, es: seq<Expr>) {
    && R.MarksOk(g.marks) && |es| == |g.outputs|
    && forall i :: 0 <= i < |es| ==>
      ArgsOk(g.outputs[i].args, |g.marks|) && es[i] == R.ConvertSum(g.marks, g.outputs[i])
  }

  lemma {:induction false} MarksAgain(g: Graph)
    requires WellFormed(g)
    ensures R.MarksOk(g.marks) && forall i :: 0 <= i < |g.outputs| ==> ArgsOk(g.outputs[i].args, |g.marks|)
  {
    forall k | 0 <= k < |g.marks| && g.marks[k].source.Fused? ensures ArgsOk(g.marks[k].source.sum.args, k) {
      assert SumOk(g.marks[k].source.sum, k);
    }
    forall i | 0 <= i < |g.outputs| ensures ArgsOk(g.outputs[i].args, |g.marks|) {
      assert SumOk(g.outputs[i], |g.marks|);
    }
  }

  lemma {:induction false} ConvertedValue(
    names: seq<VarName>, extents: seq<int>, indices: seq<Expr>, g: Graph, i: nat, env: Env)
    requires |names| == |extents| && WellFormed(g) && R.MarksOk(g.marks) && Represents(names, extents, indices, g)
    requires i < |indices| && ArgsOk(g.outputs[i].args, |g.marks|) && InBounds(names, extents, env)
    ensures Eval(R.ConvertSum(g.marks, g.outputs[i]), env) == Eval(indices[i], env)
  {
    forall k | 0 <= k < |g.marks|
      ensures 0 <= R.Values(g.marks, env)[k] < g.marks[k].extent
    {
      MarkValIsValue(g, env, k);
    }
    R.ConvertArgsValue(g.marks, g.outputs[i].args, |g.marks|, env);
    ArgsValIsTermSum(g, env, g.outputs[i].args, |g.marks|);
    assert Follows(g, env, indices);
  }

  method ConvertAll(g: Graph) returns (r: seq<Expr>)
    requires WellFormed(g)
    ensures Converted(g, r)
  {
    MarksAgain(g);
    r := [];
    for i := 0 to |g.outputs|
      invariant |r| == i && forall j :: 0 <= j < i ==> r[j] == R.ConvertSum(g.marks, g.outputs[j])
    {
      r := r + [R.ConvertSum(g.marks, g.outputs[i])];
    }
  }

  lemma {:induction false} ConvertedRight(
    names: seq<VarName>, extents: seq<int>, indices: seq<Expr>, g: Graph, r: seq<Expr>)
    requires |names| == |extents| && WellFormed(g) && Converted(g, r) && Represents(names, extents, indices, g)
    ensures forall env, i :: 0 <= i < |indices| && InBounds(names, extents, env) ==>
      Eval(r[i], env) == Eval(indices[i], env)
  {
    forall env, i | 0 <= i < |indices| && InBounds(names, extents, env)
      ensures Eval(r[i], env) == Eval(indices[i], env)
    {
      ConvertedValue(names, extents, indices, g, i, env);
    }
  }

  /**
   * Rewritten and converted back, or returned as they are: the indices keep their values, below the
   * bijective level always, at that level when every division met was right on the whole range.
   */
  method IterMapSimplify(names: seq<VarName>, extents: seq<int>, indices: seq<Expr>, bijective: bool)
    returns (r: seq<Expr>, ghost sites: seq<R.Site>)
    requires |names| == |extents| && Distinct(names) && forall i :: 0 <= i < |extents| ==> extents[i] > 0
    ensures |r| == |indices| && |sites| <= AllDivisions(indices)
    ensures !bijective || AllEven(indices) || R.AllRight(sites) ==>
      forall env, i :: 0 <= i < |indices| && InBounds(names, extents, env) ==> Eval(r[i], env) == Eval(indices[i], env)
    ensures AreStacks(R.InputVals(names, extents), indices) && Unpadded(names, extents, indices, bijective) ==>
      if TilesInputs(names, extents, indices, bijective) then Converted(MapOfStacks(names, extents, indices), r)
      else r == indices
  {
    var g;
    g, sites := DetectIterMap(names, extents, indices, bijective);
    if g.None? {
      return indices, sites;
    }
    r := ConvertAll(g.value);
    if R.AllRight(sites) { ConvertedRight(names, extents, indices, g.value, r); }
  }

  /** oenv gives the output variables the values of the indices on env. */
  ghost predicate Outcome(indices: seq<Expr>, env: Env, outs: seq<VarName>, oenv: Env) {
    |outs| == |indices| && forall i :: 0 <= i < |indices| ==> Lookup(oenv, outs[i]) == Eval(indices[i], env)
  }

  /** Each loop variable has its value back. */
  ghost predicate Returned(names: seq<VarName>, inv: Subst, env: Env, oenv: Env) {
    forall i :: 0 <= i < |names| ==> names[i] in inv && Eval(inv[names[i]], oenv) == Lookup(env, names[i])
  }

  function AsExprs(outs: seq<VarName>): (r: seq<Expr>)
    ensures |r| == |outs| && forall i :: 0 <= i < |outs| ==> r[i] == Var(outs[i])
  {
    seq(|outs|, i requires 0 <= i < |outs| => Var(outs[i]))
  }

  /** The inverse of an index map takes its outputs back to the loop variables, if every division met was right. */
  method InverseIndexMap(names: seq<VarName>, extents: seq<int>, indices: seq<Expr>, outs: seq<VarName>)
    returns (r: Option<Subst>, ghost sites: seq<R.Site>)
    requires |names| == |extents| && Distinct(names) && forall i :: 0 <= i < |extents| ==> extents[i] > 0
    requires |outs| == |indices|
    ensures |sites| <= AllDivisions(indices)
    ensures r.Some? && R.AllRight(sites) ==>
      forall env, oenv :: InBounds(names, extents, env) && Outcome(indices, env, outs, oenv) ==>
        Returned(names, r.value, env, oenv)
    ensures r.Some? && AllEven(indices) ==>
      forall env, oenv :: InBounds(names, extents, env) && Outcome(indices, env, outs, oenv) ==>
        Returned(names, r.value, env, oenv)
    ensures AreStacks(R.InputVals(names, extents), indices) ==>
      (r.Some? <==>
        TilesInputs(names, extents, indices, true) && UnitScales(StacksOf(R.InputVals(names, extents), indices)))
  {
    var g;
    g, sites := DetectIterMap(names, extents, indices, true);
    if g.None? {
      return None, sites;
    }
    if AreStacks(R.InputVals(names, extents), indices) {
      MapOfStacksPasses(names, extents, indices, true);
      MapOfStacksInverts(names, extents, indices);
    }
    var inv := Inverse(g.value, AsExprs(outs));
    if inv.Some? && R.AllRight(sites) {
      forall env, oenv | InBounds(names, extents, env) && Outcome(indices, env, outs, oenv)
        ensures Returned(names, inv.value, env, oenv)
      {
        assert Follows(g.value, env, indices);
        assert Outputs(g.value, env, AsExprs(outs), oenv);
        ReturnedFrom(names, extents, g.value, inv.value, env, oenv);
      }
    }
    r := inv;
  }

  lemma {:induction false} ReturnedFrom(
    names: seq<VarName>, extents: seq<int>, g: Graph, inv: Subst, env: Env, oenv: Env)
    requires |names| == |extents| && R.Extends(R.InputMarks(names, extents), g.marks) && RecoversAll(g, inv, env, oenv)
    ensures Returned(names, inv, env, oenv)
  {
    forall i | 0 <= i < |names|
      ensures names[i] in inv && Eval(inv[names[i]], oenv) == Lookup(env, names[i])
    {
      assert g.marks[i] == R.InputMarks(names, extents)[i];
    }
  }
}
