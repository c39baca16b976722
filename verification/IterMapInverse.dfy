// The bijectivity check and the inverse it licenses: fed with a map's own outputs, the
// inverse returns the value of every input iterator.
module IterMapInverse {
  import opened Expr
  import opened SplitCover
  import opened IterMap
  import opened FuseDigits
  import opened InverseMap
  import opened VisitOrder

  // ----- what the check and the inverse require -----

  /**
   * The live splits of mark k, arranged by c, lie end to end from place one to the extent, or,
   * when only a surjection is asked for, with places skipped.
   */
  ghost predicate LivePlaces(g: Graph, k: nat, c: seq<Node>, bijective: bool)
    requires WellFormed(g) && k < |g.marks|
  {
    && NoRepeat(c)
    && (forall n :: n in c <==> Splits(g, n, k) && Live(g, n))
    && (if bijective then Chain(NodeSplits(g, c), 1, g.marks[k].extent)
        else SkipChain(NodeSplits(g, c), 1, g.marks[k].extent))
  }

  ghost predicate MarkPasses(g: Graph, k: nat, bijective: bool)
    requires WellFormed(g) && k < |g.marks|
  {
    exists c :: LivePlaces(g, k, c, bijective)
  }

  /** Every live mark is covered by its live splits without overlap. */
  ghost predicate AllPass(g: Graph, bijective: bool)
    requires WellFormed(g)
  {
    forall k :: 0 <= k < |g.marks| && LiveMark(g, k) ==> MarkPasses(g, k, bijective)
  }

  ghost predicate LiveInvertible(g: Graph)
    requires WellFormed(g)
  {
    forall o: Owner :: ValidOwner(g, o) && Live(g, SumNode(o)) ==> Invertible(SumAt(g, o))
  }

  lemma {:induction false} ReachedBy(g: Graph, order: seq<Node>, k: nat) returns (p: Node)
    requires Reached(g, order, k)
    ensures p in order && Splits(g, p, k)
  {
    p :| p in order && p.SplitNode? && ValidNode(g, p) && SplitAt(g, p).mark == k;
  }

  lemma {:induction false} LiveIffReached(g: Graph, order: seq<Node>, k: nat)
    requires WellFormed(g) && ParentsFirst(g, order)
    ensures LiveMark(g, k) <==> Reached(g, order, k)
  {
    if LiveMark(g, k) {
      var p: Node :| Splits(g, p, k) && Live(g, p);
      LiveInOrder(g, order, p);
    }
    if Reached(g, order, k) {
      var p := ReachedBy(g, order, k);
      var i :| 0 <= i < |order| && order[i] == p;
    }
  }

  lemma {:induction false} BijectiveOrder(g: Graph, order: seq<Node>)
    requires WellFormed(g) && ParentsFirst(g, order) && AllPass(g, true)
    ensures Bijective(g, order)
  {
    forall k | 0 <= k < |g.marks| && Reached(g, order, k)
      ensures exists c :: CoverOf(g, order, k, c)
    {
      LiveIffReached(g, order, k);
      assert MarkPasses(g, k, true);
      var c :| LivePlaces(g, k, c, true);
      forall n
        ensures n in c <==> n in order && n.SplitNode? && ValidNode(g, n) && SplitAt(g, n).mark == k
      {
        if n in c { LiveInOrder(g, order, n); }
        if n in order {
          var i :| 0 <= i < |order| && order[i] == n;
        }
      }
      assert CoverOf(g, order, k, c);
    }
  }

  // ----- the transformer -----

  /** outs, evaluated in oenv, are what the map outputs on env. */
  ghost predicate Outputs(g: Graph, env: Env, outs: seq<Expr>, oenv: Env)
    requires WellFormed(g)
  {
    |outs| == |g.outputs| && forall i :: 0 <= i < |outs| ==> Eval(outs[i], oenv) == SumVal(g, env, Out(i))
  }

  /** The substitution gives each live input its value in env, and no other input any. */
  ghost predicate Recovers(g: Graph, inv: Subst, env: Env, oenv: Env)
    requires WellFormed(g)
  {
    forall k :: 0 <= k < |g.marks| && g.marks[k].source.Input? ==> RecoversMark(g, inv, env, oenv, k)
  }

  ghost predicate RecoversMark(g: Graph, inv: Subst, env: Env, oenv: Env, k: nat)
    requires WellFormed(g) && k < |g.marks| && g.marks[k].source.Input?
  {
    var v := g.marks[k].source.v;
    if LiveMark(g, k) then v in inv && Eval(inv[v], oenv) == Lookup(env, v) else v !in inv
  }

  /** The accumulators hold what the visits so far must have left in them, whatever the inputs are. */
  ghost predicate OnTrack(g: Graph, outs: seq<Expr>, order: seq<Node>, t: nat, st: State)
    requires WellFormed(g) && ParentsFirst(g, order) && t <= |order|
  {
    forall env, oenv :: InRange(g, env) && Outputs(g, env, outs, oenv) ==> Progress(g, env, oenv, order, t, st)
  }

  ghost predicate KeysLeft(order: seq<Node>, t: nat, bp: Backprop) {
    forall j :: t <= j < |order| ==> order[j] in bp
  }

  lemma {:induction false} KeysSuffice(g: Graph, order: seq<Node>, t: nat, st: State)
    requires WellFormed(g) && ParentsFirst(g, order) && t < |order| && KeysLeft(order, t, st.bp)
    ensures CanStep(g, st, order[t])
  {
    var n := order[t];
    if n.SumNode? {
      forall l | 0 <= l < |SumAt(g, n.o).args|
        ensures SplitNode(n.o, l) in st.bp
      {
        var j := ChildLater(g, order, t, SplitNode(n.o, l));
      }
    } else {
      ValidSplit(g, n);
      var m := SplitAt(g, n).mark;
      if g.marks[m].source.Fused? { var j := ChildLater(g, order, t, SumNode(Inner(m))); }
    }
  }

  lemma {:induction false} StepKeepsKeys(g: Graph, st: State, n: Node)
    requires CanStep(g, st, n)
    ensures Step(g, st, n).bp.Keys == st.bp.Keys
  {
    if n.SumNode? {
      var sum := SumAt(g, n.o);
      DistributeSpec(st.bp, n.o, sum.args, MkSub(st.bp[n], Const(sum.base)), |sum.args|, map[]);
    }
  }

  lemma {:induction false} StepOnTrack(g: Graph, outs: seq<Expr>, order: seq<Node>, t: nat, st: State)
    requires WellFormed(g) && ParentsFirst(g, order) && Bijective(g, order) && AllInvertible(g, order)
    requires t < |order| && CanStep(g, st, order[t]) && OnTrack(g, outs, order, t, st)
    ensures OnTrack(g, outs, order, t + 1, Step(g, st, order[t]))
  {
    forall env, oenv | InRange(g, env) && Outputs(g, env, outs, oenv)
      ensures Progress(g, env, oenv, order, t + 1, Step(g, st, order[t]))
    {
      StepKeepsProgress(g, env, oenv, order, t, st);
    }
  }

  lemma {:induction false} EndRecovers(g: Graph, outs: seq<Expr>, order: seq<Node>, st: State, env: Env, oenv: Env)
    requires WellFormed(g) && ParentsFirst(g, order) && Bijective(g, order)
    requires OnTrack(g, outs, order, |order|, st) && InRange(g, env) && Outputs(g, env, outs, oenv)
    ensures Recovers(g, st.inv, env, oenv)
  {
    assert order[..|order|] == order;
    forall k | 0 <= k < |g.marks| && g.marks[k].source.Input?
      ensures RecoversMark(g, st.inv, env, oenv, k)
    {
      LiveIffReached(g, order, k);
      assert InverseFor(g, env, oenv, order, st, k);
      if LiveMark(g, k) { AccRebuilds(g, env, order, k); }
    }
  }

  class InverseAffineIterMapTransformer {
    var backprop: Backprop
    var inverse: Subst

    ghost function St(): State
      reads this
    {
      State(backprop, inverse)
    }

    constructor ()
      ensures backprop == map[] && inverse == map[]
    {
      backprop, inverse := map[], map[];
    }

    /** Zero for every node, then the given outputs for the output sums. */
    method Initialize(order: seq<Node>, outs: seq<Expr>)
      requires forall i :: 0 <= i < |outs| ==> SumNode(Out(i)) in order
      modifies this`backprop
      ensures backprop == InitialBackprop(order, outs)
    {
      backprop := map n | n in order :: Const(0);
      for i := 0 to |outs|
        invariant forall n :: n in backprop <==> n in order
        invariant forall n :: n in order ==> backprop[n] == StartValue(outs[..i], n)
      {
        backprop := backprop[SumNode(Out(i)) := outs[i]];
      }
      assert outs[..|outs|] == outs;
    }

    /** Refused, leaving the state open, exactly when the sum cannot be inverted. */
    method VisitSum(g: Graph, o: Owner) returns (ok: bool)
      requires CanStep(g, St(), SumNode(o))
      modifies this`backprop
      ensures ok <==> Invertible(SumAt(g, o))
      ensures ok ==> St() == StepSum(g, old(St()), o)
    {
      var sum := SumAt(g, o);
      var input := MkSub(backprop[SumNode(o)], Const(sum.base));
      if |sum.args| == 1 {
        var source := SplitNode(o, 0);
        if sum.args[0].scale != 1 && sum.args[0].scale != -1 {
          return false;
        }
        backprop := backprop[source := MkMul(MkAdd(backprop[source], input), Const(sum.args[0].scale))];
        return true;
      }
      ok := CheckFusePattern(sum.args);
      if !ok || (sum.args != [] && sum.args[|sum.args| - 1].scale == 0) {
        return false;
      }
      for i := |sum.args| downto 0
        invariant forall l :: 0 <= l < |sum.args| ==> SplitNode(o, l) in backprop
        invariant Distribute(backprop, o, sum.args, input, i) == StepSum(g, old(St()), o).bp
      {
        var split := SplitNode(o, i);
        backprop := backprop[split := MkAdd(backprop[split], PropValue(input, sum.args[i], i))];
      }
    }

    method VisitSplit(g: Graph, n: Node)
      requires n.SplitNode? && CanStep(g, St(), n)
      modifies this
      ensures St() == StepSplit(g, old(St()), n)
    {
      var split := SplitAt(g, n);
      var input := MkMul(backprop[n], Const(split.lower));
      match g.marks[split.mark].source
      case Fused(_) =>
        var source := SumNode(Inner(split.mark));
        backprop := backprop[source := MkAdd(backprop[source], input)];
      case Input(v) =>
        if v in inverse {
          inverse := inverse[v := MkAdd(inverse[v], input)];
        } else {
          inverse := inverse[v := input];
        }
    }

    method Visit(g: Graph, n: Node) returns (ok: bool)
      requires CanStep(g, St(), n)
      modifies this
      ensures ok <==> CanInvert(g, n)
      ensures ok ==> St() == Step(g, old(St()), n)
    {
      if n.SumNode? {
        ok := VisitSum(g, n.o);
      } else {
        VisitSplit(g, n);
        ok := true;
      }
    }

    /** Visits every node, parents first. */
    method Propagate(g: Graph, outs: seq<Expr>, order: seq<Node>) returns (ok: bool)
      requires WellFormed(g) && ParentsFirst(g, order) && |outs| == |g.outputs|
      requires backprop == InitialBackprop(order, outs) && inverse == map[]
      modifies this
      ensures ok <==> AllInvertible(g, order)
      ensures ok && Bijective(g, order) ==> OnTrack(g, outs, order, |order|, St())
    {
      StartRunning(g, outs, order);
      for t := 0 to |order|
        invariant Running(g, outs, order, t, St())
      {
        KeysSuffice(g, order, t, St());
        RunningStep(g, outs, order, t, St());
        ok := Visit(g, order[t]);
        if !ok {
          NotInvertible(g, order, t);
          return;
        }
      }
      EachInvertible(g, order);
      ok := true;
    }
  }

  ghost predicate Running(g: Graph, outs: seq<Expr>, order: seq<Node>, t: nat, st: State)
    requires WellFormed(g) && ParentsFirst(g, order) && t <= |order|
  {
    && KeysLeft(order, t, st.bp)
    && (forall i :: 0 <= i < t ==> CanInvert(g, order[i]))
    && (AllInvertible(g, order) && Bijective(g, order) ==> OnTrack(g, outs, order, t, st))
  }

  lemma {:induction false} StartRunning(g: Graph, outs: seq<Expr>, order: seq<Node>)
    requires WellFormed(g) && ParentsFirst(g, order) && |outs| == |g.outputs|
    ensures Running(g, outs, order, 0, State(InitialBackprop(order, outs), map[]))
  {
    StartOnTrack(g, outs, order);
  }

  lemma {:induction false} RunningStep(g: Graph, outs: seq<Expr>, order: seq<Node>, t: nat, st: State)
    requires WellFormed(g) && ParentsFirst(g, order) && t < |order| && CanStep(g, st, order[t])
    requires Running(g, outs, order, t, st)
    ensures CanInvert(g, order[t]) ==> Running(g, outs, order, t + 1, Step(g, st, order[t]))
  {
    StepKeepsKeys(g, st, order[t]);
    if AllInvertible(g, order) && Bijective(g, order) { StepOnTrack(g, outs, order, t, st); }
  }

  predicate CanInvert(g: Graph, n: Node)
    requires ValidNode(g, n)
  {
    n.SumNode? ==> Invertible(SumAt(g, n.o))
  }

  lemma {:induction false} NotInvertible(g: Graph, order: seq<Node>, t: nat)
    requires t < |order| && ValidNode(g, order[t]) && !CanInvert(g, order[t])
    ensures !AllInvertible(g, order)
  {
    assert order[t] in order;
  }

  lemma {:induction false} EachInvertible(g: Graph, order: seq<Node>)
    requires forall i :: 0 <= i < |order| ==> ValidNode(g, order[i]) && CanInvert(g, order[i])
    ensures AllInvertible(g, order)
  {
  }

  lemma {:induction false} StartOnTrack(g: Graph, outs: seq<Expr>, order: seq<Node>)
    requires WellFormed(g) && ParentsFirst(g, order) && |outs| == |g.outputs|
    ensures OnTrack(g, outs, order, 0, State(InitialBackprop(order, outs), map[]))
  {
    forall env, oenv | InRange(g, env) && Outputs(g, env, outs, oenv)
      ensures Progress(g, env, oenv, order, 0, State(InitialBackprop(order, outs), map[]))
    {
      InitialProgress(g, env, oenv, order, outs);
    }
  }

  lemma {:induction false} InvertibleOrder(g: Graph, order: seq<Node>)
    requires WellFormed(g) && ParentsFirst(g, order)
    ensures AllInvertible(g, order) <==> LiveInvertible(g)
  {
    if AllInvertible(g, order) {
      forall o: Owner | ValidOwner(g, o) && Live(g, SumNode(o))
        ensures Invertible(SumAt(g, o))
      {
        LiveInOrder(g, order, SumNode(o));
      }
    }
    if LiveInvertible(g) {
      forall n | n in order && n.SumNode? && ValidNode(g, n)
        ensures Invertible(SumAt(g, n.o))
      {
        var i :| 0 <= i < |order| && order[i] == n;
      }
    }
  }

  /**
   * Fails exactly when the outputs are of the wrong number or a live sum cannot be inverted.
   * When every live mark is covered exactly by its splits, the result recovers the inputs from the outputs.
   */
  method InverseAffineIterMap(g: Graph, outs: seq<Expr>) returns (r: Option<Subst>)
    requires WellFormed(g)
    ensures r.Some? <==> |outs| == |g.outputs| && LiveInvertible(g)
    ensures r.Some? && AllPass(g, true) ==>
      forall env, oenv :: InRange(g, env) && Outputs(g, env, outs, oenv) ==> Recovers(g, r.value, env, oenv)
  {
    if |outs| != |g.outputs| {
      return None;
    }
    var order := ReverseTopologyOrder(g);
    var transformer := new InverseAffineIterMapTransformer();
    transformer.Initialize(order, outs);
    var ok := transformer.Propagate(g, outs, order);
    InvertibleOrder(g, order);
    if !ok {
      return None;
    }
    if AllPass(g, true) {
      BijectiveOrder(g, order);
      forall env, oenv | InRange(g, env) && Outputs(g, env, outs, oenv)
        ensures Recovers(g, transformer.inverse, env, oenv)
      {
        EndRecovers(g, outs, order, transformer.St(), env, oenv);
      }
    }
    return Some(transformer.inverse);
  }
}
