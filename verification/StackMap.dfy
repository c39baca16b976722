// Index maps whose outputs are stacks of digits of the loop variables: when are they detected and inverted?
module StackMap {
  import opened Expr
  import opened SplitCover
  import opened FuseDigits
  import opened SplitSum
  import opened FuseIters
  import opened IterMap
  import opened InverseMap
  import opened IterMapInverse
  import opened MappingCheck
  import I = IntOperator
  import R = IterRewriter

  // ----- the graph of a map of stacks -----

  /** A fused iterator of digits, scaled, and what is added to it. */
  datatype Stack = Stack(f: Fusion, base: int)

  function StackMarks(ss: seq<Stack>): (r: seq<Mark>)
    ensures |r| == |ss| && forall i :: 0 <= i < |ss| ==> r[i] == R.MarkOf(ss[i].f)
  {
    seq(|ss|, i requires 0 <= i < |ss| => R.MarkOf(ss[i].f))
  }

  function StackOutputs(n: nat, ss: seq<Stack>): (r: seq<Sum>)
    ensures |r| == |ss| && forall i :: 0 <= i < |ss| ==> r[i] == R.OutputOf(ss[i].f, ss[i].base, n + i)
  {
    seq(|ss|, i requires 0 <= i < |ss| => R.OutputOf(ss[i].f, ss[i].base, n + i))
  }

  /** Every output is an iterator of its own, fused from digits of the inputs. */
  function StackGraph(inputs: seq<Mark>, ss: seq<Stack>): Graph {
    Graph(inputs + StackMarks(ss), StackOutputs(|inputs|, ss))
  }

  predicate DigitOver(inputs: seq<Mark>, s: Split) {
    s.Valid() && s.mark < |inputs| && s.extent > 1
  }

  /** Stacks of digits of the inputs, none of them trivial. */
  predicate StacksOver(inputs: seq<Mark>, ss: seq<Stack>) {
    && (forall k :: 0 <= k < |inputs| ==> inputs[k].source.Input?)
    && (forall i :: 0 <= i < |ss| ==> ss[i].f.extent > 1 && ss[i].f.args != [])
    && (forall i, p :: 0 <= i < |ss| && 0 <= p < |ss[i].f.args| ==> DigitOver(inputs, ss[i].f.args[p]))
  }

  // ----- the digits by their places -----

  /** Which stack, and which of its digits. */
  type Place = (nat, nat)

  predicate HasPlace(ss: seq<Stack>, at: Place) {
    at.0 < |ss| && at.1 < |ss[at.0].f.args|
  }

  function DigitAt(ss: seq<Stack>, at: Place): Split
    requires HasPlace(ss, at)
  {
    ss[at.0].f.args[at.1]
  }

  function DigitsAt(ss: seq<Stack>, c: seq<Place>): (r: seq<Split>)
    requires forall t :: 0 <= t < |c| ==> HasPlace(ss, c[t])
    ensures |r| == |c| && forall t :: 0 <= t < |c| ==> r[t] == DigitAt(ss, c[t])
  {
    seq(|c|, t requires 0 <= t < |c| => DigitAt(ss, c[t]))
  }

  /** c lists exactly the places of the digits of iterator k. */
  ghost predicate PlacesOf(ss: seq<Stack>, k: nat, c: seq<Place>) {
    && (forall t :: 0 <= t < |c| ==> HasPlace(ss, c[t]))
    && (forall t, u :: 0 <= t < u < |c| ==> c[t] != c[u])
    && (forall at: Place :: HasPlace(ss, at) ==> (at in c <==> DigitAt(ss, at).mark == k))
  }

  /** The digits of iterator k, arranged by c, lie end to end from place one to the extent, or with gaps between. */
  ghost predicate TilesBy(ss: seq<Stack>, k: nat, extent: int, c: seq<Place>, bijective: bool) {
    && PlacesOf(ss, k, c)
    && if bijective then Chain(DigitsAt(ss, c), 1, extent) else SkipChain(DigitsAt(ss, c), 1, extent)
  }

  ghost predicate Tiles(ss: seq<Stack>, k: nat, extent: int, bijective: bool) {
    exists c :: TilesBy(ss, k, extent, c, bijective)
  }

  /** The digits of each input do not overlap and, if bijective, make up all of it. */
  ghost predicate Tiled(inputs: seq<Mark>, ss: seq<Stack>, bijective: bool) {
    forall k :: 0 <= k < |inputs| ==> Tiles(ss, k, inputs[k].extent, bijective)
  }

  // ----- its nodes, all live -----

  function OutSplit(i: nat): Node { SplitNode(Out(i), 0) }

  function InnerSplit(n: nat, at: Place): Node { SplitNode(Inner(n + at.0), at.1) }

  lemma {:induction false} OutNode(inputs: seq<Mark>, ss: seq<Stack>, i: nat)
    requires StacksOver(inputs, ss) && WellFormed(StackGraph(inputs, ss)) && i < |ss|
    ensures var g, n := StackGraph(inputs, ss), |inputs|;
      && g.marks[n + i] == R.MarkOf(ss[i].f)
      && Splits(g, OutSplit(i), n + i) && Live(g, OutSplit(i)) && LiveMark(g, n + i)
      && SplitAt(g, OutSplit(i)) == Split(n + i, 1, ss[i].f.extent, ss[i].f.scale)
      && ValidOwner(g, Inner(n + i)) && Live(g, SumNode(Inner(n + i)))
  {
    var g, n := StackGraph(inputs, ss), |inputs|;
    assert g.marks[n + i] == R.MarkOf(ss[i].f);
    assert Live(g, SumNode(Out(i)));
    assert Splits(g, OutSplit(i), n + i) && Live(g, OutSplit(i));
  }

  lemma {:induction false} InnerNode(inputs: seq<Mark>, ss: seq<Stack>, at: Place)
    requires StacksOver(inputs, ss) && WellFormed(StackGraph(inputs, ss)) && HasPlace(ss, at)
    ensures var g, p := StackGraph(inputs, ss), InnerSplit(|inputs|, at);
      && Splits(g, p, DigitAt(ss, at).mark) && Live(g, p) && LiveMark(g, DigitAt(ss, at).mark)
      && SplitAt(g, p) == DigitAt(ss, at)
  {
    OutNode(inputs, ss, at.0);
    var g, p := StackGraph(inputs, ss), InnerSplit(|inputs|, at);
    assert Splits(g, p, DigitAt(ss, at).mark) && Live(g, p);
  }

  /** The place of the digit that a split node of a fused iterator stands for. */
  function PlaceOf(n: nat, p: Node): Place
    requires p.SplitNode? && p.o.Inner? && p.o.k >= n
  {
    (p.o.k - n, p.pos)
  }

  lemma {:induction false} NodesAreDigits(inputs: seq<Mark>, ss: seq<Stack>, p: Node, k: nat)
    requires StacksOver(inputs, ss) && WellFormed(StackGraph(inputs, ss)) && Splits(StackGraph(inputs, ss), p, k)
    ensures Live(StackGraph(inputs, ss), p)
    ensures k < |inputs| ==>
      && p.o.Inner? && p.o.k >= |inputs| && HasPlace(ss, PlaceOf(|inputs|, p))
      && p == InnerSplit(|inputs|, PlaceOf(|inputs|, p)) && DigitAt(ss, PlaceOf(|inputs|, p)).mark == k
    ensures k >= |inputs| ==> k < |inputs| + |ss| && p == OutSplit(k - |inputs|)
  {
    var g, n := StackGraph(inputs, ss), |inputs|;
    match p.o {
      case Out(i) =>
        assert SumAt(g, p.o) == R.OutputOf(ss[i].f, ss[i].base, n + i);
        OutNode(inputs, ss, i);
      case Inner(j) =>
        assert g.marks[j].source.Fused?;
        assert n <= j && g.marks[j] == R.MarkOf(ss[j - n].f);
        assert DigitOver(inputs, ss[j - n].f.args[p.pos]);
        InnerNode(inputs, ss, (j - n, p.pos));
    }
  }

  // ----- it passes the check exactly when it is a tiling -----

  lemma {:induction false} WholeChain(s: Split, c: seq<Split>)
    requires s.lower == 1 && c == [s]
    ensures Chain(c, 1, s.extent) && SkipChain(c, 1, s.extent)
  {
    assert c[1..] == [] && I.Divides(1, s.lower) && I.Divides(s.extent, s.extent) by {
      assert s.lower == 1 * 1 && s.extent == s.extent * 1;
    }
  }

  lemma {:induction false} OutputPasses(inputs: seq<Mark>, ss: seq<Stack>, i: nat, bijective: bool)
    requires StacksOver(inputs, ss) && WellFormed(StackGraph(inputs, ss)) && i < |ss|
    ensures MarkPasses(StackGraph(inputs, ss), |inputs| + i, bijective)
  {
    var g, k, c := StackGraph(inputs, ss), |inputs| + i, [OutSplit(i)];
    OutNode(inputs, ss, i);
    forall n: Node ensures n in c <==> Splits(g, n, k) && Live(g, n) {
      if Splits(g, n, k) { NodesAreDigits(inputs, ss, n, k); }
    }
    assert NodeSplits(g, c) == [Split(k, 1, ss[i].f.extent, ss[i].f.scale)];
    assert NoRepeat(c) by { NoRepeatPairs(c); }
    WholeChain(SplitAt(g, c[0]), NodeSplits(g, c));
    assert LivePlaces(g, k, c, bijective);
  }

  /** The nodes of the digits at the given places. */
  function InnerNodes(n: nat, c: seq<Place>): (r: seq<Node>)
    ensures |r| == |c| && forall t :: 0 <= t < |c| ==> r[t] == InnerSplit(n, c[t])
  {
    seq(|c|, t requires 0 <= t < |c| => InnerSplit(n, c[t]))
  }

  lemma {:induction false} InnerNodesSplits(inputs: seq<Mark>, ss: seq<Stack>, k: nat, c: seq<Place>)
    requires StacksOver(inputs, ss) && WellFormed(StackGraph(inputs, ss)) && k < |inputs| && PlacesOf(ss, k, c)
    ensures var g, a := StackGraph(inputs, ss), InnerNodes(|inputs|, c);
      && NoRepeat(a) && (forall n: Node :: n in a <==> Splits(g, n, k) && Live(g, n))
      && NodeSplits(g, a) == DigitsAt(ss, c)
  {
    var g, a := StackGraph(inputs, ss), InnerNodes(|inputs|, c);
    NoRepeatPairs(a);
    forall t, u | 0 <= t < u < |a| ensures a[t] != a[u] { assert c[t] != c[u]; }
    forall n: Node ensures n in a <==> Splits(g, n, k) && Live(g, n) {
      if Splits(g, n, k) {
        NodesAreDigits(inputs, ss, n, k);
        var t :| 0 <= t < |c| && c[t] == PlaceOf(|inputs|, n);
        assert a[t] == n;
      }
      if n in a {
        var t :| 0 <= t < |a| && a[t] == n;
        assert c[t] in c;
        InnerNode(inputs, ss, c[t]);
      }
    }
    forall t | 0 <= t < |c| ensures NodeSplits(g, a)[t] == DigitsAt(ss, c)[t] { InnerNode(inputs, ss, c[t]); }
  }

  lemma {:induction false} TilingPasses(inputs: seq<Mark>, ss: seq<Stack>, k: nat, c: seq<Place>, bijective: bool)
    requires StacksOver(inputs, ss) && WellFormed(StackGraph(inputs, ss)) && k < |inputs|
    requires TilesBy(ss, k, inputs[k].extent, c, bijective)
    ensures MarkPasses(StackGraph(inputs, ss), k, bijective)
  {
    InnerNodesSplits(inputs, ss, k, c);
    assert LivePlaces(StackGraph(inputs, ss), k, InnerNodes(|inputs|, c), bijective);
  }

  /** The places of the digits that the nodes stand for. */
  function Places(n: nat, a: seq<Node>): (c: seq<Place>)
    requires forall t :: 0 <= t < |a| ==> a[t].SplitNode? && a[t].o.Inner? && a[t].o.k >= n
    ensures |c| == |a| && forall t :: 0 <= t < |a| ==> c[t] == PlaceOf(n, a[t])
  {
    seq(|a|, t requires 0 <= t < |a| => PlaceOf(n, a[t]))
  }

  ghost predicate InnerOnly(inputs: seq<Mark>, ss: seq<Stack>, k: nat, a: seq<Node>) {
    forall t :: 0 <= t < |a| ==>
      && a[t].SplitNode? && a[t].o.Inner? && a[t].o.k >= |inputs| && HasPlace(ss, PlaceOf(|inputs|, a[t]))
      && a[t] == InnerSplit(|inputs|, PlaceOf(|inputs|, a[t])) && DigitAt(ss, PlaceOf(|inputs|, a[t])).mark == k
  }

  lemma {:induction false} LiveAreInner(inputs: seq<Mark>, ss: seq<Stack>, k: nat, a: seq<Node>, bijective: bool)
    requires StacksOver(inputs, ss) && WellFormed(StackGraph(inputs, ss)) && k < |inputs|
    requires LivePlaces(StackGraph(inputs, ss), k, a, bijective)
    ensures InnerOnly(inputs, ss, k, a)
    ensures forall at: Place :: HasPlace(ss, at) && DigitAt(ss, at).mark == k ==> InnerSplit(|inputs|, at) in a
  {
    forall t | 0 <= t < |a|
      ensures && a[t].SplitNode? && a[t].o.Inner? && a[t].o.k >= |inputs| && HasPlace(ss, PlaceOf(|inputs|, a[t]))
              && a[t] == InnerSplit(|inputs|, PlaceOf(|inputs|, a[t]))
              && DigitAt(ss, PlaceOf(|inputs|, a[t])).mark == k
    {
      assert a[t] in a;
      NodesAreDigits(inputs, ss, a[t], k);
    }
    forall at: Place | HasPlace(ss, at) && DigitAt(ss, at).mark == k ensures InnerSplit(|inputs|, at) in a {
      InnerNode(inputs, ss, at);
    }
  }

  lemma {:induction false} InnerPlaces(inputs: seq<Mark>, ss: seq<Stack>, k: nat, a: seq<Node>)
    requires NoRepeat(a) && InnerOnly(inputs, ss, k, a)
    requires forall at: Place :: HasPlace(ss, at) && DigitAt(ss, at).mark == k ==> InnerSplit(|inputs|, at) in a
    ensures PlacesOf(ss, k, Places(|inputs|, a)) && InnerNodes(|inputs|, Places(|inputs|, a)) == a
  {
    var n, c := |inputs|, Places(|inputs|, a);
    NoRepeatPairs(a);
    forall at: Place | HasPlace(ss, at) && DigitAt(ss, at).mark == k ensures at in c {
      var t :| 0 <= t < |a| && a[t] == InnerSplit(n, at);
      assert c[t] == at;
    }
  }

  lemma {:induction false} PassingTiles(inputs: seq<Mark>, ss: seq<Stack>, k: nat, bijective: bool)
    requires StacksOver(inputs, ss) && WellFormed(StackGraph(inputs, ss)) && k < |inputs|
    requires MarkPasses(StackGraph(inputs, ss), k, bijective)
    ensures Tiles(ss, k, inputs[k].extent, bijective)
  {
    var g := StackGraph(inputs, ss);
    var a :| LivePlaces(g, k, a, bijective);
    LiveAreInner(inputs, ss, k, a, bijective);
    InnerPlaces(inputs, ss, k, a);
    var c := Places(|inputs|, a);
    InnerNodesSplits(inputs, ss, k, c);
    assert g.marks[k] == inputs[k];
    assert TilesBy(ss, k, inputs[k].extent, c, bijective);
  }

  lemma {:induction false} UnusedTiles(inputs: seq<Mark>, ss: seq<Stack>, k: nat, bijective: bool)
    requires StacksOver(inputs, ss) && WellFormed(StackGraph(inputs, ss)) && k < |inputs|
    requires !LiveMark(StackGraph(inputs, ss), k) && (bijective ==> inputs[k].extent == 1)
    ensures TilesBy(ss, k, inputs[k].extent, [], bijective)
  {
    assert I.Divides(1, inputs[k].extent) by { assert inputs[k].extent == 1 * inputs[k].extent; }
    forall at: Place | HasPlace(ss, at) ensures DigitAt(ss, at).mark != k { InnerNode(inputs, ss, at); }
  }

  /** What the check asks of a map. */
  ghost predicate Passes(g: Graph, bijective: bool)
    requires WellFormed(g)
  {
    AllPass(g, bijective) && (bijective ==> InputsUsed(g))
  }

  lemma {:induction false} TiledUses(inputs: seq<Mark>, ss: seq<Stack>)
    requires StacksOver(inputs, ss) && WellFormed(StackGraph(inputs, ss)) && Tiled(inputs, ss, true)
    ensures InputsUsed(StackGraph(inputs, ss))
  {
    var g := StackGraph(inputs, ss);
    forall k | 0 <= k < |g.marks| && g.marks[k].source.Input? ensures LiveMark(g, k) || g.marks[k].extent == 1 {
      assert k < |inputs| && g.marks[k] == inputs[k];
      assert Tiles(ss, k, inputs[k].extent, true);
      var c :| TilesBy(ss, k, inputs[k].extent, c, true);
      if c != [] {
        assert c[0] in c;
        InnerNode(inputs, ss, c[0]);
      }
    }
  }

  lemma {:induction false} TiledPasses(inputs: seq<Mark>, ss: seq<Stack>, bijective: bool)
    requires StacksOver(inputs, ss) && WellFormed(StackGraph(inputs, ss)) && Tiled(inputs, ss, bijective)
    ensures Passes(StackGraph(inputs, ss), bijective)
  {
    var g := StackGraph(inputs, ss);
    forall k | 0 <= k < |g.marks| && LiveMark(g, k) ensures MarkPasses(g, k, bijective) {
      if k < |inputs| {
        assert Tiles(ss, k, inputs[k].extent, bijective);
        var c :| TilesBy(ss, k, inputs[k].extent, c, bijective);
        TilingPasses(inputs, ss, k, c, bijective);
      } else {
        OutputPasses(inputs, ss, k - |inputs|, bijective);
      }
    }
    if bijective { TiledUses(inputs, ss); }
  }

  lemma {:induction false} PassesTiled(inputs: seq<Mark>, ss: seq<Stack>, bijective: bool)
    requires StacksOver(inputs, ss) && WellFormed(StackGraph(inputs, ss)) && Passes(StackGraph(inputs, ss), bijective)
    ensures Tiled(inputs, ss, bijective)
  {
    var g := StackGraph(inputs, ss);
    forall k | 0 <= k < |inputs| ensures Tiles(ss, k, inputs[k].extent, bijective) {
      assert g.marks[k] == inputs[k];
      if LiveMark(g, k) {
        PassingTiles(inputs, ss, k, bijective);
      } else {
        UnusedTiles(inputs, ss, k, bijective);
      }
    }
  }

  /** The check accepts a map of stacks exactly when the digits of each input tile it. */
  lemma {:induction false} PassesIffTiled(inputs: seq<Mark>, ss: seq<Stack>, bijective: bool)
    requires StacksOver(inputs, ss) && WellFormed(StackGraph(inputs, ss))
    ensures Passes(StackGraph(inputs, ss), bijective) <==> Tiled(inputs, ss, bijective)
  {
    if Passes(StackGraph(inputs, ss), bijective) {
      PassesTiled(inputs, ss, bijective);
    } else if Tiled(inputs, ss, bijective) {
      TiledPasses(inputs, ss, bijective);
    }
  }

  /** No split of it is trivial. */
  lemma {:induction false} StacksWide(inputs: seq<Mark>, ss: seq<Stack>)
    requires StacksOver(inputs, ss) && WellFormed(StackGraph(inputs, ss))
    ensures forall k :: 0 <= k < |inputs| + |ss| ==> WideLive(StackGraph(inputs, ss), k)
  {
    var g, n := StackGraph(inputs, ss), |inputs|;
    forall k, p: Node | 0 <= k < n + |ss| && Splits(g, p, k) ensures SplitAt(g, p).extent > 1 {
      NodesAreDigits(inputs, ss, p, k);
      if k < n { InnerNode(inputs, ss, PlaceOf(n, p)); } else { OutNode(inputs, ss, k - n); }
    }
  }

  predicate UnitScales(ss: seq<Stack>) {
    forall i :: 0 <= i < |ss| ==> ss[i].f.scale == 1 || ss[i].f.scale == -1
  }

  /** It can be inverted exactly when no output is scaled. */
  lemma {:induction false} InvertibleIffUnit(inputs: seq<Mark>, ss: seq<Stack>)
    requires StacksOver(inputs, ss) && WellFormed(StackGraph(inputs, ss))
    requires forall i :: 0 <= i < |ss| ==> ExactArgs(ss[i].f.args)
    ensures LiveInvertible(StackGraph(inputs, ss)) <==> UnitScales(ss)
  {
    var g, n := StackGraph(inputs, ss), |inputs|;
    if UnitScales(ss) {
      forall o: Owner | ValidOwner(g, o) ensures Invertible(SumAt(g, o)) {
        if o.Inner? { assert g.marks[o.k] == R.MarkOf(ss[o.k - n].f); }
      }
    }
    if LiveInvertible(g) {
      forall i | 0 <= i < |ss| ensures ss[i].f.scale == 1 || ss[i].f.scale == -1 {
        assert ValidOwner(g, Out(i)) && Live(g, SumNode(Out(i)));
        assert Invertible(SumAt(g, Out(i)));
      }
    }
  }

  // ----- from index expressions -----

  predicate IsSum(vars: map<VarName, R.IterVal>, e: Expr) {
    R.ValOf(vars, e).Some? && R.ToSum(R.ValOf(vars, e).value).args != []
  }

  /** The sum an index is rewritten to. */
  function IndexSum(vars: map<VarName, R.IterVal>, e: Expr): Sum
    requires IsSum(vars, e)
  {
    R.ToSum(R.ValOf(vars, e).value)
  }

  /** Every index is rewritten to digits of different iterators, none of them trivial. */
  ghost predicate AreSums(vars: map<VarName, R.IterVal>, indices: seq<Expr>) {
    forall i :: 0 <= i < |indices| ==>
      && IsSum(vars, indices[i])
      && MarksDiffer(IndexSum(vars, indices[i]).args) && Wide(IndexSum(vars, indices[i]).args)
  }

  ghost predicate IsStacked(vars: map<VarName, R.IterVal>, e: Expr) {
    IsSum(vars, e) && R.IsStack(IndexSum(vars, e))
  }

  ghost function StackFor(vars: map<VarName, R.IterVal>, e: Expr): Stack
    requires IsStacked(vars, e)
  {
    Stack(R.StackOf(IndexSum(vars, e)), IndexSum(vars, e).base)
  }

  /** Every index is rewritten to a stack of digits, no two to the same. */
  ghost predicate AreStacks(vars: map<VarName, R.IterVal>, indices: seq<Expr>) {
    && (forall i :: 0 <= i < |indices| ==> IsStacked(vars, indices[i]))
    && (forall i, j :: 0 <= i < j < |indices| ==>
          StackFor(vars, indices[i]).f.args != StackFor(vars, indices[j]).f.args)
  }

  ghost function StacksOf(vars: map<VarName, R.IterVal>, indices: seq<Expr>): (ss: seq<Stack>)
    requires AreStacks(vars, indices)
    ensures |ss| == |indices| && forall i :: 0 <= i < |indices| ==> ss[i] == StackFor(vars, indices[i])
  {
    seq(|indices|, i requires 0 <= i < |indices| => StackFor(vars, indices[i]))
  }

  // ----- the digits are digits of the loop variables -----

  lemma {:induction false} AddedOk(args: seq<Split>, s: Split, sign: int, bound: nat)
    requires ArgsOk(args, bound) && s.Valid() && s.mark < bound
    ensures ArgsOk(R.Added(args, s, sign), bound)
  {
    if args != [] && !R.Like(args[0], s) { AddedOk(args[1..], s, sign, bound); }
  }

  lemma {:induction false} AddedAllOk(args: seq<Split>, more: seq<Split>, sign: int, bound: nat)
    requires ArgsOk(args, bound) && ArgsOk(more, bound)
    ensures ArgsOk(R.AddedAll(args, more, sign), bound)
  {
    if more != [] {
      AddedAllOk(args, more[..|more| - 1], sign, bound);
      AddedOk(R.AddedAll(args, more[..|more| - 1], sign), more[|more| - 1], sign, bound);
    }
  }

  lemma {:induction false} EvenParts(lower: int, extent: int, c: int)
    requires lower > 0 && extent > 0 && c > 0 && extent % c == 0
    ensures lower * c > 0 && extent / c > 0
  {
    assert extent == c * (extent / c);
  }

  lemma {:induction false} StepOk(e: Expr, a: R.IterVal, b: R.IterVal, bound: nat)
    requires R.ValOk(a, bound) && R.ValOk(b, bound) && R.StepVal(e, a, b).Some?
    ensures R.ValOk(R.StepVal(e, a, b).value, bound)
  {
    if e.Add? || e.Sub? {
      AddedAllOk(R.ToSum(a).args, R.ToSum(b).args, if e.Add? then 1 else -1, bound);
    } else if e.FDiv? {
      EvenParts(a.split.lower, a.split.extent, b.c);
    }
  }

  lemma {:induction false} ValInputs(names: seq<VarName>, extents: seq<int>, e: Expr)
    requires |names| == |extents| && forall i :: 0 <= i < |extents| ==> extents[i] > 0
    requires forall i, j :: 0 <= i < j < |names| ==> names[i] != names[j]
    requires R.ValOf(R.InputVals(names, extents), e).Some?
    ensures R.ValOk(R.ValOf(R.InputVals(names, extents), e).value, |names|)
  {
    var vars := R.InputVals(names, extents);
    if !e.Const? && !e.Var? {
      ValInputs(names, extents, e.a);
      ValInputs(names, extents, e.b);
      StepOk(e, R.ValOf(vars, e.a).value, R.ValOf(vars, e.b).value, |names|);
    }
  }

  lemma {:induction false} WeightWide(args: seq<Split>)
    requires Wide(args) && args != []
    ensures Weight(args) > 1
  {
    if |args| > 1 {
      WeightWide(args[1..]);
      assert args[0].extent * Weight(args[1..]) >= Weight(args[1..]);
    }
  }

  lemma {:induction false} StackFits(inputs: seq<Mark>, sum: Sum)
    requires R.IsStack(sum) && ArgsOk(sum.args, |inputs|)
    ensures var f := R.StackOf(sum);
      f.extent > 1 && f.args != [] && forall p :: 0 <= p < |f.args| ==> DigitOver(inputs, f.args[p])
  {
    var f := R.StackOf(sum);
    var q :| StackedBy(sum.args, q) && f == FusionOf(sum.args, q);
    WeightWide(f.args);
  }

  /** The digits of the loop variables do not overlap and, if bijective, make them up. */
  ghost predicate TilesInputs(names: seq<VarName>, extents: seq<int>, indices: seq<Expr>, bijective: bool)
    requires |names| == |extents| && forall i, j :: 0 <= i < j < |names| ==> names[i] != names[j]
    requires AreStacks(R.InputVals(names, extents), indices)
  {
    Tiled(R.InputMarks(names, extents), StacksOf(R.InputVals(names, extents), indices), bijective)
  }

  lemma {:induction false} StacksFit(names: seq<VarName>, extents: seq<int>, indices: seq<Expr>)
    requires |names| == |extents| && forall i :: 0 <= i < |extents| ==> extents[i] > 0
    requires forall i, j :: 0 <= i < j < |names| ==> names[i] != names[j]
    requires AreStacks(R.InputVals(names, extents), indices)
    ensures StacksOver(R.InputMarks(names, extents), StacksOf(R.InputVals(names, extents), indices))
  {
    var inputs, vars := R.InputMarks(names, extents), R.InputVals(names, extents);
    var ss := StacksOf(vars, indices);
    forall i | 0 <= i < |indices|
      ensures ss[i].f.extent > 1 && ss[i].f.args != []
      ensures forall p :: 0 <= p < |ss[i].f.args| ==> DigitOver(inputs, ss[i].f.args[p])
    {
      ValInputs(names, extents, indices[i]);
      StackFits(inputs, IndexSum(vars, indices[i]));
    }
  }

  // ----- a pass over stacks -----

  /** A stack not met before is given an iterator of its own; if bijective, sums of different digits are stacks. */
  ghost predicate StackTaken(vars: map<VarName, R.IterVal>, e: Expr, marks0: seq<Mark>, fuseMap0: map<seq<Split>, nat>,
                             marks: seq<Mark>, fuseMap: map<seq<Split>, nat>, r: Option<Sum>, bijective: bool) {
    && (bijective && r.Some? && AreSums(vars, [e]) ==> IsStacked(vars, e))
    && (IsSum(vars, e) ==> R.FreshStack(IndexSum(vars, e), marks0, fuseMap0, r, marks, fuseMap))
  }

  /** How far a pass over indices that are stacks has come after i of them. */
  ghost predicate StacksDone(
    marks0: seq<Mark>, marks: seq<Mark>, fuseMap: map<seq<Split>, nat>, sums: seq<Sum>, ss: seq<Stack>, i: nat)
  {
    && i <= |ss| && marks == marks0 + StackMarks(ss[..i]) && sums == StackOutputs(|marks0|, ss[..i])
    && (forall j :: i <= j < |ss| ==> ss[j].f.args !in fuseMap)
  }

  lemma {:induction false} OneMoreStack(
    marks0: seq<Mark>, marks: seq<Mark>, fuseMap: map<seq<Split>, nat>, sums: seq<Sum>, ss: seq<Stack>, i: nat)
    requires StacksDone(marks0, marks, fuseMap, sums, ss, i) && i < |ss|
    requires forall j, k :: 0 <= j < k < |ss| ==> ss[j].f.args != ss[k].f.args
    ensures ss[i].f.args !in fuseMap
    ensures StacksDone(marks0, marks + [R.MarkOf(ss[i].f)], fuseMap[ss[i].f.args := |marks|],
                       sums + [R.OutputOf(ss[i].f, ss[i].base, |marks|)], ss, i + 1)
  {
    assert ss[..i + 1] == ss[..i] + [ss[i]];
    assert StackMarks(ss[..i + 1]) == StackMarks(ss[..i]) + [R.MarkOf(ss[i].f)];
    assert |marks| == |marks0| + i;
    assert StackOutputs(|marks0|, ss[..i + 1]) ==
           StackOutputs(|marks0|, ss[..i]) + [R.OutputOf(ss[i].f, ss[i].base, |marks|)];
  }

  ghost predicate AllStacked(vars: map<VarName, R.IterVal>, indices: seq<Expr>, n: nat) {
    n <= |indices| && forall i :: 0 <= i < n ==> IsStacked(vars, indices[i])
  }

  /** No index has a remainder that the first pass would pad. */
  predicate AllEvenSteps(vars: map<VarName, R.IterVal>, indices: seq<Expr>) {
    forall i :: 0 <= i < |indices| ==> R.EvenSteps(vars, indices[i])
  }

  /** What a pass that pads nothing has come to after i indices. */
  ghost predicate PassDone(vars: map<VarName, R.IterVal>, indices: seq<Expr>, marks0: seq<Mark>, marks: seq<Mark>,
                           fuseMap: map<seq<Split>, nat>, sums: seq<Sum>, bijective: bool, i: nat) {
    && (bijective && AreSums(vars, indices) ==> AllStacked(vars, indices, i))
    && (AreStacks(vars, indices) ==> StacksDone(marks0, marks, fuseMap, sums, StacksOf(vars, indices), i))
  }

  lemma {:induction false} PassStep(
    vars: map<VarName, R.IterVal>, indices: seq<Expr>, marks0: seq<Mark>, marks1: seq<Mark>,
    fuseMap1: map<seq<Split>, nat>, sums: seq<Sum>, bijective: bool, i: nat, marks: seq<Mark>,
    fuseMap: map<seq<Split>, nat>, r: Option<Sum>)
    requires PassDone(vars, indices, marks0, marks1, fuseMap1, sums, bijective, i) && i < |indices|
    requires StackTaken(vars, indices[i], marks1, fuseMap1, marks, fuseMap, r, bijective)
    ensures AreStacks(vars, indices) ==> r.Some?
    ensures r.Some? ==> PassDone(vars, indices, marks0, marks, fuseMap, sums + [r.value], bijective, i + 1)
  {
    if AreStacks(vars, indices) { OneMoreStack(marks0, marks1, fuseMap1, sums, StacksOf(vars, indices), i); }
    if bijective && AreSums(vars, indices) {
      assert [indices[i]][0] == indices[i];
      assert AreSums(vars, [indices[i]]);
    }
  }

  lemma {:induction false} PassEnd(vars: map<VarName, R.IterVal>, indices: seq<Expr>, marks0: seq<Mark>,
                                   marks: seq<Mark>, fuseMap: map<seq<Split>, nat>, sums: seq<Sum>, bijective: bool)
    requires PassDone(vars, indices, marks0, marks, fuseMap, sums, bijective, |indices|)
    ensures AreStacks(vars, indices) ==>
      sums == StackOutputs(|marks0|, StacksOf(vars, indices)) && marks == marks0 + StackMarks(StacksOf(vars, indices))
  {
    if AreStacks(vars, indices) { assert StacksOf(vars, indices)[..|indices|] == StacksOf(vars, indices); }
  }
}
