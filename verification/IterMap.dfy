// Iterator maps: marked iterators, their splits, and the sums that fuse splits into new iterators.
module IterMap {
  import opened Expr
  import opened SplitCover

  /** base plus the scaled digits of the args. */
  datatype Sum = Sum(args: seq<Split>, base: int)

  datatype Source = Input(v: VarName) | Fused(sum: Sum)

  /** An iterator meant to range over [0, extent). */
  datatype Mark = Mark(source: Source, extent: int)

  /** A DAG of marks; a fused mark reads splits of earlier marks only. */
  datatype Graph = Graph(marks: seq<Mark>, outputs: seq<Sum>)

  predicate SumOk(sum: Sum, bound: nat) {
    forall i :: 0 <= i < |sum.args| ==> sum.args[i].Valid() && sum.args[i].mark < bound
  }

  predicate WellFormed(g: Graph) {
    && (forall k :: 0 <= k < |g.marks| ==> g.marks[k].extent > 0)
    && (forall k :: 0 <= k < |g.marks| && g.marks[k].source.Fused? ==> SumOk(g.marks[k].source.sum, k))
    && (forall i :: 0 <= i < |g.outputs| ==> SumOk(g.outputs[i], |g.marks|))
    && (forall j, k :: 0 <= j < k < |g.marks| && g.marks[j].source.Input? && g.marks[k].source.Input? ==>
          g.marks[j].source.v != g.marks[k].source.v)
  }

  function MarkVal(g: Graph, env: Env, k: nat): int
    requires WellFormed(g) && k < |g.marks|
    decreases 2 * k + 1, 0
  {
    match g.marks[k].source
    case Input(v) => Lookup(env, v)
    case Fused(sum) => ArgsVal(g, env, sum.args, k) + sum.base
  }

  function ArgsVal(g: Graph, env: Env, args: seq<Split>, bound: nat): int
    requires WellFormed(g) && bound <= |g.marks| && SumOk(Sum(args, 0), bound)
    decreases 2 * bound, |args|
  {
    if args == [] then 0
    else args[0].scale * args[0].Digit(MarkVal(g, env, args[0].mark)) + ArgsVal(g, env, args[1..], bound)
  }

  /** Every mark ranges over [0, extent), as marks promise. */
  ghost predicate InRange(g: Graph, env: Env)
    requires WellFormed(g)
  {
    forall k :: 0 <= k < |g.marks| ==> 0 <= MarkVal(g, env, k) < g.marks[k].extent
  }

  // ----- nodes of the DAG: sums and the splits at their positions -----

  datatype Owner = Out(i: nat) | Inner(k: nat)

  datatype Node = SumNode(o: Owner) | SplitNode(o: Owner, pos: nat)

  predicate ValidOwner(g: Graph, o: Owner) {
    match o
    case Out(i) => i < |g.outputs|
    case Inner(k) => k < |g.marks| && g.marks[k].source.Fused?
  }

  function SumAt(g: Graph, o: Owner): Sum
    requires ValidOwner(g, o)
  {
    match o case Out(i) => g.outputs[i] case Inner(k) => g.marks[k].source.sum
  }

  function Bound(g: Graph, o: Owner): nat {
    match o case Out(_) => |g.marks| case Inner(k) => k
  }

  predicate ValidNode(g: Graph, n: Node) {
    ValidOwner(g, n.o) && (n.SplitNode? ==> n.pos < |SumAt(g, n.o).args|)
  }

  function SplitAt(g: Graph, n: Node): Split
    requires ValidNode(g, n) && n.SplitNode?
  {
    SumAt(g, n.o).args[n.pos]
  }

  lemma ValidSplit(g: Graph, n: Node)
    requires WellFormed(g) && ValidNode(g, n) && n.SplitNode?
    ensures SplitAt(g, n).Valid() && SplitAt(g, n).mark < Bound(g, n.o) <= |g.marks|
  {
  }

  function SumVal(g: Graph, env: Env, o: Owner): int
    requires WellFormed(g) && ValidOwner(g, o)
  {
    var b := Bound(g, o);
    assert b <= |g.marks|;
    ArgsVal(g, env, SumAt(g, o).args, b) + SumAt(g, o).base
  }

  /** The digit a split node stands for. */
  function NodeDigit(g: Graph, env: Env, n: Node): int
    requires WellFormed(g) && ValidNode(g, n) && n.SplitNode?
  {
    ValidSplit(g, n);
    SplitAt(g, n).Digit(MarkVal(g, env, SplitAt(g, n).mark))
  }

  /** The nodes a node hands its value on to. */
  predicate Child(g: Graph, n: Node, c: Node)
    requires ValidNode(g, n)
  {
    match n
    case SumNode(o) => c.SplitNode? && c.o == o && c.pos < |SumAt(g, o).args|
    case SplitNode(o, pos) =>
      var m := SplitAt(g, n).mark;
      m < |g.marks| && g.marks[m].source.Fused? && c == SumNode(Inner(m))
  }

  // ----- the part of the DAG that hangs from the outputs -----

  /** Ranks fall along every edge. */
  function Rank(g: Graph, n: Node): (r: nat)
    requires WellFormed(g) && ValidNode(g, n)
    ensures r <= 2 * |g.marks| + 2
  {
    match n
    case SumNode(Out(_)) => 2 * |g.marks| + 2
    case SumNode(Inner(k)) => 2 * k + 1
    case SplitNode(_, _) => ValidSplit(g, n); 2 * SplitAt(g, n).mark + 2
  }

  lemma {:induction false} RankFalls(g: Graph, n: Node, c: Node)
    requires WellFormed(g) && ValidNode(g, n) && Child(g, n, c)
    ensures ValidNode(g, c) && Rank(g, c) < Rank(g, n)
  {
    if n.SumNode? { ValidSplit(g, c); }
  }

  /** p is a split of mark k. */
  predicate Splits(g: Graph, p: Node, k: nat) {
    p.SplitNode? && ValidNode(g, p) && SplitAt(g, p).mark == k
  }

  /** n is reached from the outputs. */
  ghost predicate Live(g: Graph, n: Node)
    requires WellFormed(g) && ValidNode(g, n)
    decreases 2 * |g.marks| + 2 - Rank(g, n)
  {
    match n
    case SumNode(Out(_)) => true
    case SplitNode(o, _) => Live(g, SumNode(o))
    case SumNode(Inner(k)) => exists p: Node :: Splits(g, p, k) && Live(g, p)
  }

  /** Some live split reads mark k. */
  ghost predicate LiveMark(g: Graph, k: nat)
    requires WellFormed(g)
  {
    exists p: Node :: Splits(g, p, k) && Live(g, p)
  }

  lemma {:induction false} LiveChild(g: Graph, n: Node, c: Node)
    requires WellFormed(g) && ValidNode(g, n) && Live(g, n) && Child(g, n, c)
    ensures ValidNode(g, c) && Live(g, c)
  {
    RankFalls(g, n, c);
    if n.SplitNode? { assert Splits(g, n, SplitAt(g, n).mark); }
  }
}
