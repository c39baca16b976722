// Inverting an iterator map by back-propagation: the values of the outputs are pushed
// down the DAG of sums and splits until every input iterator's value is recovered.
module InverseMap {
  import opened Expr
  import opened SplitCover
  import opened IterMap
  import opened FuseDigits
  import I = IntOperator

  // ----- one step of back-propagation -----

  type Backprop = map<Node, Expr>

  datatype State = State(bp: Backprop, inv: Subst)

  /** The value handed to position i of a sum with several args; the outermost needs no remainder. */
  function PropValue(input: Expr, arg: Split, i: nat): Expr {
    var q := FDiv(input, Const(arg.scale));
    if i > 0 then FMod(q, Const(arg.extent)) else q
  }

  /** Positions i-1, ..., 0 of the sum receive their values. */
  function Distribute(bp: Backprop, o: Owner, args: seq<Split>, input: Expr, i: nat): Backprop
    requires i <= |args| && forall l :: 0 <= l < i ==> SplitNode(o, l) in bp
  {
    if i == 0 then bp
    else
      var n := SplitNode(o, i - 1);
      Distribute(bp[n := MkAdd(bp[n], PropValue(input, args[i - 1], i - 1))], o, args, input, i - 1)
  }

  function StepSum(g: Graph, st: State, o: Owner): State
    requires ValidOwner(g, o) && SumNode(o) in st.bp
    requires forall l :: 0 <= l < |SumAt(g, o).args| ==> SplitNode(o, l) in st.bp
  {
    var sum := SumAt(g, o);
    var input := MkSub(st.bp[SumNode(o)], Const(sum.base));
    if |sum.args| == 1 then
      var n := SplitNode(o, 0);
      st.(bp := st.bp[n := MkMul(MkAdd(st.bp[n], input), Const(sum.args[0].scale))])
    else
      st.(bp := Distribute(st.bp, o, sum.args, input, |sum.args|))
  }

  function StepSplit(g: Graph, st: State, n: Node): State
    requires ValidNode(g, n) && n.SplitNode? && SplitAt(g, n).mark < |g.marks| && n in st.bp
    requires g.marks[SplitAt(g, n).mark].source.Fused? ==> SumNode(Inner(SplitAt(g, n).mark)) in st.bp
  {
    var s := SplitAt(g, n);
    var input := MkMul(st.bp[n], Const(s.lower));
    match g.marks[s.mark].source
    case Fused(_) =>
      var t := SumNode(Inner(s.mark));
      st.(bp := st.bp[t := MkAdd(st.bp[t], input)])
    case Input(v) =>
      st.(inv := st.inv[v := if v in st.inv then MkAdd(st.inv[v], input) else input])
  }

  predicate CanStep(g: Graph, st: State, n: Node) {
    && ValidNode(g, n) && n in st.bp
    && (n.SumNode? ==> forall l :: 0 <= l < |SumAt(g, n.o).args| ==> SplitNode(n.o, l) in st.bp)
    && (n.SplitNode? ==>
          && SplitAt(g, n).mark < |g.marks|
          && (g.marks[SplitAt(g, n).mark].source.Fused? ==> SumNode(Inner(SplitAt(g, n).mark)) in st.bp))
  }

  function Step(g: Graph, st: State, n: Node): State
    requires CanStep(g, st, n)
  {
    if n.SumNode? then StepSum(g, st, n.o) else StepSplit(g, st, n)
  }

  // ----- orders that visit a node before what it hands its value to -----

  ghost predicate NoRepeat(order: seq<Node>) {
    order == [] || (order[0] !in order[1..] && NoRepeat(order[1..]))
  }

  ghost predicate Pairwise(order: seq<Node>) {
    forall i, j :: 0 <= i < j < |order| ==> order[i] != order[j]
  }

  lemma {:induction false} NoRepeatPairs(order: seq<Node>)
    ensures NoRepeat(order) <==> Pairwise(order)
  {
    if order != [] {
      NoRepeatPairs(order[1..]);
      if NoRepeat(order) {
        forall i, j | 0 <= i < j < |order|
          ensures order[i] != order[j]
        {
          assert order[1..][j - 1] == order[j];
          if i > 0 { assert order[1..][i - 1] == order[i]; }
        }
      }
    }
  }

  /** The live nodes, parents first. */
  ghost predicate ParentsFirst(g: Graph, order: seq<Node>)
    requires WellFormed(g)
  {
    && NoRepeat(order)
    && (forall i :: 0 <= i < |order| ==> ValidNode(g, order[i]) && Live(g, order[i]))
    && (forall i :: 0 <= i < |g.outputs| ==> SumNode(Out(i)) in order)
    && (forall i, c :: 0 <= i < |order| && Child(g, order[i], c) ==> Later(order, i, c))
  }

  ghost predicate Later(order: seq<Node>, i: nat, c: Node) {
    exists j :: i < j < |order| && order[j] == c
  }

  lemma {:induction false} ChildLater(g: Graph, order: seq<Node>, t: nat, c: Node) returns (j: nat)
    requires WellFormed(g) && ParentsFirst(g, order) && t < |order| && Child(g, order[t], c)
    ensures t < j < |order| && order[j] == c
  {
    assert Later(order, t, c);
    j :| t < j < |order| && order[j] == c;
  }

  /** The order lists every live node. */
  lemma {:induction false} LiveInOrder(g: Graph, order: seq<Node>, n: Node)
    requires WellFormed(g) && ParentsFirst(g, order) && ValidNode(g, n) && Live(g, n)
    ensures n in order
    decreases 2 * |g.marks| + 2 - Rank(g, n)
  {
    match n
    case SumNode(Out(_)) =>
    case SplitNode(o, _) =>
      ValidSplit(g, n);
      LiveInOrder(g, order, SumNode(o));
      var i :| 0 <= i < |order| && order[i] == SumNode(o);
      var j := ChildLater(g, order, i, n);
    case SumNode(Inner(k)) =>
      var p: Node :| Splits(g, p, k) && Live(g, p);
      ValidSplit(g, p);
      LiveInOrder(g, order, p);
      var i :| 0 <= i < |order| && order[i] == p;
      var j := ChildLater(g, order, i, n);
  }

  /** Mark k is split by some node of the order. */
  ghost predicate Reached(g: Graph, order: seq<Node>, k: nat) {
    exists n :: n in order && n.SplitNode? && ValidNode(g, n) && SplitAt(g, n).mark == k
  }

  function NodeSplits(g: Graph, c: seq<Node>): (r: seq<Split>)
    requires forall n :: n in c ==> ValidNode(g, n) && n.SplitNode?
    ensures |r| == |c| && forall i :: 0 <= i < |c| ==> r[i] == SplitAt(g, c[i])
  {
    seq(|c|, i requires 0 <= i < |c| => SplitAt(g, c[i]))
  }

  /** The splits of mark k in the order, arranged by c, form a full chain. */
  ghost predicate CoverOf(g: Graph, order: seq<Node>, k: nat, c: seq<Node>)
    requires k < |g.marks|
  {
    && NoRepeat(c)
    && (forall n :: n in c <==> n in order && n.SplitNode? && ValidNode(g, n) && SplitAt(g, n).mark == k)
    && Chain(NodeSplits(g, c), 1, g.marks[k].extent)
  }

  /** Each iterator that is split at all passes the bijective check. */
  ghost predicate Bijective(g: Graph, order: seq<Node>) {
    forall k :: 0 <= k < |g.marks| && Reached(g, order, k) ==> exists c :: CoverOf(g, order, k, c)
  }

  /** A lone arg has scale 1 or -1; several args follow the fuse pattern, not scaled by zero. */
  predicate Invertible(sum: Sum) {
    if |sum.args| == 1 then sum.args[0].scale == 1 || sum.args[0].scale == -1
    else FusePattern(sum.args) && (sum.args != [] ==> sum.args[|sum.args| - 1].scale != 0)
  }

  ghost predicate AllInvertible(g: Graph, order: seq<Node>) {
    forall n :: n in order && n.SumNode? && ValidNode(g, n) ==> Invertible(SumAt(g, n.o))
  }

  // ----- contributions to a mark -----

  /** What node n contributes to the value of mark k. */
  function Share(g: Graph, env: Env, k: nat, n: Node): int
    requires WellFormed(g)
  {
    if ValidNode(g, n) && n.SplitNode? && SplitAt(g, n).mark == k
    then NodeDigit(g, env, n) * SplitAt(g, n).lower else 0
  }

  function Acc(g: Graph, env: Env, k: nat, nodes: seq<Node>): int
    requires WellFormed(g)
  {
    if nodes == [] then 0 else Share(g, env, k, nodes[0]) + Acc(g, env, k, nodes[1..])
  }

  lemma {:induction false} AccConcat(g: Graph, env: Env, k: nat, a: seq<Node>, b: seq<Node>)
    requires WellFormed(g)
    ensures Acc(g, env, k, a + b) == Acc(g, env, k, a) + Acc(g, env, k, b)
  {
    if a == [] {
      assert a + b == b;
    } else {
      assert (a + b)[1..] == a[1..] + b;
      AccConcat(g, env, k, a[1..], b);
    }
  }

  lemma {:induction false} AccAppend(g: Graph, env: Env, k: nat, a: seq<Node>, n: Node)
    requires WellFormed(g)
    ensures Acc(g, env, k, a + [n]) == Acc(g, env, k, a) + Share(g, env, k, n)
  {
    AccConcat(g, env, k, a, [n]);
    assert [n][1..] == [];
  }

  lemma {:induction false} AccNone(g: Graph, env: Env, k: nat, a: seq<Node>)
    requires WellFormed(g) && forall n :: n in a ==> Share(g, env, k, n) == 0
    ensures Acc(g, env, k, a) == 0
  {
    if a != [] { AccNone(g, env, k, a[1..]); }
  }

  function Without(b: seq<Node>, i: nat): seq<Node>
    requires i < |b|
  {
    b[..i] + b[i + 1..]
  }

  lemma {:induction false} AccWithout(g: Graph, env: Env, k: nat, b: seq<Node>, i: nat)
    requires WellFormed(g) && i < |b|
    ensures Acc(g, env, k, b) == Share(g, env, k, b[i]) + Acc(g, env, k, Without(b, i))
  {
    if i == 0 {
      assert Without(b, i) == b[1..];
    } else {
      assert Without(b, i)[1..] == Without(b[1..], i - 1);
      AccWithout(g, env, k, b[1..], i - 1);
    }
  }

  lemma {:induction false} WithoutFacts(b: seq<Node>, i: nat)
    requires NoRepeat(b) && i < |b|
    ensures NoRepeat(Without(b, i))
    ensures forall n :: n in Without(b, i) <==> n in b && n != b[i]
  {
    var w := Without(b, i);
    NoRepeatPairs(b);
    assert forall j :: 0 <= j < |w| ==> w[j] == if j < i then b[j] else b[j + 1];
    NoRepeatPairs(w);
    forall n | n in b && n != b[i]
      ensures n in w
    {
      var j :| 0 <= j < |b| && b[j] == n;
      assert w[if j < i then j else j - 1] == n;
    }
  }

  /** Lists without repetition that agree on the nodes that matter contribute the same. */
  lemma {:induction false} AccSameNodes(g: Graph, env: Env, k: nat, a: seq<Node>, b: seq<Node>)
    requires WellFormed(g) && NoRepeat(a) && NoRepeat(b)
    requires forall n :: n in b ==> n in a
    requires forall n :: n in a && n !in b ==> Share(g, env, k, n) == 0
    ensures Acc(g, env, k, a) == Acc(g, env, k, b)
  {
    if a == [] {
      AccNone(g, env, k, b);
    } else if a[0] in b {
      var i :| 0 <= i < |b| && b[i] == a[0];
      AccWithout(g, env, k, b, i);
      WithoutFacts(b, i);
      assert a == [a[0]] + a[1..];
      AccSameNodes(g, env, k, a[1..], Without(b, i));
    } else {
      assert a == [a[0]] + a[1..];
      AccSameNodes(g, env, k, a[1..], b);
    }
  }

  lemma {:induction false} AccIsAssembly(g: Graph, env: Env, k: nat, c: seq<Node>)
    requires WellFormed(g) && k < |g.marks|
    requires forall n :: n in c ==> ValidNode(g, n) && n.SplitNode? && SplitAt(g, n).mark == k
    ensures AllValid(NodeSplits(g, c))
    ensures Acc(g, env, k, c) == Assemble(NodeSplits(g, c), Digits(NodeSplits(g, c), MarkVal(g, env, k)))
  {
    var s, x := NodeSplits(g, c), MarkVal(g, env, k);
    forall i | 0 <= i < |s| ensures s[i].Valid() {
      ValidSplit(g, c[i]);
    }
    if c != [] {
      AccIsAssembly(g, env, k, c[1..]);
      assert s[1..] == NodeSplits(g, c[1..]);
      assert Digits(s, x)[1..] == Digits(s[1..], x);
      assert c[0] in c;
    }
  }

  /** When the splits of a mark form a full chain, their contributions rebuild its value. */
  lemma {:induction false} AccRebuilds(g: Graph, env: Env, order: seq<Node>, k: nat)
    requires WellFormed(g) && InRange(g, env) && k < |g.marks| && NoRepeat(order)
    requires Bijective(g, order) && Reached(g, order, k)
    ensures Acc(g, env, k, order) == MarkVal(g, env, k)
  {
    var c :| CoverOf(g, order, k, c);
    AccSameNodes(g, env, k, order, c);
    AccIsAssembly(g, env, k, c);
    CoverRebuilds(NodeSplits(g, c), g.marks[k].extent, MarkVal(g, env, k));
  }

  // ----- the value of every step -----

  lemma {:induction false} DistributeSpec(bp: Backprop, o: Owner, args: seq<Split>, input: Expr, i: nat, oenv: Env)
    requires i <= |args| && forall l :: 0 <= l < i ==> SplitNode(o, l) in bp
    ensures var r := Distribute(bp, o, args, input, i);
      && r.Keys == bp.Keys
      && (forall n :: n in bp && !(n.SplitNode? && n.o == o && n.pos < i) ==> r[n] == bp[n])
      && (forall l :: 0 <= l < i ==>
            Eval(r[SplitNode(o, l)], oenv) ==
              Eval(bp[SplitNode(o, l)], oenv) + Eval(PropValue(input, args[l], l), oenv))
  {
    if i > 0 {
      var n := SplitNode(o, i - 1);
      var bp' := bp[n := MkAdd(bp[n], PropValue(input, args[i - 1], i - 1))];
      assert bp'.Keys == bp.Keys;
      DistributeSpec(bp', o, args, input, i - 1, oenv);
    }
  }

  /** The digits of a sum's args. */
  function SumDigits(g: Graph, env: Env, o: Owner): (u: seq<int>)
    requires WellFormed(g) && ValidOwner(g, o)
    ensures |u| == |SumAt(g, o).args|
    ensures forall l :: 0 <= l < |u| ==> u[l] == NodeDigit(g, env, SplitNode(o, l))
  {
    seq(|SumAt(g, o).args|, l requires 0 <= l < |SumAt(g, o).args| => NodeDigit(g, env, SplitNode(o, l)))
  }

  lemma {:induction false} SumArgsValid(g: Graph, env: Env, o: Owner)
    requires WellFormed(g) && ValidOwner(g, o)
    ensures AllValid(SumAt(g, o).args) && DigitsInRange(SumAt(g, o).args, SumDigits(g, env, o))
  {
    forall l | 0 <= l < |SumAt(g, o).args|
      ensures SumAt(g, o).args[l].Valid()
    {
      ValidSplit(g, SplitNode(o, l));
    }
  }

  lemma {:induction false} ArgsValIsTotal(g: Graph, env: Env, args: seq<Split>, bound: nat, u: seq<int>)
    requires WellFormed(g) && bound <= |g.marks| && SumOk(Sum(args, 0), bound) && |u| == |args|
    requires forall l :: 0 <= l < |args| ==> u[l] == args[l].Digit(MarkVal(g, env, args[l].mark))
    ensures ArgsVal(g, env, args, bound) == Total(args, u)
    decreases |args|
  {
    if args != [] { ArgsValIsTotal(g, env, args[1..], bound, u[1..]); }
  }

  lemma {:induction false} SumValIsTotal(g: Graph, env: Env, o: Owner)
    requires WellFormed(g) && ValidOwner(g, o)
    ensures SumVal(g, env, o) == Total(SumAt(g, o).args, SumDigits(g, env, o)) + SumAt(g, o).base
  {
    ArgsValIsTotal(g, env, SumAt(g, o).args, Bound(g, o), SumDigits(g, env, o));
  }

  lemma {:induction false} PropValueEval(input: Expr, arg: Split, i: nat, oenv: Env)
    requires arg.scale != 0 && arg.extent > 0
    ensures Eval(PropValue(input, arg, i), oenv) ==
      var q := I.FloorDiv(Eval(input, oenv), arg.scale); if i > 0 then I.FloorMod(q, arg.extent) else q
  {
    var q := FDiv(input, Const(arg.scale));
    assert Eval(q, oenv) == I.FloorDiv(Eval(input, oenv), arg.scale);
    assert Eval(FMod(q, Const(arg.extent)), oenv) == I.FloorMod(Eval(q, oenv), arg.extent);
  }

  /** st' differs from st only in the splits of sum o, which now hold their digits. */
  ghost predicate HandedOn(g: Graph, env: Env, oenv: Env, st: State, st': State, o: Owner)
    requires WellFormed(g) && ValidOwner(g, o)
  {
    && st'.inv == st.inv && st'.bp.Keys == st.bp.Keys
    && (forall n :: n in st.bp && !(n.SplitNode? && n.o == o) ==> st'.bp[n] == st.bp[n])
    && (forall l :: 0 <= l < |SumAt(g, o).args| ==>
          SplitNode(o, l) in st'.bp && Eval(st'.bp[SplitNode(o, l)], oenv) == NodeDigit(g, env, SplitNode(o, l)))
  }

  lemma {:induction false} LoneArg(g: Graph, env: Env, oenv: Env, st: State, o: Owner)
    requires WellFormed(g) && CanStep(g, st, SumNode(o)) && Invertible(SumAt(g, o)) && |SumAt(g, o).args| == 1
    requires Eval(st.bp[SumNode(o)], oenv) == SumVal(g, env, o)
    requires Eval(st.bp[SplitNode(o, 0)], oenv) == 0
    ensures HandedOn(g, env, oenv, st, StepSum(g, st, o), o)
  {
    var sum, u := SumAt(g, o), SumDigits(g, env, o);
    SumValIsTotal(g, env, o);
    assert sum.args[1..] == [] && u[1..] == [];
    assert Total(sum.args, u) == sum.args[0].scale * u[0];
    LoneValue(st.bp[SplitNode(o, 0)], st.bp[SumNode(o)], sum.args[0].scale, sum.base, u[0], oenv);
  }

  lemma {:induction false} LoneValue(acc: Expr, total: Expr, scale: int, base: int, digit: int, oenv: Env)
    requires scale == 1 || scale == -1
    requires Eval(acc, oenv) == 0 && Eval(total, oenv) == scale * digit + base
    ensures Eval(MkMul(MkAdd(acc, MkSub(total, Const(base))), Const(scale)), oenv) == digit
  {
    assert Eval(MkSub(total, Const(base)), oenv) == scale * digit;
  }

  lemma {:induction false} PropagatedDigit(g: Graph, env: Env, oenv: Env, o: Owner, input: Expr, l: nat)
    requires WellFormed(g) && ValidOwner(g, o) && Invertible(SumAt(g, o)) && l < |SumAt(g, o).args| != 1
    requires Eval(input, oenv) == SumVal(g, env, o) - SumAt(g, o).base
    ensures Eval(PropValue(input, SumAt(g, o).args[l], l), oenv) == NodeDigit(g, env, SplitNode(o, l))
  {
    var args, u := SumAt(g, o).args, SumDigits(g, env, o);
    SumValIsTotal(g, env, o);
    SumArgsValid(g, env, o);
    TotalDigit(args, u, l);
    PropValueEval(input, args[l], l, oenv);
  }

  /** A sum that holds its own value hands each of its splits that split's digit. */
  lemma {:induction false} StepSumSpec(g: Graph, env: Env, oenv: Env, st: State, o: Owner)
    requires WellFormed(g) && CanStep(g, st, SumNode(o)) && Invertible(SumAt(g, o))
    requires Eval(st.bp[SumNode(o)], oenv) == SumVal(g, env, o)
    requires forall l :: 0 <= l < |SumAt(g, o).args| ==> Eval(st.bp[SplitNode(o, l)], oenv) == 0
    ensures HandedOn(g, env, oenv, st, StepSum(g, st, o), o)
  {
    var sum := SumAt(g, o);
    if |sum.args| == 1 {
      LoneArg(g, env, oenv, st, o);
    } else {
      var input := MkSub(st.bp[SumNode(o)], Const(sum.base));
      DistributeSpec(st.bp, o, sum.args, input, |sum.args|, oenv);
      forall l | 0 <= l < |sum.args|
        ensures Eval(PropValue(input, sum.args[l], l), oenv) == NodeDigit(g, env, SplitNode(o, l))
      {
        PropagatedDigit(g, env, oenv, o, input, l);
      }
    }
  }

  // ----- what back-propagation has established after a prefix of the order -----

  /** The value pending at node n once the nodes of done have been visited. */
  function Pending(g: Graph, env: Env, done: seq<Node>, n: Node): int
    requires WellFormed(g) && ValidNode(g, n)
  {
    match n
    case SumNode(Out(i)) => SumVal(g, env, Out(i))
    case SumNode(Inner(k)) => Acc(g, env, k, done)
    case SplitNode(o, _) => if SumNode(o) in done then NodeDigit(g, env, n) else 0
  }

  ghost predicate Progress(g: Graph, env: Env, oenv: Env, order: seq<Node>, t: nat, st: State)
    requires WellFormed(g) && ParentsFirst(g, order) && t <= |order|
  {
    && (forall j :: t <= j < |order| ==>
          order[j] in st.bp && Eval(st.bp[order[j]], oenv) == Pending(g, env, order[..t], order[j]))
    && (forall k :: 0 <= k < |g.marks| && g.marks[k].source.Input? ==> InverseFor(g, env, oenv, order[..t], st, k))
  }

  /** The inverse so far sums the contributions seen, and is silent on an input not reached yet. */
  ghost predicate InverseFor(g: Graph, env: Env, oenv: Env, done: seq<Node>, st: State, k: nat)
    requires WellFormed(g) && k < |g.marks| && g.marks[k].source.Input?
  {
    var v := g.marks[k].source.v;
    if Reached(g, done, k) then v in st.inv && Eval(st.inv[v], oenv) == Acc(g, env, k, done) else v !in st.inv
  }

  lemma {:induction false} InPrefix(order: seq<Node>, t: nat, n: Node)
    requires t < |order|
    ensures n in order[..t + 1] <==> n in order[..t] || n == order[t]
  {
    assert order[..t + 1] == order[..t] + [order[t]];
  }

  /** Every split of mark k in the order comes before the sum it reads. */
  lemma {:induction false} SplitsBefore(g: Graph, order: seq<Node>, t: nat, k: nat, n: Node)
    requires WellFormed(g) && ParentsFirst(g, order) && t < |order| && order[t] == SumNode(Inner(k))
    requires n in order && n.SplitNode? && SplitAt(g, n).mark == k
    ensures n in order[..t]
  {
    var i :| 0 <= i < |order| && order[i] == n;
    var j := ChildLater(g, order, i, SumNode(Inner(k)));
    NoRepeatPairs(order);
    assert j == t;
  }

  lemma {:induction false} ParentBefore(g: Graph, order: seq<Node>, t: nat)
    requires WellFormed(g) && ParentsFirst(g, order) && t < |order| && order[t].SplitNode?
    ensures SumNode(order[t].o) in order[..t]
  {
    var p := SumNode(order[t].o);
    LiveInOrder(g, order, p);
    var i :| 0 <= i < |order| && order[i] == p;
    var j := ChildLater(g, order, i, order[t]);
    NoRepeatPairs(order);
    assert j == t;
  }

  lemma {:induction false} LaterNotEarlier(order: seq<Node>, t: nat, n: Node)
    requires NoRepeat(order) && t <= |order|
    ensures !(n in order[..t] && n in order[t..])
  {
    NoRepeatPairs(order);
  }

  lemma {:induction false} AllSharesBefore(g: Graph, env: Env, order: seq<Node>, t: nat, k: nat)
    requires WellFormed(g) && ParentsFirst(g, order) && t < |order| && order[t] == SumNode(Inner(k))
    ensures Acc(g, env, k, order[..t]) == Acc(g, env, k, order)
  {
    assert order == order[..t] + order[t..];
    AccConcat(g, env, k, order[..t], order[t..]);
    forall n | n in order[t..]
      ensures Share(g, env, k, n) == 0
    {
      if ValidNode(g, n) && n.SplitNode? && SplitAt(g, n).mark == k {
        SplitsBefore(g, order, t, k, n);
        LaterNotEarlier(order, t, n);
      }
    }
    AccNone(g, env, k, order[t..]);
  }

  /** A sum about to be visited holds its own value. */
  lemma {:induction false} PendingAtSum(g: Graph, env: Env, order: seq<Node>, t: nat)
    requires WellFormed(g) && InRange(g, env) && ParentsFirst(g, order) && Bijective(g, order)
    requires t < |order| && order[t].SumNode?
    ensures Pending(g, env, order[..t], order[t]) == SumVal(g, env, order[t].o)
  {
    if order[t].o.Inner? {
      var k := order[t].o.k;
      var p: Node :| Splits(g, p, k) && Live(g, p);
      LiveInOrder(g, order, p);
      AccRebuilds(g, env, order, k);
      AllSharesBefore(g, env, order, t, k);
    }
  }

  lemma {:induction false} ReachedAppend(g: Graph, done: seq<Node>, n: Node, k: nat)
    ensures Reached(g, done + [n], k) <==>
      Reached(g, done, k) || (n.SplitNode? && ValidNode(g, n) && SplitAt(g, n).mark == k)
  {
    if Reached(g, done, k) {
      var m :| m in done && m.SplitNode? && ValidNode(g, m) && SplitAt(g, m).mark == k;
      assert m in done + [n];
    }
    assert n in done + [n];
  }

  lemma {:induction false} ReadyToStep(g: Graph, env: Env, oenv: Env, order: seq<Node>, t: nat, st: State)
    requires WellFormed(g) && ParentsFirst(g, order) && t < |order| && Progress(g, env, oenv, order, t, st)
    ensures CanStep(g, st, order[t])
  {
    var n := order[t];
    if n.SumNode? {
      forall l | 0 <= l < |SumAt(g, n.o).args|
        ensures SplitNode(n.o, l) in st.bp
      {
        var j := ChildLater(g, order, t, SplitNode(n.o, l));
      }
    } else {
      ValidSplit(g, n);
      var m := SplitAt(g, n).mark;
      if g.marks[m].source.Fused? { var j := ChildLater(g, order, t, SumNode(Inner(m))); }
    }
  }

  lemma {:induction false} SumSplitsEmpty(g: Graph, env: Env, oenv: Env, order: seq<Node>, t: nat, st: State)
    requires WellFormed(g) && ParentsFirst(g, order) && t < |order| && Progress(g, env, oenv, order, t, st)
    requires order[t].SumNode? && CanStep(g, st, order[t])
    ensures forall l :: 0 <= l < |SumAt(g, order[t].o).args| ==> Eval(st.bp[SplitNode(order[t].o, l)], oenv) == 0
  {
    var o := order[t].o;
    forall l | 0 <= l < |SumAt(g, o).args|
      ensures Eval(st.bp[SplitNode(o, l)], oenv) == 0
    {
      var j := ChildLater(g, order, t, SplitNode(o, l));
      LaterNotEarlier(order, t, SumNode(o));
      assert order[t] in order[t..];
    }
  }

  lemma {:induction false} SumHandsOn(g: Graph, env: Env, oenv: Env, order: seq<Node>, t: nat, st: State)
    requires WellFormed(g) && InRange(g, env) && ParentsFirst(g, order) && Bijective(g, order)
    requires AllInvertible(g, order)
    requires t < |order| && order[t].SumNode? && Progress(g, env, oenv, order, t, st) && CanStep(g, st, order[t])
    ensures HandedOn(g, env, oenv, st, StepSum(g, st, order[t].o), order[t].o)
  {
    assert order[t] in order;
    PendingAtSum(g, env, order, t);
    SumSplitsEmpty(g, env, oenv, order, t, st);
    StepSumSpec(g, env, oenv, st, order[t].o);
  }

  /** Visiting a sum keeps what back-propagation has established. */
  lemma {:induction false} SumKeepsProgress(g: Graph, env: Env, oenv: Env, order: seq<Node>, t: nat, st: State)
    requires WellFormed(g) && InRange(g, env) && ParentsFirst(g, order) && Bijective(g, order)
    requires AllInvertible(g, order)
    requires t < |order| && order[t].SumNode? && Progress(g, env, oenv, order, t, st)
    ensures CanStep(g, st, order[t]) && Progress(g, env, oenv, order, t + 1, Step(g, st, order[t]))
  {
    ReadyToStep(g, env, oenv, order, t, st);
    SumHandsOn(g, env, oenv, order, t, st);
    forall j | t + 1 <= j < |order|
      ensures order[j] in StepSum(g, st, order[t].o).bp
      ensures Eval(StepSum(g, st, order[t].o).bp[order[j]], oenv) == Pending(g, env, order[..t + 1], order[j])
    {
      SumStepPending(g, env, oenv, order, t, st, j);
    }
    forall k | 0 <= k < |g.marks| && g.marks[k].source.Input?
      ensures InverseFor(g, env, oenv, order[..t + 1], StepSum(g, st, order[t].o), k)
    {
      SumStepInput(g, env, oenv, order, t, st, k);
    }
  }

  lemma {:induction false} SumStepInput(g: Graph, env: Env, oenv: Env, order: seq<Node>, t: nat, st: State, k: nat)
    requires WellFormed(g) && InRange(g, env) && ParentsFirst(g, order) && Bijective(g, order)
    requires AllInvertible(g, order)
    requires t < |order| && order[t].SumNode? && k < |g.marks| && g.marks[k].source.Input?
    requires Progress(g, env, oenv, order, t, st) && CanStep(g, st, order[t])
    ensures InverseFor(g, env, oenv, order[..t + 1], StepSum(g, st, order[t].o), k)
  {
    assert order[..t + 1] == order[..t] + [order[t]];
    ReachedAppend(g, order[..t], order[t], k);
    AccAppend(g, env, k, order[..t], order[t]);
  }

  lemma {:induction false} SumStepPending(g: Graph, env: Env, oenv: Env, order: seq<Node>, t: nat, st: State, j: nat)
    requires WellFormed(g) && ParentsFirst(g, order) && t < j < |order| && order[t].SumNode?
    requires Progress(g, env, oenv, order, t, st) && CanStep(g, st, order[t])
    requires HandedOn(g, env, oenv, st, StepSum(g, st, order[t].o), order[t].o)
    ensures order[j] in StepSum(g, st, order[t].o).bp
    ensures Eval(StepSum(g, st, order[t].o).bp[order[j]], oenv) == Pending(g, env, order[..t + 1], order[j])
  {
    var o, done, n := order[t].o, order[..t], order[j];
    assert order[..t + 1] == done + [order[t]];
    match n
    case SumNode(Out(_)) =>
    case SumNode(Inner(k)) => AccAppend(g, env, k, done, order[t]);
    case SplitNode(o', l) => InPrefix(order, t, SumNode(o'));
  }

  /** Visiting a split keeps what back-propagation has established. */
  lemma {:induction false} SplitKeepsProgress(g: Graph, env: Env, oenv: Env, order: seq<Node>, t: nat, st: State)
    requires WellFormed(g) && ParentsFirst(g, order)
    requires t < |order| && order[t].SplitNode? && Progress(g, env, oenv, order, t, st)
    ensures CanStep(g, st, order[t]) && Progress(g, env, oenv, order, t + 1, Step(g, st, order[t]))
  {
    var n, done := order[t], order[..t];
    ReadyToStep(g, env, oenv, order, t, st);
    ParentBefore(g, order, t);
    assert order[..t + 1] == done + [n];
    assert Eval(MkMul(st.bp[n], Const(SplitAt(g, n).lower)), oenv) == Share(g, env, SplitAt(g, n).mark, n);
    forall j | t + 1 <= j < |order|
      ensures order[j] in StepSplit(g, st, n).bp
      ensures Eval(StepSplit(g, st, n).bp[order[j]], oenv) == Pending(g, env, order[..t + 1], order[j])
    {
      SplitStepPending(g, env, oenv, order, t, st, j);
    }
    forall k | 0 <= k < |g.marks| && g.marks[k].source.Input?
      ensures InverseFor(g, env, oenv, done + [n], StepSplit(g, st, n), k)
    {
      SplitStepInverse(g, env, oenv, done, n, st, k);
    }
  }

  lemma {:induction false} SplitStepInverse(g: Graph, env: Env, oenv: Env, done: seq<Node>, n: Node, st: State, k: nat)
    requires WellFormed(g) && k < |g.marks| && g.marks[k].source.Input? && n.SplitNode? && CanStep(g, st, n)
    requires InverseFor(g, env, oenv, done, st, k)
    requires Eval(MkMul(st.bp[n], Const(SplitAt(g, n).lower)), oenv) == Share(g, env, SplitAt(g, n).mark, n)
    ensures InverseFor(g, env, oenv, done + [n], StepSplit(g, st, n), k)
  {
    ReachedAppend(g, done, n, k);
    AccAppend(g, env, k, done, n);
    if !Reached(g, done, k) {
      forall m | m in done
        ensures Share(g, env, k, m) == 0
      {
      }
      AccNone(g, env, k, done);
    }
  }

  lemma {:induction false} SplitStepPending(g: Graph, env: Env, oenv: Env, order: seq<Node>, t: nat, st: State, j: nat)
    requires WellFormed(g) && ParentsFirst(g, order) && t < j < |order| && order[t].SplitNode?
    requires Progress(g, env, oenv, order, t, st) && CanStep(g, st, order[t])
    requires Eval(MkMul(st.bp[order[t]], Const(SplitAt(g, order[t]).lower)), oenv)
          == Share(g, env, SplitAt(g, order[t]).mark, order[t])
    ensures order[j] in StepSplit(g, st, order[t]).bp
    ensures Eval(StepSplit(g, st, order[t]).bp[order[j]], oenv) == Pending(g, env, order[..t + 1], order[j])
  {
    var done, n := order[..t], order[j];
    assert order[..t + 1] == done + [order[t]];
    match n
    case SumNode(Out(_)) =>
    case SumNode(Inner(k)) => AccAppend(g, env, k, done, order[t]);
    case SplitNode(o', l) => InPrefix(order, t, SumNode(o'));
  }

  // ----- the whole run -----

  function InitialBackprop(order: seq<Node>, outs: seq<Expr>): (bp: Backprop) {
    map n | n in order :: StartValue(outs, n)
  }

  function StartValue(outs: seq<Expr>, n: Node): Expr {
    if n.SumNode? && n.o.Out? && n.o.i < |outs| then outs[n.o.i] else Const(0)
  }

  lemma {:induction false} InitialProgress(g: Graph, env: Env, oenv: Env, order: seq<Node>, outs: seq<Expr>)
    requires WellFormed(g) && ParentsFirst(g, order) && |outs| == |g.outputs|
    requires forall i :: 0 <= i < |outs| ==> Eval(outs[i], oenv) == SumVal(g, env, Out(i))
    ensures Progress(g, env, oenv, order, 0, State(InitialBackprop(order, outs), map[]))
  {
  }

  lemma {:induction false} StepKeepsProgress(g: Graph, env: Env, oenv: Env, order: seq<Node>, t: nat, st: State)
    requires WellFormed(g) && InRange(g, env) && ParentsFirst(g, order) && Bijective(g, order)
    requires AllInvertible(g, order)
    requires t < |order| && Progress(g, env, oenv, order, t, st)
    ensures CanStep(g, st, order[t]) && Progress(g, env, oenv, order, t + 1, Step(g, st, order[t]))
  {
    if order[t].SumNode? {
      SumKeepsProgress(g, env, oenv, order, t, st);
    } else {
      SplitKeepsProgress(g, env, oenv, order, t, st);
    }
  }
}
