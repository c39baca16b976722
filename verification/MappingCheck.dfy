// The independence check: collect the splits that refer to each iterator, then ask of every
// iterator whether its splits cover it without overlap.
module MappingCheck {
  import opened Expr
  import opened SplitCover
  import opened IterMap
  import opened InverseMap
  import opened IterMapInverse

  // ----- the collector -----

  /** Marks entered so far, and the splits met so far in the order they were met. */
  datatype Collected = Collected(visited: set<nat>, met: seq<Node>)

  ghost predicate LiveSplit(g: Graph, n: Node)
    requires WellFormed(g)
  {
    n.SplitNode? && ValidNode(g, n) && Live(g, n)
  }

  /** The owner's sum is an output or belongs to an entered mark. */
  predicate Entered(c: Collected, o: Owner) {
    match o case Out(_) => true case Inner(k) => k in c.visited
  }

  /** Each split has been met once, comes from an entered sum, and its mark has been entered. */
  ghost predicate Sane(g: Graph, c: Collected)
    requires WellFormed(g)
  {
    && NoRepeat(c.met)
    && (forall n :: n in c.met ==> LiveSplit(g, n) && Entered(c, n.o) && SplitAt(g, n).mark in c.visited)
  }

  /** Every arg of the owner's sum has been met. */
  ghost predicate Done(g: Graph, c: Collected, o: Owner)
    requires ValidOwner(g, o)
  {
    forall l :: 0 <= l < |SumAt(g, o).args| ==> SplitNode(o, l) in c.met
  }

  /** A live mark below the bound whose own sum, if it has one, is done. */
  ghost predicate DoneMark(g: Graph, c: Collected, k: nat, bound: nat)
    requires WellFormed(g)
  {
    k < bound && k < |g.marks| && LiveMark(g, k) && (g.marks[k].source.Fused? ==> Done(g, c, Inner(k)))
  }

  /** n comes from one of the owners, or from a mark entered between c and c'. */
  ghost predicate NewSplit(c: Collected, c': Collected, own: set<Owner>, n: Node) {
    n.o in own || (n.o.Inner? && n.o.k in c'.visited && n.o.k !in c.visited)
  }

  /** What was collected stays, newly entered marks are done, new splits come from them or from own. */
  ghost predicate Grows(g: Graph, c: Collected, c': Collected, bound: nat, own: set<Owner>)
    requires WellFormed(g)
  {
    && c.visited <= c'.visited && c.met <= c'.met
    && (forall k :: k in c'.visited && k !in c.visited ==> DoneMark(g, c', k, bound))
    && (forall n :: n in c'.met && n !in c.met ==> NewSplit(c, c', own, n))
  }

  lemma {:induction false} MetStays(c: Collected, c': Collected, n: Node)
    requires c.met <= c'.met && n in c.met
    ensures n in c'.met
  {
    var i :| 0 <= i < |c.met| && c.met[i] == n;
    assert c'.met[i] == n;
  }

  lemma {:induction false} DoneStays(g: Graph, c: Collected, c': Collected, o: Owner)
    requires ValidOwner(g, o) && Done(g, c, o) && c.met <= c'.met
    ensures Done(g, c', o)
  {
    forall l | 0 <= l < |SumAt(g, o).args|
      ensures SplitNode(o, l) in c'.met
    {
      MetStays(c, c', SplitNode(o, l));
    }
  }

  lemma {:induction false} DoneMarkStays(g: Graph, c: Collected, c': Collected, k: nat, bound: nat, bound': nat)
    requires WellFormed(g) && DoneMark(g, c, k, bound) && c.met <= c'.met && bound <= bound'
    ensures DoneMark(g, c', k, bound')
  {
    if g.marks[k].source.Fused? { DoneStays(g, c, c', Inner(k)); }
  }

  lemma {:induction false} GrowsTrans(
    g: Graph, c: Collected, c1: Collected, c2: Collected, b1: nat, b2: nat, bound: nat,
                                      own1: set<Owner>, own2: set<Owner>, own: set<Owner>)
    requires WellFormed(g) && Grows(g, c, c1, b1, own1) && Grows(g, c1, c2, b2, own2)
    requires b1 <= bound && b2 <= bound && own1 <= own && own2 <= own
    ensures Grows(g, c, c2, bound, own)
  {
    forall k | k in c2.visited && k !in c.visited
      ensures DoneMark(g, c2, k, bound)
    {
      if k in c1.visited {
        DoneMarkStays(g, c1, c2, k, b1, bound);
      } else {
        DoneMarkStays(g, c2, c2, k, b2, bound);
      }
    }
    forall n | n in c2.met && n !in c.met
      ensures NewSplit(c, c2, own, n)
    {
      if n in c1.met { assert NewSplit(c, c1, own1, n); } else { assert NewSplit(c1, c2, own2, n); }
    }
  }

  function Push(c: Collected, n: Node): Collected {
    c.(met := c.met + [n])
  }

  lemma {:induction false} PushSane(g: Graph, c: Collected, n: Node)
    requires WellFormed(g) && Sane(g, c) && LiveSplit(g, n) && Entered(c, n.o)
    requires SplitAt(g, n).mark in c.visited && n !in c.met
    ensures Sane(g, Push(c, n)) && Grows(g, c, Push(c, n), 0, {n.o})
  {
    NoRepeatPairs(c.met);
    NoRepeatPairs(c.met + [n]);
    var c' := Push(c, n);
    forall m | m in c'.met
      ensures LiveSplit(g, m) && Entered(c', m.o) && SplitAt(g, m).mark in c'.visited
    {
      assert m in c.met || m == n;
      assert Entered(c, m.o);
    }
    assert c.met <= c'.met;
  }

  lemma {:induction false} EnterSane(g: Graph, c: Collected, k: nat)
    requires WellFormed(g) && Sane(g, c)
    ensures Sane(g, c.(visited := c.visited + {k}))
  {
    forall n | n in c.met
      ensures Entered(c.(visited := c.visited + {k}), n.o)
    {
      assert Entered(c, n.o);
    }
  }

  method CollectInternal(g: Graph, k: nat, c: Collected) returns (c': Collected)
    requires WellFormed(g) && k < |g.marks| && LiveMark(g, k) && Sane(g, c)
    ensures Sane(g, c') && Grows(g, c, c', k + 1, {}) && k in c'.visited
    decreases k, 1
  {
    c' := c;
    if k in c.visited {
      return;
    }
    c' := c'.(visited := c'.visited + {k});
    EnterSane(g, c, k);
    ghost var c1 := c';
    match g.marks[k].source
    case Input(_) =>
      assert DoneMark(g, c', k, k + 1);
    case Fused(_) =>
      assert forall n :: n in c.met ==> n.o != Inner(k) by {
        forall n | n in c.met ensures n.o != Inner(k) { assert Entered(c, n.o); }
      }
      c' := CollectArgs(g, Inner(k), c');
      EnterGrows(g, c, c', k);
  }

  lemma {:induction false} EnterGrows(g: Graph, c: Collected, c': Collected, k: nat)
    requires WellFormed(g) && k < |g.marks| && LiveMark(g, k) && k !in c.visited
    requires g.marks[k].source.Fused? && Done(g, c', Inner(k))
    requires Grows(g, c.(visited := c.visited + {k}), c', k, {Inner(k)})
    ensures Grows(g, c, c', k + 1, {})
  {
    var c1 := c.(visited := c.visited + {k});
    forall j | j in c'.visited && j !in c.visited
      ensures DoneMark(g, c', j, k + 1)
    {
      if j != k { DoneMarkStays(g, c', c', j, k, k + 1); }
    }
    forall n | n in c'.met && n !in c.met
      ensures NewSplit(c, c', {}, n)
    {
      assert NewSplit(c1, c', {Inner(k)}, n);
    }
  }

  method CollectArgs(g: Graph, o: Owner, c: Collected) returns (c': Collected)
    requires WellFormed(g) && ValidOwner(g, o) && Live(g, SumNode(o)) && Sane(g, c) && Entered(c, o)
    requires forall n :: n in c.met ==> n.o != o
    ensures Sane(g, c') && Done(g, c', o) && Grows(g, c, c', Bound(g, o), {o})
    decreases Bound(g, o), 0
  {
    c' := c;
    for l := 0 to |SumAt(g, o).args|
      invariant Sane(g, c') && Grows(g, c, c', Bound(g, o), {o})
      invariant forall i :: 0 <= i < l ==> SplitNode(o, i) in c'.met
      invariant forall n :: n in c'.met && n.o == o ==> n.pos < l
    {
      c' := CollectArg(g, o, l, c, c');
    }
  }

  method CollectArg(g: Graph, o: Owner, l: nat, ghost c0: Collected, c: Collected) returns (c': Collected)
    requires WellFormed(g) && ValidOwner(g, o) && Live(g, SumNode(o)) && Entered(c0, o)
    requires l < |SumAt(g, o).args| && Sane(g, c) && Grows(g, c0, c, Bound(g, o), {o})
    requires forall i :: 0 <= i < l ==> SplitNode(o, i) in c.met
    requires forall n :: n in c.met && n.o == o ==> n.pos < l
    ensures Sane(g, c') && Grows(g, c0, c', Bound(g, o), {o})
    ensures forall i :: 0 <= i <= l ==> SplitNode(o, i) in c'.met
    ensures forall n :: n in c'.met && n.o == o ==> n.pos <= l
    decreases Bound(g, o), 0, 0
  {
    var n := SplitNode(o, l);
    ValidSplit(g, n);
    var k := SplitAt(g, n).mark;
    assert Splits(g, n, k);
    var c1 := CollectInternal(g, k, c);
    assert Entered(c, o) && Entered(c1, o);
    forall m | m in c1.met && m !in c.met ensures m.o != o {
      assert NewSplit(c, c1, {}, m);
    }
    PushSane(g, c1, n);
    c' := Push(c1, n);
    GrowsTrans(g, c, c1, c', k + 1, 0, Bound(g, o), {}, {o}, {o});
    GrowsTrans(g, c0, c, c', Bound(g, o), Bound(g, o), Bound(g, o), {o}, {o}, {o});
    forall i | 0 <= i <= l ensures SplitNode(o, i) in c'.met {
      if i < l { MetStays(c, c', SplitNode(o, i)); } else { assert c'.met[|c1.met|] == n; }
    }
  }

  /** Exactly the live marks and the live splits are collected, no split twice. */
  ghost predicate Complete(g: Graph, c: Collected)
    requires WellFormed(g)
  {
    && NoRepeat(c.met)
    && (forall k :: k in c.visited ==> k < |g.marks|)
    && (forall k :: k in c.visited <==> LiveMark(g, k))
    && (forall n :: n in c.met <==> LiveSplit(g, n))
  }

  method Collect(g: Graph) returns (c: Collected)
    requires WellFormed(g)
    ensures Complete(g, c)
  {
    c := Collected({}, []);
    ghost var start := c;
    ghost var own: set<Owner> := {};
    for i := 0 to |g.outputs|
      invariant Sane(g, c) && Grows(g, start, c, |g.marks|, own)
      invariant forall j :: 0 <= j < i ==> Done(g, c, Out(j))
      invariant forall o :: o in own ==> o.Out? && o.i < i
    {
      forall n | n in c.met ensures n.o != Out(i) { assert NewSplit(start, c, own, n); }
      var c1 := CollectArgs(g, Out(i), c);
      GrowsTrans(g, start, c, c1, |g.marks|, |g.marks|, |g.marks|, own, {Out(i)}, own + {Out(i)});
      forall j | 0 <= j < i ensures Done(g, c1, Out(j)) { DoneStays(g, c, c1, Out(j)); }
      c, own := c1, own + {Out(i)};
    }
    CollectedAll(g, start, c, own);
  }

  lemma {:induction false} LiveSplitMet(g: Graph, c: Collected, n: Node)
    requires WellFormed(g) && LiveSplit(g, n) && Sane(g, c)
    requires forall j :: 0 <= j < |g.outputs| ==> Done(g, c, Out(j))
    requires forall k :: k in c.visited ==> DoneMark(g, c, k, |g.marks|)
    ensures n in c.met
    decreases 2 * |g.marks| + 2 - Rank(g, n)
  {
    match n.o
    case Out(i) => assert Done(g, c, Out(i));
    case Inner(k) =>
      assert Live(g, SumNode(Inner(k)));
      var p: Node :| Splits(g, p, k) && Live(g, p);
      RankFalls(g, SumNode(Inner(k)), n);
      LiveSplitMet(g, c, p);
      assert k in c.visited;
  }

  lemma {:induction false} CollectedAll(g: Graph, start: Collected, c: Collected, own: set<Owner>)
    requires WellFormed(g) && Sane(g, c) && start == Collected({}, []) && Grows(g, start, c, |g.marks|, own)
    requires forall j :: 0 <= j < |g.outputs| ==> Done(g, c, Out(j))
    ensures Complete(g, c)
  {
    forall n | LiveSplit(g, n) ensures n in c.met { LiveSplitMet(g, c, n); }
    forall k | LiveMark(g, k) ensures k in c.visited {
      var p: Node :| Splits(g, p, k) && Live(g, p);
      assert LiveSplit(g, p);
    }
  }

  // ----- the check -----

  /** mark2splits_[k]: the splits of mark k, in the order they were met. */
  function SplitsOf(g: Graph, met: seq<Node>, k: nat): seq<Node> {
    if met == [] then []
    else if Splits(g, met[0], k) then [met[0]] + SplitsOf(g, met[1..], k)
    else SplitsOf(g, met[1..], k)
  }

  lemma {:induction false} SplitsOfSpec(g: Graph, met: seq<Node>, k: nat)
    requires NoRepeat(met)
    ensures NoRepeat(SplitsOf(g, met, k))
    ensures forall n :: n in SplitsOf(g, met, k) <==> n in met && Splits(g, n, k)
  {
    if met != [] {
      SplitsOfSpec(g, met[1..], k);
      var r := SplitsOf(g, met[1..], k);
      assert met == [met[0]] + met[1..];
      if Splits(g, met[0], k) { assert ([met[0]] + r)[1..] == r; }
    }
  }

  /** The nodes in the order their splits were taken. */
  function Arrange(s: seq<Node>, p: seq<nat>): (c: seq<Node>)
    requires Injective(p, |s|)
    ensures |c| == |p| && forall t :: 0 <= t < |p| ==> c[t] == s[p[t]]
  {
    seq(|p|, t requires 0 <= t < |p| => s[p[t]])
  }

  lemma {:induction false} ArrangeCovers(s: seq<Node>, p: seq<nat>)
    requires NoRepeat(s) && Injective(p, |s|) && |p| == |s|
    ensures NoRepeat(Arrange(s, p))
    ensures forall n :: n in Arrange(s, p) <==> n in s
  {
    NoRepeatPairs(s);
    NoRepeatPairs(Arrange(s, p));
    forall n | n in s ensures n in Arrange(s, p) {
      var j :| 0 <= j < |s| && s[j] == n;
      InjectiveCovers(p, |s|, j);
      var t :| 0 <= t < |p| && p[t] == j;
      assert Arrange(s, p)[t] == n;
    }
  }

  /** Every live split has more than one value. */
  ghost predicate WideLive(g: Graph, k: nat)
    requires WellFormed(g)
  {
    forall n: Node :: Splits(g, n, k) && Live(g, n) ==> SplitAt(g, n).extent > 1
  }

  /** Any arrangement of the nodes of s is an arrangement of their positions. */
  lemma {:induction false} PositionsOf(g: Graph, s: seq<Node>, c: seq<Node>) returns (q: seq<nat>)
    requires NoRepeat(s) && NoRepeat(c) && forall n :: n in c <==> n in s
    requires forall n :: n in s ==> ValidNode(g, n) && n.SplitNode?
    ensures |q| == |s| && Injective(q, |s|) && Pick(NodeSplits(g, s), q) == NodeSplits(g, c)
  {
    q := seq(|c|, t requires 0 <= t < |c| => Position(s, c[t]));
    NoRepeatPairs(s);
    NoRepeatPairs(c);
    forall i, j | 0 <= i < j < |q| ensures q[i] != q[j] { assert c[i] == s[q[i]] && c[j] == s[q[j]]; }
    assert Injective(q, |s|);
    SameLength(s, c);
    assert Pick(NodeSplits(g, s), q) == NodeSplits(g, c);
  }

  function Position(s: seq<Node>, n: Node): (i: nat)
    requires n in s
    ensures i < |s| && s[i] == n
  {
    if s[0] == n then 0 else Position(s[1..], n) + 1
  }

  lemma {:induction false} SameLength(s: seq<Node>, c: seq<Node>)
    requires NoRepeat(s) && NoRepeat(c) && forall n :: n in c <==> n in s
    ensures |s| == |c|
  {
    assert forall i :: 0 <= i < |c| ==> c[i] in s;
    if s != [] {
      var i := Position(c, s[0]);
      WithoutFacts(c, i);
      assert s == [s[0]] + s[1..];
      SameLength(s[1..], Without(c, i));
    }
  }

  ghost predicate Covers(splits: seq<Split>, extent: int, q: seq<nat>, bijective: bool) {
    if bijective then FullCover(splits, extent, q) else SkipCover(splits, extent, q)
  }

  /** The verdict on one mark; it is exact when no split is trivial. */
  method CheckMark(g: Graph, c: Collected, k: nat, bijective: bool) returns (ok: bool)
    requires WellFormed(g) && Complete(g, c) && k in c.visited
    ensures ok ==> MarkPasses(g, k, bijective)
    ensures !ok && WideLive(g, k) ==> !MarkPasses(g, k, bijective)
  {
    var s := SplitsOf(g, c.met, k);
    SplitsOfSpec(g, c.met, k);
    var splits := NodeSplits(g, s);
    forall i | 0 <= i < |splits| ensures splits[i].Valid() { ValidSplit(g, s[i]); }
    var r, p := TryNormalizeSplits(splits, g.marks[k].extent, bijective);
    ok := r != [];
    if ok {
      MarkAccepted(g, c, k, bijective, s, r, p);
    } else if WideLive(g, k) {
      MarkRejected(g, c, k, s, bijective);
    }
  }

  lemma {:induction false} MarkAccepted(
    g: Graph, c: Collected, k: nat, bijective: bool, s: seq<Node>, r: seq<Split>, p: seq<nat>)
    requires WellFormed(g) && Complete(g, c) && k in c.visited
    requires NoRepeat(s) && forall n :: n in s <==> n in c.met && Splits(g, n, k)
    requires |r| == |s| && Taken(NodeSplits(g, s), Reversed(r), p)
    requires if bijective then Chain(Reversed(r), 1, g.marks[k].extent)
      else SkipChain(Reversed(r), 1, g.marks[k].extent)
    ensures MarkPasses(g, k, bijective)
  {
    var a := Arrange(s, p);
    ArrangeCovers(s, p);
    assert NodeSplits(g, a) == Reversed(r);
    forall n ensures n in a <==> Splits(g, n, k) && Live(g, n) {
      if Splits(g, n, k) && Live(g, n) { assert LiveSplit(g, n); }
    }
    assert LivePlaces(g, k, a, bijective);
  }

  lemma {:induction false} PlacesCover(g: Graph, k: nat, s: seq<Node>, a: seq<Node>, bijective: bool)
    requires WellFormed(g) && k < |g.marks| && NoRepeat(s)
    requires forall n :: n in s <==> Splits(g, n, k) && Live(g, n)
    ensures LivePlaces(g, k, a, bijective) ==>
      exists q :: Covers(NodeSplits(g, s), g.marks[k].extent, q, bijective)
  {
    if LivePlaces(g, k, a, bijective) {
      var q := PositionsOf(g, s, a);
      assert Covers(NodeSplits(g, s), g.marks[k].extent, q, bijective);
    }
  }

  lemma {:induction false} MarkRejected(g: Graph, c: Collected, k: nat, s: seq<Node>, bijective: bool)
    requires WellFormed(g) && Complete(g, c) && k in c.visited && WideLive(g, k)
    requires NoRepeat(s) && forall n :: n in s <==> n in c.met && Splits(g, n, k)
    requires NodeSplits(g, s) != [] && Wide(NodeSplits(g, s)) ==>
      forall q :: !Covers(NodeSplits(g, s), g.marks[k].extent, q, bijective)
    ensures !MarkPasses(g, k, bijective)
  {
    forall n ensures n in s <==> Splits(g, n, k) && Live(g, n) {
      if Splits(g, n, k) && Live(g, n) { assert LiveSplit(g, n); }
    }
    var p: Node :| Splits(g, p, k) && Live(g, p);
    assert p in s;
    forall i | 0 <= i < |s| ensures NodeSplits(g, s)[i].extent > 1 { assert s[i] in s; }
    forall a ensures !LivePlaces(g, k, a, bijective) {
      PlacesCover(g, k, s, a, bijective);
    }
  }

  /** No input iterator with more than one value goes unused. */
  ghost predicate InputsUsed(g: Graph)
    requires WellFormed(g)
  {
    forall k :: 0 <= k < |g.marks| && g.marks[k].source.Input? ==> LiveMark(g, k) || g.marks[k].extent == 1
  }

  method CheckMapping(g: Graph, bijective: bool) returns (ok: bool)
    requires WellFormed(g)
    ensures ok ==> AllPass(g, bijective) && (bijective ==> InputsUsed(g))
    ensures !ok && (forall k :: 0 <= k < |g.marks| ==> WideLive(g, k)) ==>
      !AllPass(g, bijective) || (bijective && !InputsUsed(g))
  {
    var c := Collect(g);
    var rest := c.visited;
    while rest != {}
      invariant rest <= c.visited
      invariant forall k :: k in c.visited && k !in rest ==> MarkPasses(g, k, bijective)
    {
      var k :| k in rest;
      ok := CheckMark(g, c, k, bijective);
      if !ok {
        return;
      }
      rest := rest - {k};
    }
    if bijective {
      for k := 0 to |g.marks|
        invariant forall j :: 0 <= j < k && g.marks[j].source.Input? ==> LiveMark(g, j) || g.marks[j].extent == 1
      {
        if g.marks[k].source.Input? && k !in c.visited && g.marks[k].extent != 1 {
          return false;
        }
      }
    }
    ok := true;
  }
}
