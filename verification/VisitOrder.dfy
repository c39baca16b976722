// The order of back-propagation: the reverse of a depth-first post-order of the DAG.
module VisitOrder {
  import opened SplitCover
  import opened IterMap
  import opened InverseMap

  ghost predicate Occurs(order: seq<Node>, hi: int, n: Node) {
    exists j :: 0 <= j < hi && j < |order| && order[j] == n
  }

  ghost predicate ChildrenEarlier(g: Graph, order: seq<Node>)
    requires forall i :: 0 <= i < |order| ==> ValidNode(g, order[i])
  {
    forall i, c :: 0 <= i < |order| && Child(g, order[i], c) ==> Occurs(order, i, c)
  }

  /** A post-order so far; nodes visited but not finished have a rank above r. */
  ghost predicate PostOrder(g: Graph, visited: set<Node>, order: seq<Node>, r: int)
    requires WellFormed(g)
  {
    && NoRepeat(order)
    && (forall n :: n in visited ==> ValidNode(g, n))
    && (forall i :: 0 <= i < |order| ==> order[i] in visited)
    && (forall n :: n in visited ==> n in order || Rank(g, n) > r)
    && (forall n :: n in visited ==> Live(g, n))
    && ChildrenEarlier(g, order)
  }

  /** Everything newly visited is finished, and what was finished before stays where it was. */
  ghost predicate Extends(visited: set<Node>, order: seq<Node>, visited': set<Node>, order': seq<Node>) {
    && visited <= visited' && order <= order'
    && (forall n :: n in visited' ==> n in visited || n in order')
    && (forall n :: n in visited && n !in order ==> n !in order')
  }

  lemma {:induction false} ExtendsTrans(
    v: set<Node>, a: seq<Node>, v1: set<Node>, a1: seq<Node>, v2: set<Node>, a2: seq<Node>)
    requires Extends(v, a, v1, a1) && Extends(v1, a1, v2, a2)
    ensures Extends(v, a, v2, a2)
  {
    forall n | n in v2
      ensures n in v || n in a2
    {
      if n in a1 { PrefixMember(a1, a2, n); }
    }
  }

  lemma {:induction false} PrefixMember(a: seq<Node>, b: seq<Node>, n: Node)
    requires a <= b && n in a
    ensures n in b
  {
    var i :| 0 <= i < |a| && a[i] == n;
    assert b[i] == n;
  }

  /** n has been entered and not left; whatever else is unfinished ranks above it. */
  ghost predicate OpenAt(g: Graph, n: Node, visited: set<Node>, order: seq<Node>)
    requires WellFormed(g) && ValidNode(g, n)
  {
    && n in visited && n !in order && PostOrder(g, visited, order, Rank(g, n) - 1)
    && forall m :: m in visited && m != n ==> m in order || Rank(g, m) > Rank(g, n)
  }

  /** Visiting below n leaves a post-order in which n and its ancestors are still unfinished. */
  lemma {:induction false} StillOpen(
    g: Graph, n: Node, visited: set<Node>, order: seq<Node>, visited': set<Node>, order': seq<Node>, r: int)
    requires WellFormed(g) && ValidNode(g, n) && OpenAt(g, n, visited, order)
    requires PostOrder(g, visited', order', r) && Extends(visited, order, visited', order')
    ensures OpenAt(g, n, visited', order')
  {
    forall m | m in visited' && m != n
      ensures m in order' || Rank(g, m) > Rank(g, n)
    {
      if m in order { PrefixMember(order, order', m); }
    }
  }

  lemma {:induction false} Finish(g: Graph, visited: set<Node>, order: seq<Node>, n: Node)
    requires WellFormed(g) && ValidNode(g, n) && OpenAt(g, n, visited, order)
    requires forall c :: Child(g, n, c) ==> c in order
    ensures PostOrder(g, visited, order + [n], Rank(g, n))
  {
    var order' := order + [n];
    NoRepeatPairs(order);
    NoRepeatPairs(order');
    forall i, c | 0 <= i < |order'| && Child(g, order'[i], c)
      ensures Occurs(order', i, c)
    {
      if i < |order| {
        assert Occurs(order, i, c);
        var j :| 0 <= j < i && j < |order| && order[j] == c;
        assert order'[j] == c;
      } else {
        var j :| 0 <= j < |order| && order[j] == c;
        assert order'[j] == c;
      }
    }
    forall m | m in visited
      ensures m in order' || Rank(g, m) > Rank(g, n)
    {
      if m in order { assert m in order'; } else if m == n { assert order'[|order|] == n; }
    }
  }

  method Visit(g: Graph, n: Node, visited: set<Node>, order: seq<Node>) returns (visited': set<Node>, order': seq<Node>)
    requires WellFormed(g) && ValidNode(g, n) && Live(g, n)
    requires PostOrder(g, visited, order, Rank(g, n))
    ensures PostOrder(g, visited', order', Rank(g, n)) && Extends(visited, order, visited', order')
    ensures n in order'
    decreases Rank(g, n), 2
  {
    visited', order' := visited, order;
    if n in visited {
      return;
    }
    visited' := visited' + {n};
    ghost var open := visited';
    Opened(g, n, visited, order);
    if n.SumNode? {
      visited', order' := VisitArgs(g, n, visited', order');
    } else {
      ValidSplit(g, n);
      var m := SplitAt(g, n).mark;
      if g.marks[m].source.Fused? {
        var c := SumNode(Inner(m));
        visited', order' := VisitChild(g, n, c, visited', order');
      }
    }
    Finish(g, visited', order', n);
    PushExtends(visited, order, n, open, visited', order');
    order' := order' + [n];
    assert order'[|order'| - 1] == n;
  }

  method VisitChild(g: Graph, n: Node, c: Node, visited: set<Node>, order: seq<Node>)
    returns (visited': set<Node>, order': seq<Node>)
    requires WellFormed(g) && ValidNode(g, n) && Child(g, n, c) && OpenAt(g, n, visited, order)
    ensures Extends(visited, order, visited', order') && OpenAt(g, n, visited', order')
    ensures c in order'
    decreases Rank(g, n), 0
  {
    RankFalls(g, n, c);
    LiveChild(g, n, c);
    visited', order' := Visit(g, c, visited, order);
    StillOpen(g, n, visited, order, visited', order', Rank(g, c));
  }

  lemma {:induction false} PushExtends(
    visited: set<Node>, order: seq<Node>, n: Node, open: set<Node>, visited': set<Node>, order': seq<Node>)
    requires n !in visited && open == visited + {n} && Extends(open, order, visited', order')
    ensures Extends(visited, order, visited', order' + [n])
  {
    assert order' <= order' + [n];
    forall m | m in visited'
      ensures m in visited || m in order' + [n]
    {
      if m == n { assert (order' + [n])[|order'|] == n; }
    }
  }

  lemma {:induction false} Opened(g: Graph, n: Node, visited: set<Node>, order: seq<Node>)
    requires WellFormed(g) && ValidNode(g, n) && Live(g, n) && n !in visited
    requires PostOrder(g, visited, order, Rank(g, n))
    ensures OpenAt(g, n, visited + {n}, order)
  {
  }

  method VisitArgs(
    g: Graph, n: Node, visited: set<Node>, order: seq<Node>) returns (visited': set<Node>, order': seq<Node>)
    requires WellFormed(g) && n.SumNode? && ValidNode(g, n)
    requires OpenAt(g, n, visited, order)
    ensures Extends(visited, order, visited', order') && OpenAt(g, n, visited', order')
    ensures forall c :: Child(g, n, c) ==> c in order'
    decreases Rank(g, n), 1
  {
    visited', order' := visited, order;
    for l := 0 to |SumAt(g, n.o).args|
      invariant Extends(visited, order, visited', order') && OpenAt(g, n, visited', order')
      invariant forall i :: 0 <= i < l ==> SplitNode(n.o, i) in order'
    {
      var v1, o1 := VisitChild(g, n, SplitNode(n.o, l), visited', order');
      ExtendsTrans(visited, order, visited', order', v1, o1);
      forall i | 0 <= i < l ensures SplitNode(n.o, i) in o1 { PrefixMember(order', o1, SplitNode(n.o, i)); }
      visited', order' := v1, o1;
    }
  }

  /** Depth-first from every output, then reversed. */
  method ReverseTopologyOrder(g: Graph) returns (order: seq<Node>)
    requires WellFormed(g)
    ensures ParentsFirst(g, order)
  {
    var visited: set<Node> := {};
    var post: seq<Node> := [];
    ghost var top := 2 * |g.marks| + 2;
    for i := 0 to |g.outputs|
      invariant PostOrder(g, visited, post, top)
      invariant forall n :: n in visited ==> n in post
      invariant forall l :: 0 <= l < i ==> SumNode(Out(l)) in post
    {
      var v1, p1 := Visit(g, SumNode(Out(i)), visited, post);
      forall n | n in v1 ensures n in p1 { if n in post { PrefixMember(post, p1, n); } }
      forall l | 0 <= l < i ensures SumNode(Out(l)) in p1 { PrefixMember(post, p1, SumNode(Out(l))); }
      visited, post := v1, p1;
    }
    order := Reversed(post);
    ReversedIsParentsFirst(g, visited, post, top);
  }

  lemma {:induction false} ReversedMember(post: seq<Node>, n: Node)
    ensures n in Reversed(post) <==> n in post
  {
    if n in post {
      var i :| 0 <= i < |post| && post[i] == n;
      assert Reversed(post)[|post| - 1 - i] == n;
    }
  }

  lemma {:induction false} ReversedIsParentsFirst(g: Graph, visited: set<Node>, post: seq<Node>, r: int)
    requires WellFormed(g) && PostOrder(g, visited, post, r) && (forall n :: n in visited ==> n in post)
    requires forall l :: 0 <= l < |g.outputs| ==> SumNode(Out(l)) in post
    ensures ParentsFirst(g, Reversed(post))
  {
    var order := Reversed(post);
    NoRepeatPairs(post);
    NoRepeatPairs(order);
    forall n ensures n in order <==> n in post { ReversedMember(post, n); }
    forall i, c | 0 <= i < |order| && Child(g, order[i], c)
      ensures Later(order, i, c)
    {
      var i' := |post| - 1 - i;
      assert Occurs(post, i', c);
      var j :| 0 <= j < i' && j < |post| && post[j] == c;
      assert order[|post| - 1 - j] == c;
    }
  }
}
