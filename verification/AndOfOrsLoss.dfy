// A run of the simplifier that loses the truth: a chunk that comes to hold a key twice is merged with
// one that holds a key the first does not.
module AndOfOrsLoss {
  import opened Expr
  import opened ConjunctiveNormalForm
  import opened AndOfOrsRun
  import opened AndOfOrsTruth

  const A: Cond := LT(Var("x"), Const(2))
  const U: Cond := LT(Var("x"), Const(1))
  const W: Cond := EQ(Var("x"), Const(1))
  const B: Cond := LT(Var("z"), Const(0))
  const C: Cond := GT(Var("y"), Const(10))
  const D: Cond := GT(Var("y"), Const(5))

  const FIRST: Cond := Or(Or(B, A), D)
  const SECOND: Cond := Or(Or(Or(C, A), U), W)
  const INPUT: Cond := And(FIRST, SECOND)

  /** What is known while a and d are false. */
  const NEITHER: Cond := And(And(Bool(true), Not(A)), Not(D))

  /** x < 1 or x == 1 is x < 2, and z < 0 and y > 10 is false where y > 5 is. */
  function Rewriter(known: Cond, c: Cond): Cond {
    if c == Or(U, W) then A else if c == And(B, C) && known == NEITHER then Bool(false) else c
  }

  lemma {:induction false} RewriterSound(ctx: iset<Env>)
    ensures Sound(Rewriter, ctx)
  {
    forall known, c, env | env in ctx && Holds(known, env) ensures Holds(Rewriter(known, c), env) <==> Holds(c, env) {
      var x, y := Lookup(env, "x"), Lookup(env, "y");
      assert Holds(A, env) <==> x < 2;
      assert Holds(U, env) <==> x < 1;
      assert Holds(W, env) <==> x == 1;
      assert Holds(C, env) <==> y > 10;
      assert Holds(D, env) <==> y > 5;
      if c == Or(U, W) {
        assert Holds(c, env) <==> Holds(U, env) || Holds(W, env);
      } else if c == And(B, C) && known == NEITHER {
        assert Holds(NEITHER, env) <==> Holds(And(Bool(true), Not(A)), env) && !Holds(D, env);
        assert Holds(c, env) <==> Holds(B, env) && Holds(C, env);
      }
    }
  }

  // ----- tables and rows -----

  lemma {:induction false} FindAt(exprs: seq<Cond>, k: nat)
    requires Distinct(exprs) && k < |exprs|
    ensures Find(exprs, exprs[k]) == k
  {
    if k > 0 {
      assert exprs[0] != exprs[k];
      assert exprs[1..][k - 1] == exprs[k];
      FindAt(exprs[1..], k - 1);
    }
  }

  lemma {:induction false} FindMissing(exprs: seq<Cond>, e: Cond)
    requires e !in exprs
    ensures Find(exprs, e) == |exprs|
  {
    if exprs != [] { FindMissing(exprs[1..], e); }
  }

  /** The disjunction of the two entries is left as it is. */
  predicate Inert(rewrite: Rewrite, t: seq<Cond>, a: Key, b: Key) {
    a < |t| && b < |t| && rewrite(Bool(true), Or(t[a], t[b])) == Or(t[a], t[b])
  }

  /** No pair of the key at i with one of the n from j on is rewritten. */
  predicate InertRow(rewrite: Rewrite, p: Part, i: nat, j: nat, n: nat) {
    i < |p.keys| && j + n <= |p.keys| && forall s :: j <= s < j + n ==> Inert(rewrite, p.exprs, p.keys[i], p.keys[s])
  }

  lemma {:induction false} RowInert(rewrite: Rewrite, p: Part, i: nat, j: nat, n: nat)
    requires InertRow(rewrite, p, i, j, n)
    ensures Row(rewrite, p, i, j, n) == p
    decreases n
  {
    if n > 0 {
      assert Inert(rewrite, p.exprs, p.keys[i], p.keys[j]);
      assert p.keys[i := p.keys[i]][j := p.keys[j]] == p.keys;
      assert PairWithin(rewrite, p, i, j) == p;
      RowInert(rewrite, p, i, j + 1, n - 1);
    }
  }

  lemma {:induction false} NextKey(t: seq<Cond>, n: nat)
    requires Distinct(t) && n < |t|
    ensures Find(t[..n], t[n]) == n && WithKey(t[..n], t[n]) == t[..n + 1]
  {
    forall k | 0 <= k < n ensures t[..n][k] != t[n] { assert t[..n][k] == t[k]; }
    FindMissing(t[..n], t[n]);
    assert t[..n] + [t[n]] == t[..n + 1];
  }

  lemma {:induction false} OldKey(t: seq<Cond>, n: nat, k: nat)
    requires Distinct(t) && k < n <= |t|
    ensures Find(t[..n], t[k]) == k && WithKey(t[..n], t[k]) == t[..n]
  {
    assert forall m :: 0 <= m < n ==> t[..n][m] == t[m];
    FindAt(t[..n], k);
  }

  /** The next part has the next key, or one the table has. */
  lemma {:induction false} CollectStep(t: seq<Cond>, n: nat, k: nat, ors: seq<Cond>, keys: seq<Key>)
    requires Distinct(t) && n <= |t| && k < |t| && k <= n && ors != [] && ors[0] == t[k] && k !in keys
    ensures Collect(t[..n], ors, keys) == Collect(t[..if k == n then n + 1 else n], ors[1..], keys + [k])
  {
    if k == n { NextKey(t, n); } else { OldKey(t, n, k); }
    CollectUnfold(t[..n], ors, keys);
  }

  lemma {:induction false} CollectThree(t: seq<Cond>, ors: seq<Cond>)
    requires Distinct(t) && |t| >= 5 && ors == [t[2], t[3], t[4]]
    ensures Collect(t[..2], ors, []) == ([2, 3, 4], t[..5])
  {
    var none: seq<Key> := [];
    CollectStep(t, 2, 2, ors, none);
    assert none + [2] == [2];
    CollectStep(t, 3, 3, ors[1..], [2]);
    assert [2] + [3] == [2, 3];
    CollectStep(t, 4, 4, ors[1..][1..], [2, 3]);
    assert ors[1..][1..][1..] == [] && [2, 3] + [4] == [2, 3, 4];
  }

  lemma {:induction false} CollectFour(t: seq<Cond>, ors: seq<Cond>)
    requires Distinct(t) && |t| == 8 && ors == [t[5], t[3], t[6], t[7]]
    ensures Collect(t[..5], ors, []) == ([5, 3, 6, 7], t)
  {
    var none: seq<Key> := [];
    CollectStep(t, 5, 5, ors, none);
    assert none + [5] == [5];
    CollectStep(t, 6, 3, ors[1..], [5]);
    assert [5] + [3] == [5, 3];
    var rest := ors[1..][1..];
    CollectStep(t, 6, 6, rest, [5, 3]);
    assert [5, 3] + [6] == [5, 3, 6];
    CollectStep(t, 7, 7, rest[1..], [5, 3, 6]);
    assert rest[1..][1..] == [] && [5, 3, 6] + [7] == [5, 3, 6, 7] && t[..8] == t;
  }

  lemma {:induction false} NewPart(f: Form, part: Cond, keys: seq<Key>, exprs: seq<Cond>)
    requires Collect(f.exprs, VisitOr(part), []) == (keys, exprs) && forall n :: 0 <= n < |f.chunks| ==>
      |f.chunks[n]| != |keys|
    ensures WithPart(f, part) == Form(f.chunks + [keys], exprs, f.fair)
  {
    forall n | 0 <= n < |f.chunks| ensures multiset(f.chunks[n]) != multiset(keys) {
      assert |multiset(f.chunks[n])| == |f.chunks[n]| && |multiset(keys)| == |keys|;
    }
  }

  /** The form built from two conjuncts of three and four disjuncts that share one. */
  lemma {:induction false} TwoParts(t: seq<Cond>, start: Form, first: Cond, second: Cond)
    requires Distinct(t) && |t| == 8 && start == Form([], t[..2], true)
    requires VisitOr(first) == [t[2], t[3], t[4]] && VisitOr(second) == [t[5], t[3], t[6], t[7]]
    ensures WithParts(start, [first, second]) == Form([[2, 3, 4], [5, 3, 6, 7]], t, true)
  {
    var left: seq<Key>, right: seq<Key> := [2, 3, 4], [5, 3, 6, 7];
    CollectThree(t, VisitOr(first));
    NewPart(start, first, left, t[..5]);
    var f := Form([left], t[..5], true);
    assert start.chunks + [left] == f.chunks;
    CollectFour(t, VisitOr(second));
    NewPart(f, second, right, t);
    assert f.chunks + [right] == [left, right];
    var parts := [first, second];
    PartsUnfold(start, parts);
    PartsUnfold(f, parts[1..]);
    assert parts[1..][0] == second && parts[1..][1..] == [];
  }

  // ----- within chunks -----

  lemma {:induction false} RowsInert(rewrite: Rewrite, p: Part, i: nat, n: nat)
    requires n > 0 && InertRow(rewrite, p, i, i + 1, n - 1)
    ensures Rows(rewrite, p, i, n) == Rows(rewrite, p, i + 1, n - 1)
  {
    RowInert(rewrite, p, i, i + 1, n - 1);
    var q := Row(rewrite, p, i, i + 1, n - 1);
    assert q == p;
    RowsUnfold(rewrite, p, i, n);
  }

  lemma {:induction false} LeftRows(rewrite: Rewrite, t: seq<Cond>, p: Part, n: nat)
    requires n == 3 && p == Part([2, 3, 4], t) && Inert(rewrite, t, 2, 3) && Inert(rewrite, t, 2, 4)
    requires Inert(rewrite, t, 3, 4)
    ensures Rows(rewrite, p, 0, n) == p
  {
    RowsInert(rewrite, p, 0, n);
    RowsInert(rewrite, p, 1, n - 1);
    RowsInert(rewrite, p, 2, n - 2);
  }

  lemma {:induction false} LastPair(rewrite: Rewrite, t: seq<Cond>, p: Part)
    requires Distinct(t) && |t| == 8 && p == Part([5, 3, 6, 7], t)
    requires rewrite(Bool(true), Or(t[6], t[7])) == t[3] && !t[3].Or?
    ensures PairWithin(rewrite, p, 2, 3) == Part([5, 3, 1, 3], t)
  {
    OldKey(t, 8, 3);
    assert t[..8] == t;
    assert p.keys[2 := 1][3 := 3] == [5, 3, 1, 3];
  }

  lemma {:induction false} InertStart(rewrite: Rewrite, t: seq<Cond>, p: Part, n: nat)
    requires n == 4 && p == Part([5, 3, 6, 7], t) && Inert(rewrite, t, 5, 3) && Inert(rewrite, t, 5, 6)
    requires Inert(rewrite, t, 5, 7)
    requires Inert(rewrite, t, 3, 6) && Inert(rewrite, t, 3, 7)
    ensures Rows(rewrite, p, 0, n) == Rows(rewrite, p, 2, n - 2)
  {
    assert InertRow(rewrite, p, 0, 1, n - 1);
    RowsInert(rewrite, p, 0, n);
    assert InertRow(rewrite, p, 1, 2, n - 2);
    RowsInert(rewrite, p, 1, n - 1);
  }

  /** The last two of four keys become false and the second: the chunk holds it twice. */
  lemma {:induction false} RightRows(rewrite: Rewrite, t: seq<Cond>, p: Part, n: nat)
    requires n == 2 && Distinct(t) && |t| == 8 && p == Part([5, 3, 6, 7], t)
    requires rewrite(Bool(true), Or(t[6], t[7])) == t[3] && !t[3].Or?
    ensures Rows(rewrite, p, 2, n) == Part([5, 3, 1, 3], t)
  {
    var q := Part([5, 3, 1, 3], t);
    RowsUnfold(rewrite, p, 2, n);
    LastPair(rewrite, t, p);
    RowUnfold(rewrite, p, 2, 3, n - 1);
    assert Row(rewrite, p, 2, 3, n - 1) == q;
    RowsUnfold(rewrite, q, 3, n - 1);
  }

  /** What the rewriter makes of the pairs within the two chunks. */
  predicate RewritesWithin(rewrite: Rewrite, t: seq<Cond>) {
    && Distinct(t) && |t| == 8
    && Inert(rewrite, t, 2, 3) && Inert(rewrite, t, 2, 4) && Inert(rewrite, t, 3, 4)
    && Inert(rewrite, t, 5, 3) && Inert(rewrite, t, 5, 6) && Inert(rewrite, t, 5, 7)
    && Inert(rewrite, t, 3, 6) && Inert(rewrite, t, 3, 7)
    && rewrite(Bool(true), Or(t[6], t[7])) == t[3] && !t[3].Or?
  }

  lemma {:induction false} WithinTwo(rewrite: Rewrite, t: seq<Cond>, f: Form, n: nat)
    requires n == 2 && RewritesWithin(rewrite, t) && f == Form([[2, 3, 4], [5, 3, 6, 7]], t, true)
    ensures Within(rewrite, f, 0, n) == Form([[2, 3, 4], [5, 3, 1, 3]], t, true)
  {
    LeftRows(rewrite, t, Part(f.chunks[0], t), |f.chunks[0]|);
    assert f.chunks[0 := f.chunks[0]] == f.chunks;
    assert ChunkWithin(rewrite, f, 0) == f;
    WithinUnfold(rewrite, f, 0, n);
    var p := Part(f.chunks[1], t);
    InertStart(rewrite, t, p, |p.keys|);
    RightRows(rewrite, t, p, |p.keys| - 2);
    var keys: seq<Key> := [5, 3, 1, 3];
    var g := Form([[2, 3, 4], keys], t, true);
    assert f.chunks[1 := keys] == g.chunks;
    assert ChunkWithin(rewrite, f, 1) == g;
    WithinUnfold(rewrite, f, 1, n - 1);
  }

  // ----- across chunks -----

  lemma {:induction false} CleanTwo(f: Form)
    requires f.chunks == [[2, 3, 4], [5, 3, 1, 3]]
    ensures Clean(f) == f.(chunks := [[2, 3, 4], [5, 3, 3]])
  {
    var i: seq<Key>, j: seq<Key> := [2, 3, 4], [5, 3, 1, 3];
    assert i[1..] == [3, 4] && i[1..][1..] == [4] && i[1..][1..][1..] == [];
    assert j[1..] == [3, 1, 3] && j[1..][1..] == [1, 3] && j[1..][1..][1..] == [3] && j[1..][1..][1..][1..] == [];
    assert Without(i, FALSE) == [2] + ([3] + ([4] + []));
    assert Without(j, FALSE) == [5] + ([3] + ([] + ([3] + [])));
    assert TrimmedChunk(i) == i && TrimmedChunk(j) == [5, 3, 3];
    var r := TrimmedChunks(f.chunks);
    assert r == [i, [5, 3, 3]];
    NoTrue(r);
  }

  lemma {:induction false} NoTrue(chunks: seq<seq<Key>>)
    requires forall n :: 0 <= n < |chunks| ==> chunks[n] != [TRUE]
    ensures WithoutTrue(chunks) == chunks
  {
    if chunks != [] { NoTrue(chunks[1..]); }
  }

  /** All but one key of the second chunk are in the first, which holds one more that is not. */
  lemma {:induction false} OneApart(i: seq<Key>, j: seq<Key>)
    requires i == [2, 3, 4] && j == [5, 3, 3]
    ensures FirstApart(i, j) == 0 && FirstApart(j, i) == 0 && Shared(j, i) == 2 && !Mergeable(i, 0, j, 0)
  {
    assert j[..2] == [5, 3] && j[..2][..1] == [5] && j[..2][..1][..0] == [];
    assert Shared(j[..2][..1], i) == 0;
    assert Shared(j[..2], i) == 1;
    assert i[2] == 4 && 4 !in j;
  }

  /** The other keys of the first chunk are the second and the third. */
  lemma {:induction false} KnownTwo(rewrite: Rewrite, t: seq<Cond>, i: seq<Key>, known: Cond)
    requires |t| == 8 && i == [2, 3, 4]
    requires rewrite(Bool(true), Not(t[3])) == Not(t[3]) && rewrite(Bool(true), Not(t[4])) == Not(t[4])
    ensures Known(rewrite, t, i, 0, 0, known) == And(And(known, Not(t[3])), Not(t[4]))
  {
    var n := 0;
    var more := And(known, Not(t[3]));
    assert Known(rewrite, t, i, 0, n, known) == Known(rewrite, t, i, 0, n + 1, known);
    assert Known(rewrite, t, i, 0, n + 1, known) == Known(rewrite, t, i, 0, n + 2, more);
    assert Known(rewrite, t, i, 0, n + 2, more) == Known(rewrite, t, i, 0, n + 3, And(more, Not(t[4])));
  }

  /** What the rewriter makes of the two keys that differ. */
  predicate RewritesAcross(rewrite: Rewrite, t: seq<Cond>) {
    && Distinct(t) && |t| == 8 && t[0] == Bool(true) && t[1] == Bool(false)
    && rewrite(Bool(true), Not(t[3])) == Not(t[3]) && rewrite(Bool(true), Not(t[4])) == Not(t[4])
    && rewrite(And(And(Bool(true), Not(t[3])), Not(t[4])), And(t[2], t[5])) == Bool(false)
  }

  lemma {:induction false} MergeTwo(rewrite: Rewrite, t: seq<Cond>, f: Form)
    requires RewritesAcross(rewrite, t) && f == Form([[2, 3, 4], [5, 3, 3]], t, true)
    ensures PairAcross(rewrite, f, 0, 1) == Form([[0, 3, 4], [1, 3, 3]], t, false)
  {
    var i, j := f.chunks[0], f.chunks[1];
    OneApart(i, j);
    KnownTwo(rewrite, t, i, Bool(true));
    var known := And(And(Bool(true), Not(t[3])), Not(t[4]));
    OldKey(t, 8, 1);
    assert t[..8] == t;
    assert AndKeys(rewrite, known, t, 2, 5) == (0, 1, t);
    var i': seq<Key>, j': seq<Key> := [0, 3, 4], [1, 3, 3];
    assert i[0 := 0] == i' && j[0 := 1] == j' && f.chunks[0 := i'][1 := j'] == [i', j'];
    assert Merged(rewrite, f, 0, 0, 1, 0, known) == Form([i', j'], t, false);
  }

  lemma {:induction false} AcrossTwo(rewrite: Rewrite, f: Form, g: Form, x: nat)
    requires x == 0 && |f.chunks| == 2 && g == PairAcross(rewrite, f, x, x + 1)
    ensures Across(rewrite, f, x) == g
  {
    assert AcrossRow(rewrite, f, x, x + 1) == AcrossRow(rewrite, g, x, x + 2);
    assert AcrossRow(rewrite, g, x, x + 2) == g;
    assert Across(rewrite, f, x) == Across(rewrite, g, x + 1);
    assert AcrossRow(rewrite, g, x + 1, x + 2) == g;
    assert Across(rewrite, g, x + 1) == Across(rewrite, g, x + 2);
  }

  lemma {:induction false} CleanLast(f: Form)
    requires f.chunks == [[0, 3, 4], [1, 3, 3]]
    ensures Clean(f) == f.(chunks := [[3, 3]])
  {
    var i: seq<Key>, j: seq<Key> := [0, 3, 4], [1, 3, 3];
    assert TRUE in i && TRUE !in j;
    assert j[1..] == [3, 3] && j[1..][1..] == [3] && j[1..][1..][1..] == [];
    assert Without(j, FALSE) == [] + ([3] + ([3] + []));
    assert i[0] == TRUE && TrimmedChunk(i) == [TRUE] && TrimmedChunk(j) == [3, 3];
    var r := TrimmedChunks(f.chunks);
    assert r[0] == TrimmedChunk(i) && r[1] == TrimmedChunk(j);
    assert r == [[TRUE], [3, 3]];
    assert r[1..] == [[3, 3]];
    NoTrue(r[1..]);
    assert WithoutTrue(r) == [] + WithoutTrue(r[1..]);
  }

  // ----- the whole run -----

  lemma {:induction false} RunWithin(rewrite: Rewrite, t: seq<Cond>, f: Form, n: nat)
    requires RewritesWithin(rewrite, t) && f == Form([[2, 3, 4], [5, 3, 6, 7]], t, true) && n == 2
    ensures Clean(Within(rewrite, f, 0, n)) == Form([[2, 3, 4], [5, 3, 3]], t, true)
  {
    WithinTwo(rewrite, t, f, n);
    CleanTwo(Within(rewrite, f, 0, n));
  }

  lemma {:induction false} RunAcross(rewrite: Rewrite, t: seq<Cond>, f: Form, x: nat)
    requires RewritesAcross(rewrite, t) && f == Form([[2, 3, 4], [5, 3, 3]], t, true) && x == 0
    ensures Clean(Across(rewrite, f, x)) == Form([[3, 3]], t, false)
  {
    MergeTwo(rewrite, t, f);
    AcrossTwo(rewrite, f, PairAcross(rewrite, f, x, x + 1), x);
    CleanLast(Across(rewrite, f, x));
  }

  /** The form the run ends with: the shared disjunct alone, twice. */
  lemma {:induction false} RunEnds(rewrite: Rewrite, t: seq<Cond>, f: Form)
    requires RewritesWithin(rewrite, t) && RewritesAcross(rewrite, t) && f == Form([[2, 3, 4], [5, 3, 6, 7]], t, true)
    ensures Simplified(rewrite, f) == Form([[3, 3]], t, false)
  {
    RunWithin(rewrite, t, f, |f.chunks|);
    RunAcross(rewrite, t, Clean(Within(rewrite, f, 0, |f.chunks|)), 0);
  }

  const TABLE: seq<Cond> := [Bool(true), Bool(false), B, A, D, C, U, W]

  lemma {:induction false} TableRight(t: seq<Cond>)
    requires t == TABLE
    ensures RewritesWithin(Rewriter, t) && RewritesAcross(Rewriter, t)
  {
  }

  /** Of two conditions that are no conjunctions, neither is the disjunction. */
  lemma {:induction false} OnlyOrs(x: Cond, y: Cond)
    requires VisitAnd(x) == [x] && VisitAnd(y) == [y]
    ensures VisitAnd(Or(x, y)) == [Or(x, y)] && VisitOr(Or(x, y)) == VisitOr(x) + VisitOr(y)
  {
    assert Pair(x, [y], true) == [Or(x, y)] + Pair(x, [], true);
    assert Cross([x], [y], true) == Pair(x, [y], true) + Cross([], [y], true);
  }

  lemma {:induction false} PartsOfInput()
    ensures VisitAnd(INPUT) == [FIRST, SECOND] && VisitOr(FIRST) == [B, A, D] && VisitOr(SECOND) == [C, A, U, W]
  {
    OnlyOrs(B, A);
    OnlyOrs(Or(B, A), D);
    OnlyOrs(C, A);
    OnlyOrs(Or(C, A), U);
    OnlyOrs(Or(Or(C, A), U), W);
    assert VisitAnd(INPUT) == VisitAnd(FIRST) + VisitAnd(SECOND);
  }

  /**
   * Where it fails, with a sound rewriter: the result for (z < 0 or x < 2 or y > 5) and
   * (y > 10 or x < 2 or x < 1 or x == 1) is false at x = 5, y = 11, z = 3, where the input is true.
   */
  lemma {:induction false} RepeatedKeyFails(t: seq<Cond>, env: Env)
    requires t == TABLE && env == map["x" := 5, "y" := 11, "z" := 3]
    ensures Sound(Rewriter, iset{env}) && !FairRun(Rewriter, INPUT)
    ensures Holds(INPUT, env) && !Holds(Result(Rewriter, INPUT), env)
  {
    RewriterSound(iset{env});
    TableRight(t);
    PartsOfInput();
    assert START == Form([], t[..2], true);
    TwoParts(t, START, FIRST, SECOND);
    var f := Form([[2, 3, 4], [5, 3, 6, 7]], t, true);
    RunEnds(Rewriter, t, f);
    assert Rewriter(Bool(true), INPUT) == INPUT;
    var g := Form([[3, 3]], t, false);
    assert FinalForm(Rewriter, INPUT) == g;
    LostTruth(t, env, g);
  }

  lemma {:induction false} LostTruth(t: seq<Cond>, env: Env, g: Form)
    requires t == TABLE && env == map["x" := 5, "y" := 11, "z" := 3] && g == Form([[3, 3]], t, false)
    ensures Holds(INPUT, env) && !Holds(AsExpr(g), env)
  {
    assert Lookup(env, "x") == 5 && Lookup(env, "y") == 11;
    assert !Holds(A, env) && Holds(C, env) && Holds(D, env);
    assert Holds(FIRST, env) && Holds(Or(C, A), env) && Holds(Or(Or(C, A), U), env);
    assert !KeyTrue(3, t, env) && !ChunkTrue(g.chunks[0], t, env) && !Truth(g.chunks, t, env);
    assert Truth(g.chunks[..0], t, env);
    AndUpTruth(t, g.chunks, 0, Bool(true), env);
  }
}
