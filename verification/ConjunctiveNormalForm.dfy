// Boolean expressions as an AND of ORs, simplified in place.
module ConjunctiveNormalForm {
  import opened Expr

  // ----- distribution -----

  function Cross(xs: seq<Cond>, ys: seq<Cond>, or: bool): seq<Cond> {
    if xs == [] then [] else Pair(xs[0], ys, or) + Cross(xs[1..], ys, or)
  }

  function Pair(x: Cond, ys: seq<Cond>, or: bool): seq<Cond> {
    if ys == [] then [] else [if or then Or(x, ys[0]) else And(x, ys[0])] + Pair(x, ys[1..], or)
  }

  /** The parts whose conjunction the expression is. */
  function VisitAnd(e: Cond): seq<Cond> {
    match e
    case And(x, y) => VisitAnd(x) + VisitAnd(y)
    case Or(x, y) => Cross(VisitAnd(x), VisitAnd(y), true)
    case _ => [e]
  }

  /** The parts whose disjunction the expression is. */
  function VisitOr(e: Cond): seq<Cond> {
    match e
    case Or(x, y) => VisitOr(x) + VisitOr(y)
    case And(x, y) => Cross(VisitOr(x), VisitOr(y), false)
    case _ => [e]
  }

  predicate All(cs: seq<Cond>, env: Env) {
    if cs == [] then true else Holds(cs[0], env) && All(cs[1..], env)
  }

  predicate Any(cs: seq<Cond>, env: Env) {
    if cs == [] then false else Holds(cs[0], env) || Any(cs[1..], env)
  }

  lemma {:induction false} AllConcat(a: seq<Cond>, b: seq<Cond>, env: Env)
    ensures All(a + b, env) <==> All(a, env) && All(b, env)
    ensures Any(a + b, env) <==> Any(a, env) || Any(b, env)
  {
    if a == [] {
      assert a + b == b;
    } else {
      assert (a + b)[1..] == a[1..] + b;
      AllConcat(a[1..], b, env);
    }
  }

  lemma {:induction false} PairTruth(x: Cond, ys: seq<Cond>, env: Env)
    ensures All(Pair(x, ys, true), env) <==> Holds(x, env) || All(ys, env)
    ensures Any(Pair(x, ys, false), env) <==> Holds(x, env) && Any(ys, env)
  {
    if ys != [] {
      PairTruth(x, ys[1..], env);
      AllConcat([Or(x, ys[0])], Pair(x, ys[1..], true), env);
      AllConcat([And(x, ys[0])], Pair(x, ys[1..], false), env);
      OneTruth(Or(x, ys[0]), env);
      OneTruth(And(x, ys[0]), env);
    }
  }

  lemma {:induction false} OneTruth(c: Cond, env: Env)
    ensures All([c], env) <==> Holds(c, env)
    ensures Any([c], env) <==> Holds(c, env)
  {
    assert [c][1..] == [];
    assert All([c], env) <==> Holds(c, env) && All([], env);
    assert Any([c], env) <==> Holds(c, env) || Any([], env);
  }

  lemma {:induction false} CrossTruth(xs: seq<Cond>, ys: seq<Cond>, env: Env)
    ensures All(Cross(xs, ys, true), env) <==> All(xs, env) || All(ys, env)
    ensures Any(Cross(xs, ys, false), env) <==> Any(xs, env) && Any(ys, env)
  {
    if xs != [] {
      CrossTruth(xs[1..], ys, env);
      PairTruth(xs[0], ys, env);
      AllConcat(Pair(xs[0], ys, true), Cross(xs[1..], ys, true), env);
      AllConcat(Pair(xs[0], ys, false), Cross(xs[1..], ys, false), env);
    }
  }

  /** Distribution keeps the truth value, whatever the nesting. */
  lemma {:induction false} VisitTruth(e: Cond, env: Env)
    ensures All(VisitAnd(e), env) <==> Holds(e, env)
    ensures Any(VisitOr(e), env) <==> Holds(e, env)
  {
    match e
    case And(x, y) =>
      VisitTruth(x, env);
      VisitTruth(y, env);
      AllConcat(VisitAnd(x), VisitAnd(y), env);
      CrossTruth(VisitOr(x), VisitOr(y), env);
    case Or(x, y) =>
      VisitTruth(x, env);
      VisitTruth(y, env);
      CrossTruth(VisitAnd(x), VisitAnd(y), env);
      AllConcat(VisitOr(x), VisitOr(y), env);
    case _ => OneTruth(e, env);
  }

  // ----- chunks of keys -----

  type Key = nat

  const TRUE: Key := 0
  const FALSE: Key := 1

  predicate TableOk(exprs: seq<Cond>) {
    |exprs| >= 2 && exprs[TRUE] == Bool(true) && exprs[FALSE] == Bool(false)
  }

  /** Every entry has one key. */
  predicate Distinct(exprs: seq<Cond>) {
    forall x, y :: 0 <= x < y < |exprs| ==> exprs[x] != exprs[y]
  }

  predicate KeysOk(chunk: seq<Key>, exprs: seq<Cond>) {
    forall i :: 0 <= i < |chunk| ==> chunk[i] < |exprs|
  }

  predicate ChunksOk(chunks: seq<seq<Key>>, exprs: seq<Cond>) {
    forall i :: 0 <= i < |chunks| ==> KeysOk(chunks[i], exprs)
  }

  predicate KeyTrue(k: Key, exprs: seq<Cond>, env: Env) {
    k < |exprs| && Holds(exprs[k], env)
  }

  /** Some key of the chunk is true. */
  predicate ChunkTrue(chunk: seq<Key>, exprs: seq<Cond>, env: Env) {
    exists i :: 0 <= i < |chunk| && KeyTrue(chunk[i], exprs, env)
  }

  /** Every chunk is true. */
  predicate Truth(chunks: seq<seq<Key>>, exprs: seq<Cond>, env: Env) {
    forall i :: 0 <= i < |chunks| ==> ChunkTrue(chunks[i], exprs, env)
  }

  lemma {:induction false} ChunkLater(chunk: seq<Key>, exprs: seq<Cond>, exprs': seq<Cond>, env: Env)
    requires KeysOk(chunk, exprs) && exprs <= exprs'
    ensures KeysOk(chunk, exprs') && (ChunkTrue(chunk, exprs, env) <==> ChunkTrue(chunk, exprs', env))
  {
    assert forall k :: 0 <= k < |exprs| ==> exprs'[k] == exprs[k];
    if ChunkTrue(chunk, exprs, env) {
      var i :| 0 <= i < |chunk| && KeyTrue(chunk[i], exprs, env);
      assert KeyTrue(chunk[i], exprs', env);
    }
    if ChunkTrue(chunk, exprs', env) {
      var i :| 0 <= i < |chunk| && KeyTrue(chunk[i], exprs', env);
      assert KeyTrue(chunk[i], exprs, env);
    }
  }

  lemma {:induction false} TruthLater(chunks: seq<seq<Key>>, exprs: seq<Cond>, exprs': seq<Cond>, env: Env)
    requires ChunksOk(chunks, exprs) && exprs <= exprs'
    ensures ChunksOk(chunks, exprs') && (Truth(chunks, exprs, env) <==> Truth(chunks, exprs', env))
  {
    forall i | 0 <= i < |chunks|
      ensures KeysOk(chunks[i], exprs') && (ChunkTrue(chunks[i], exprs, env) <==> ChunkTrue(chunks[i], exprs', env))
    {
      ChunkLater(chunks[i], exprs, exprs', env);
    }
  }

  /** Equal keys, equal truth. */
  lemma {:induction false} SameKeys(a: seq<Key>, b: seq<Key>, exprs: seq<Cond>, env: Env)
    requires forall k :: k in a ==> k in b
    ensures ChunkTrue(a, exprs, env) ==> ChunkTrue(b, exprs, env)
  {
    if ChunkTrue(a, exprs, env) {
      var i :| 0 <= i < |a| && KeyTrue(a[i], exprs, env);
      assert a[i] in b;
      var j :| 0 <= j < |b| && b[j] == a[i];
      assert KeyTrue(b[j], exprs, env);
    }
  }

  /** Replacing two keys by two with the same disjunction changes nothing. */
  lemma {:induction false} ReplacePair(chunk: seq<Key>, i: nat, j: nat, a: Key, b: Key, exprs: seq<Cond>, env: Env)
    requires i < |chunk| && j < |chunk| && i != j
    requires KeyTrue(a, exprs, env) || KeyTrue(b, exprs, env) <==>
      KeyTrue(chunk[i], exprs, env) || KeyTrue(chunk[j], exprs, env)
    ensures ChunkTrue(chunk[i := a][j := b], exprs, env) <==> ChunkTrue(chunk, exprs, env)
  {
    var r := chunk[i := a][j := b];
    if ChunkTrue(chunk, exprs, env) {
      var t :| 0 <= t < |chunk| && KeyTrue(chunk[t], exprs, env);
      assert KeyTrue(r[t], exprs, env) || KeyTrue(r[i], exprs, env) || KeyTrue(r[j], exprs, env);
    }
    if ChunkTrue(r, exprs, env) {
      var t :| 0 <= t < |r| && KeyTrue(r[t], exprs, env);
      assert KeyTrue(chunk[t], exprs, env) || KeyTrue(chunk[i], exprs, env) || KeyTrue(chunk[j], exprs, env);
    }
  }

  lemma {:induction false} ReplaceChunk(chunks: seq<seq<Key>>, i: nat, c: seq<Key>, exprs: seq<Cond>, env: Env)
    requires i < |chunks| && (ChunkTrue(c, exprs, env) <==> ChunkTrue(chunks[i], exprs, env))
    ensures Truth(chunks[i := c], exprs, env) <==> Truth(chunks, exprs, env)
  {
    var r := chunks[i := c];
    if Truth(r, exprs, env) {
      forall t | 0 <= t < |chunks| ensures ChunkTrue(chunks[t], exprs, env) { assert ChunkTrue(r[t], exprs, env); }
    }
  }

  /** Replacing two chunks by two with the same conjunction changes nothing. */
  lemma {:induction false} ReplaceChunks(
    chunks: seq<seq<Key>>, i: nat, ci: seq<Key>, j: nat, cj: seq<Key>, exprs: seq<Cond>, env: Env)
    requires i < |chunks| && j < |chunks| && i != j
    requires ChunkTrue(ci, exprs, env) && ChunkTrue(cj, exprs, env) <==>
      ChunkTrue(chunks[i], exprs, env) && ChunkTrue(chunks[j], exprs, env)
    ensures Truth(chunks[i := ci][j := cj], exprs, env) <==> Truth(chunks, exprs, env)
  {
    var r := chunks[i := ci][j := cj];
    if Truth(r, exprs, env) {
      assert ChunkTrue(r[i], exprs, env) && ChunkTrue(r[j], exprs, env);
      forall t | 0 <= t < |chunks| ensures ChunkTrue(chunks[t], exprs, env) { assert ChunkTrue(r[t], exprs, env); }
    }
    if Truth(chunks, exprs, env) {
      assert ChunkTrue(chunks[i], exprs, env) && ChunkTrue(chunks[j], exprs, env);
    }
  }

  // ----- chunks that differ in one key -----

  /** All keys of i but the one at p also occur in j. */
  predicate OthersIn(i: seq<Key>, p: nat, j: seq<Key>) {
    forall t :: 0 <= t < |i| && t != p ==> i[t] in j
  }

  /** Some key of the chunk other than the one at p is true. */
  predicate OthersTrue(chunk: seq<Key>, p: nat, exprs: seq<Cond>, env: Env) {
    exists t :: 0 <= t < |chunk| && t != p && KeyTrue(chunk[t], exprs, env)
  }

  lemma {:induction false} ChunkSplit(chunk: seq<Key>, p: nat, k: Key, exprs: seq<Cond>, env: Env)
    requires p < |chunk|
    ensures ChunkTrue(chunk[p := k], exprs, env) <==> KeyTrue(k, exprs, env) || OthersTrue(chunk, p, exprs, env)
  {
    var r := chunk[p := k];
    if ChunkTrue(r, exprs, env) {
      var t :| 0 <= t < |r| && KeyTrue(r[t], exprs, env);
      if t != p { assert KeyTrue(chunk[t], exprs, env); }
    }
    if KeyTrue(k, exprs, env) { assert KeyTrue(r[p], exprs, env); }
    if OthersTrue(chunk, p, exprs, env) {
      var t :| 0 <= t < |chunk| && t != p && KeyTrue(chunk[t], exprs, env);
      assert KeyTrue(r[t], exprs, env);
    }
  }

  /** Some key of the chunk other than the one at q is the one of true. */
  predicate OthersHoldTrue(chunk: seq<Key>, q: nat) {
    exists u :: 0 <= u < |chunk| && u != q && chunk[u] == TRUE
  }

  /** Every other key of i is false itself or one of j, or another key of j is true itself. */
  predicate Mergeable(i: seq<Key>, p: nat, j: seq<Key>, q: nat) {
    OthersHoldTrue(j, q) || forall t :: 0 <= t < |i| && t != p ==> i[t] == FALSE || i[t] in j
  }

  lemma {:induction false} OthersCarry(i: seq<Key>, p: nat, j: seq<Key>, q: nat, exprs: seq<Cond>, env: Env)
    requires p < |i| && q < |j| && TableOk(exprs) && Mergeable(i, p, j, q) && j[q] !in i && OthersTrue(i, p, exprs, env)
    ensures OthersTrue(j, q, exprs, env)
  {
    if OthersHoldTrue(j, q) {
      var u :| 0 <= u < |j| && u != q && j[u] == TRUE;
      assert KeyTrue(j[u], exprs, env);
    } else {
      var t :| 0 <= t < |i| && t != p && KeyTrue(i[t], exprs, env);
      assert i[t] in j;
      var u :| 0 <= u < |j| && j[u] == i[t];
      assert u != q;
    }
  }

  lemma {:induction false} OthersBack(i: seq<Key>, p: nat, j: seq<Key>, q: nat, exprs: seq<Cond>, env: Env)
    requires p < |i| && q < |j| && OthersIn(j, q, i) && i[p] !in j && OthersTrue(j, q, exprs, env)
    ensures OthersTrue(i, p, exprs, env)
  {
    var t :| 0 <= t < |j| && t != q && KeyTrue(j[t], exprs, env);
    assert j[t] in i;
    var u :| 0 <= u < |i| && i[u] == j[t];
    assert u != p;
  }

  /**
   * (A or B) and (A or C), with B and C simplified while A is false: the conjunction is kept when the
   * shared keys are all of the others that matter in both chunks.
   */
  lemma {:induction false} MergeDistinct(
    i: seq<Key>, p: nat, a: Key, j: seq<Key>, q: nat, b: Key, exprs: seq<Cond>, env: Env)
    requires p < |i| && q < |j| && TableOk(exprs) && Mergeable(i, p, j, q)
    requires OthersIn(j, q, i) && i[p] !in j && j[q] !in i && PairRight(i, p, a, j, q, b, exprs, env)
    ensures PairKept(i, p, a, j, q, b, exprs, env)
  {
    ChunkSplit(i, p, a, exprs, env);
    ChunkSplit(j, q, b, exprs, env);
    ChunkSplit(i, p, i[p], exprs, env);
    ChunkSplit(j, q, j[q], exprs, env);
    assert i[p := i[p]] == i && j[q := j[q]] == j;
    if OthersTrue(i, p, exprs, env) { OthersCarry(i, p, j, q, exprs, env); }
    if OthersTrue(j, q, exprs, env) { OthersBack(i, p, j, q, exprs, env); }
  }

  /** The simplified pair is right while no other key of i is true. */
  predicate PairRight(i: seq<Key>, p: nat, a: Key, j: seq<Key>, q: nat, b: Key, exprs: seq<Cond>, env: Env)
    requires p < |i| && q < |j|
  {
    !OthersTrue(i, p, exprs, env) ==>
      (KeyTrue(a, exprs, env) && KeyTrue(b, exprs, env) <==> KeyTrue(i[p], exprs, env) && KeyTrue(j[q], exprs, env))
  }

  predicate PairKept(i: seq<Key>, p: nat, a: Key, j: seq<Key>, q: nat, b: Key, exprs: seq<Cond>, env: Env)
    requires p < |i| && q < |j|
  {
    ChunkTrue(i[p := a], exprs, env) && ChunkTrue(j[q := b], exprs, env) <==>
    ChunkTrue(i, exprs, env) && ChunkTrue(j, exprs, env)
  }

  /** A key table as one is built: true and false first, every entry once, with entries for the keys in use. */
  predicate TableFor(exprs: seq<Cond>, i: seq<Key>, j: seq<Key>, a: Key, b: Key) {
    TableOk(exprs) && Distinct(exprs) && KeysOk(i, exprs) && KeysOk(j, exprs) && a < |exprs| && b < |exprs|
  }

  /** Merging is right over every table and valuation. */
  ghost predicate AlwaysKept(i: seq<Key>, p: nat, j: seq<Key>, q: nat)
    requires p < |i| && q < |j|
  {
    forall a, b, exprs, env :: TableFor(exprs, i, j, a, b) && PairRight(i, p, a, j, q, b, exprs, env) ==>
      PairKept(i, p, a, j, q, b, exprs, env)
  }

  /** n entries, true where the variable x is the key, but for true and false themselves. */
  function Telling(n: nat): (exprs: seq<Cond>)
    ensures |exprs| == n + 2
  {
    seq(n + 2, k => if k == TRUE then Bool(true) else if k == FALSE then Bool(false) else EQ(Var("x"), Const(k)))
  }

  lemma {:induction false} TellingTrue(n: nat, k: Key, x: nat)
    requires k < n + 2
    ensures KeyTrue(k, Telling(n), map["x" := x]) <==> k == TRUE || (k == x && k != FALSE)
  {
    var env: Env := map["x" := x];
    assert Lookup(env, "x") == x;
    assert Eval(Var("x"), env) == x && Eval(Const(k), env) == k;
  }

  function Highest(c: seq<Key>): (n: nat)
    ensures forall t :: 0 <= t < |c| ==> c[t] < n
  {
    if c == [] then 0 else
      var n := Highest(c[1..]);
      assert forall t :: 0 < t < |c| ==> c[t] == c[1..][t - 1];
      if c[0] < n then n else c[0] + 1
  }

  /**
   * Of two chunks, the second with all its other keys false: a merge that turns its distinct key loses or gains the
   * truth.
   */
  lemma {:induction false} MergeLoses(i: seq<Key>, p: nat, j: seq<Key>, q: nat, t: nat)
    requires p < |i| && q < |j| && i[p] !in j && j[q] !in i
    requires !OthersHoldTrue(j, q) && t < |i| && t != p && i[t] != FALSE && i[t] !in j
    ensures !AlwaysKept(i, p, j, q)
  {
    var n := Highest(i) + Highest(j);
    var exprs, env: Env := Telling(n), map["x" := i[t]];
    forall k | 0 <= k < n + 2 ensures KeyTrue(k, exprs, env) <==> k == TRUE || (k == i[t] && k != FALSE) {
      TellingTrue(n, k, i[t]);
    }
    forall u | 0 <= u < |j| && u != q ensures !KeyTrue(j[u], exprs, env) { assert j[u] in j; }
    var b := if j[q] == TRUE then FALSE else TRUE;
    assert KeyTrue(b, exprs, env) != KeyTrue(j[q], exprs, env);
    assert KeyTrue(i[t], exprs, env) && OthersTrue(i, p, exprs, env);
    ChunkSplit(i, p, b, exprs, env);
    ChunkSplit(j, q, b, exprs, env);
    ChunkSplit(i, p, i[p], exprs, env);
    ChunkSplit(j, q, j[q], exprs, env);
    assert i[p := i[p]] == i && j[q := j[q]] == j;
    assert TableFor(exprs, i, j, b, b) && PairRight(i, p, b, j, q, b, exprs, env);
    assert !PairKept(i, p, b, j, q, b, exprs, env);
  }

  /** Merging is right, whatever the keys stand for, exactly when the chunks are mergeable. */
  lemma {:induction false} MergeExactIff(i: seq<Key>, p: nat, j: seq<Key>, q: nat)
    requires p < |i| && q < |j| && OthersIn(j, q, i) && i[p] !in j && j[q] !in i
    ensures AlwaysKept(i, p, j, q) <==> Mergeable(i, p, j, q)
  {
    if Mergeable(i, p, j, q) {
      forall a, b, exprs, env | TableFor(exprs, i, j, a, b) && PairRight(i, p, a, j, q, b, exprs, env)
        ensures PairKept(i, p, a, j, q, b, exprs, env)
      {
        MergeDistinct(i, p, a, j, q, b, exprs, env);
      }
    } else {
      var t :| 0 <= t < |i| && t != p && i[t] != FALSE && i[t] !in j;
      MergeLoses(i, p, j, q, t);
    }
  }

  predicate NoRepeat(c: seq<Key>) {
    forall x, y :: 0 <= x < y < |c| ==> c[x] != c[y]
  }

  function KeySet(c: seq<Key>): set<Key> { set k | k in c }

  lemma {:induction false} KeySetSize(c: seq<Key>)
    ensures |KeySet(c)| <= |c| && (NoRepeat(c) ==> |KeySet(c)| == |c|)
  {
    if c != [] {
      var n := |c| - 1;
      KeySetSize(c[..n]);
      assert c == c[..n] + [c[n]];
      assert KeySet(c) == KeySet(c[..n]) + {c[n]};
    }
  }

  /** Chunks of one length without repeated keys that share all but one key pass the condition. */
  lemma {:induction false} NoRepeatSuffices(i: seq<Key>, p: nat, j: seq<Key>, q: nat)
    requires p < |i| && q < |j| && |i| == |j| && OthersIn(j, q, i) && i[p] !in j && j[q] !in i && NoRepeat(j)
    ensures Mergeable(i, p, j, q)
  {
    KeySetSize(i);
    KeySetSize(j);
    var si, sj := KeySet(i) - {i[p]}, KeySet(j) - {j[q]};
    assert i[p] in KeySet(i) && j[q] in KeySet(j);
    forall k | k in sj ensures k in si {
      var t :| 0 <= t < |j| && j[t] == k;
      assert t != q;
    }
    SubsetSmaller(sj, si);
    assert |sj| == |KeySet(j)| - 1 && |si| == |KeySet(i)| - 1;
    SubsetEqual(sj, si);
    assert |KeySet(i)| == |i|;
    forall t | 0 <= t < |i| && t != p ensures i[t] in j {
      if i[t] == i[p] {
        RepeatShrinks(i, t, p);
      } else {
        assert i[t] in KeySet(i);
        assert i[t] in sj;
      }
    }
  }

  lemma {:induction false} SubsetEqual(a: set<Key>, b: set<Key>)
    requires a <= b && |b| <= |a|
    ensures a == b
  {
    if a != b {
      var x :| x in b && x !in a;
      SubsetSmaller(a, b - {x});
    }
  }

  lemma {:induction false} SubsetSmaller(a: set<Key>, b: set<Key>)
    requires a <= b
    ensures |a| <= |b|
  {
    if a != {} {
      var x :| x in a;
      SubsetSmaller(a - {x}, b - {x});
    }
  }

  lemma {:induction false} RepeatShrinks(c: seq<Key>, t: nat, p: nat)
    requires t < |c| && p < |c| && t != p && c[t] == c[p]
    ensures |KeySet(c)| < |c|
  {
    var w := c[..t] + c[t + 1..];
    forall k | k in c ensures k in w {
      var x :| 0 <= x < |c| && c[x] == k;
      var y := if x == t then p else x;
      assert w[if y < t then y else y - 1] == k;
    }
    assert KeySet(c) == KeySet(w);
    KeySetSize(w);
  }
}
