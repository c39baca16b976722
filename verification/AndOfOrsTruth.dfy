// What the simplifier keeps: the truth of the form, stage by stage.
module AndOfOrsTruth {
  import opened Expr
  import opened ConjunctiveNormalForm
  import opened AndOfOrsRun

  ghost predicate Sound(rewrite: Rewrite, ctx: iset<Env>) {
    forall known, c, env :: env in ctx && Holds(known, env) ==> (Holds(rewrite(known, c), env) <==> Holds(c, env))
  }

  /** The keys of the parts, in order, without repetition. */
  ghost predicate Collected(parts: seq<Cond>, keys: seq<Key>, exprs: seq<Cond>) {
    && KeysOk(keys, exprs)
    && (forall k :: k in keys ==> exprs[k] in parts)
    && (forall c :: c in parts ==> exists k :: k in keys && exprs[k] == c)
  }

  lemma {:induction false} CollectedTruth(parts: seq<Cond>, keys: seq<Key>, exprs: seq<Cond>, env: Env)
    requires Collected(parts, keys, exprs)
    ensures ChunkTrue(keys, exprs, env) <==> Any(parts, env)
  {
    if ChunkTrue(keys, exprs, env) {
      var i :| 0 <= i < |keys| && KeyTrue(keys[i], exprs, env);
      assert keys[i] in keys;
      AnyOf(parts, exprs[keys[i]], env);
    }
    if Any(parts, env) {
      var c := SomeOf(parts, env);
      var k :| k in keys && exprs[k] == c;
      var i :| 0 <= i < |keys| && keys[i] == k;
      assert KeyTrue(keys[i], exprs, env);
    }
  }

  lemma {:induction false} AnyOf(parts: seq<Cond>, c: Cond, env: Env)
    requires c in parts && Holds(c, env)
    ensures Any(parts, env)
  {
    if parts[0] != c { AnyOf(parts[1..], c, env); }
  }

  lemma {:induction false} SomeOf(parts: seq<Cond>, env: Env) returns (c: Cond)
    requires Any(parts, env)
    ensures c in parts && Holds(c, env)
  {
    if Holds(parts[0], env) { c := parts[0]; } else { c := SomeOf(parts[1..], env); }
  }

  lemma {:induction false} AppendTruth(chunks: seq<seq<Key>>, c: seq<Key>, exprs: seq<Cond>, env: Env)
    ensures Truth(chunks + [c], exprs, env) <==> Truth(chunks, exprs, env) && ChunkTrue(c, exprs, env)
  {
    var r := chunks + [c];
    if Truth(r, exprs, env) {
      assert ChunkTrue(r[|chunks|], exprs, env);
      forall i | 0 <= i < |chunks| ensures ChunkTrue(chunks[i], exprs, env) { assert ChunkTrue(r[i], exprs, env); }
    }
  }

  /** No chunk has more than two keys. */
  ghost predicate Short(chunks: seq<seq<Key>>) {
    forall i :: 0 <= i < |chunks| ==> |chunks[i]| <= 2
  }

  /** No conjunct of the expression has more than two disjuncts. */
  ghost predicate ShortParts(parts: seq<Cond>) {
    forall i :: 0 <= i < |parts| ==> |VisitOr(parts[i])| <= 2
  }

  lemma {:induction false} PermutedKeys(a: seq<Key>, b: seq<Key>)
    requires multiset(a) == multiset(b)
    ensures forall k :: k in a ==> k in b
  {
    forall k | k in a ensures k in b { assert k in multiset(a); }
  }

  lemma {:induction false} CollectOne(
    ors: seq<Cond>, n: nat, keys0: seq<Key>, key: Key, keys: seq<Key>, before: seq<Cond>, exprs: seq<Cond>)
    requires n < |ors| && Collected(ors[..n], keys0, before) && before <= exprs && key < |exprs| && exprs[key] == ors[n]
    requires keys == if key in keys0 then keys0 else keys0 + [key]
    ensures Collected(ors[..n + 1], keys, exprs)
  {
    var parts := ors[..n + 1];
    assert parts == ors[..n] + [ors[n]];
    assert forall k :: 0 <= k < |before| ==> exprs[k] == before[k];
    forall k | k in keys ensures k < |exprs| && exprs[k] in parts {
      if k in keys0 {
        var i :| 0 <= i < |keys0| && keys0[i] == k;
        assert before[k] in ors[..n];
      }
    }
    forall i | 0 <= i < |keys| ensures keys[i] < |exprs| { assert keys[i] in keys; }
    forall c | c in parts ensures exists k :: k in keys && exprs[k] == c {
      if c == ors[n] {
        assert key in keys;
      } else {
        assert c in ors[..n];
        var k :| k in keys0 && before[k] == c;
        var i :| 0 <= i < |keys0| && keys0[i] == k;
        assert k in keys && exprs[k] == c;
      }
    }
  }

  // ----- the steps across chunks -----

  lemma {:induction false} AllShared(a: seq<Key>, b: seq<Key>)
    requires Shared(a, b) == |a|
    ensures forall t :: 0 <= t < |a| ==> a[t] in b
  {
    if a != [] { AllShared(a[..|a| - 1], b); }
  }

  lemma {:induction false} NotAllShared(a: seq<Key>, b: seq<Key>, q: nat)
    requires q < |a| && a[q] !in b
    ensures Shared(a, b) < |a|
  {
    if Shared(a, b) == |a| { AllShared(a, b); }
  }

  /** All but one shared, and q is the one. */
  lemma {:induction false} SharedAllBut(a: seq<Key>, b: seq<Key>, q: nat)
    requires q < |a| && a[q] !in b && Shared(a, b) + 1 == |a|
    ensures OthersIn(a, q, b)
  {
    var n := |a| - 1;
    if q == n {
      AllShared(a[..n], b);
    } else {
      NotAllShared(a[..n], b, q);
      SharedAllBut(a[..n], b, q);
      assert forall t :: 0 <= t < n ==> a[..n][t] == a[t];
    }
  }

  /** With two keys in each chunk, one shared, the condition holds, repeated keys or not. */
  lemma {:induction false} PairSuffices(i: seq<Key>, p: nat, j: seq<Key>, q: nat)
    requires p < |i| && q < |j| && |i| == |j| <= 2 && OthersIn(j, q, i) && i[p] !in j && j[q] !in i
    ensures Mergeable(i, p, j, q)
  {
    forall t | 0 <= t < |i| && t != p ensures i[t] in j {
      assert i[t] == j[1 - q] by { assert j[1 - q] in i && j[1 - q] != i[p]; }
    }
  }

  lemma {:induction false} OthersStep(chunk: seq<Key>, n: nat, p: nat, exprs: seq<Cond>, env: Env)
    requires n < |chunk|
    ensures OthersTrue(chunk[..n + 1], p, exprs, env) <==>
      OthersTrue(chunk[..n], p, exprs, env) || (n != p && KeyTrue(chunk[n], exprs, env))
  {
    var c, d := chunk[..n + 1], chunk[..n];
    assert forall t :: 0 <= t < n ==> c[t] == d[t];
    if OthersTrue(c, p, exprs, env) {
      var t :| 0 <= t < |c| && t != p && KeyTrue(c[t], exprs, env);
      if t < n { assert KeyTrue(d[t], exprs, env); }
    }
    if OthersTrue(d, p, exprs, env) {
      var t :| 0 <= t < |d| && t != p && KeyTrue(d[t], exprs, env);
      assert KeyTrue(c[t], exprs, env);
    }
    if n != p && KeyTrue(chunk[n], exprs, env) { assert KeyTrue(c[n], exprs, env); }
  }

  lemma {:induction false} OthersLater(chunk: seq<Key>, p: nat, exprs: seq<Cond>, exprs': seq<Cond>, env: Env)
    requires KeysOk(chunk, exprs) && exprs <= exprs'
    ensures OthersTrue(chunk, p, exprs, env) <==> OthersTrue(chunk, p, exprs', env)
  {
    assert forall k :: 0 <= k < |exprs| ==> exprs'[k] == exprs[k];
    if OthersTrue(chunk, p, exprs, env) {
      var t :| 0 <= t < |chunk| && t != p && KeyTrue(chunk[t], exprs, env);
      assert KeyTrue(chunk[t], exprs', env);
    }
    if OthersTrue(chunk, p, exprs', env) {
      var t :| 0 <= t < |chunk| && t != p && KeyTrue(chunk[t], exprs', env);
      assert KeyTrue(chunk[t], exprs, env);
    }
  }

  lemma {:induction false} MergeRight(
    i: seq<Key>, p: nat, a: Key, j: seq<Key>, q: nat, b: Key, exprs: seq<Cond>, env: Env)
    requires p < |i| && q < |j| && TableOk(exprs) && Mergeable(i, p, j, q)
    requires (|i| == 1 && |j| == 1) || (OthersIn(j, q, i) && i[p] !in j && j[q] !in i)
    requires PairRight(i, p, a, j, q, b, exprs, env)
    ensures PairKept(i, p, a, j, q, b, exprs, env)
  {
    if |i| == 1 && |j| == 1 {
      LoneChunk(i[0], exprs, env);
      LoneChunk(j[0], exprs, env);
      LoneChunk(a, exprs, env);
      LoneChunk(b, exprs, env);
      assert i == [i[0]] && j == [j[0]] && i[p := a] == [a] && j[q := b] == [b];
    } else {
      MergeDistinct(i, p, a, j, q, b, exprs, env);
    }
  }

  lemma {:induction false} LoneChunk(k: Key, exprs: seq<Cond>, env: Env)
    ensures ChunkTrue([k], exprs, env) <==> KeyTrue(k, exprs, env)
  {
    if KeyTrue(k, exprs, env) { assert KeyTrue([k][0], exprs, env); }
  }

  /** A chunk whose keys hold another's is implied by it. */
  lemma {:induction false} Absorbed(chunks: seq<seq<Key>>, x: nat, y: nat, exprs: seq<Cond>, env: Env)
    requires x < |chunks| && y < |chunks| && x != y && TableOk(exprs) && forall t :: 0 <= t < |chunks[x]| ==>
      chunks[x][t] in chunks[y]
    ensures Truth(chunks[y := [TRUE]], exprs, env) <==> Truth(chunks, exprs, env)
  {
    SameKeys(chunks[x], chunks[y], exprs, env);
    LoneChunk(TRUE, exprs, env);
    ReplaceChunks(chunks, x, chunks[x], y, [TRUE], exprs, env);
    assert chunks[x := chunks[x]] == chunks;
  }

  // ----- true and false -----

  lemma {:induction false} Trimmed(c: seq<Key>, exprs: seq<Cond>, env: Env)
    requires TableOk(exprs)
    ensures ChunkTrue(TrimmedChunk(c), exprs, env) <==> ChunkTrue(c, exprs, env)
  {
    if TRUE in c {
      LoneChunk(TRUE, exprs, env);
      SameKeys([TRUE], c, exprs, env);
    } else {
      SameKeys(Without(c, FALSE), c, exprs, env);
      if ChunkTrue(c, exprs, env) {
        var t :| 0 <= t < |c| && KeyTrue(c[t], exprs, env);
        LoneChunk(c[t], exprs, env);
        assert c[t] in Without(c, FALSE);
        SameKeys([c[t]], Without(c, FALSE), exprs, env);
      }
    }
  }

  lemma {:induction false} TrimmedOk(c: seq<Key>, exprs: seq<Cond>)
    requires TableOk(exprs) && KeysOk(c, exprs)
    ensures KeysOk(TrimmedChunk(c), exprs)
  {
    var r := Without(c, FALSE);
    forall i | 0 <= i < |r| ensures r[i] < |exprs| {
      assert r[i] in c;
    }
  }

  lemma {:induction false} WithoutTrueOk(chunks: seq<seq<Key>>, exprs: seq<Cond>)
    requires ChunksOk(chunks, exprs)
    ensures ChunksOk(WithoutTrue(chunks), exprs)
  {
    var r := WithoutTrue(chunks);
    forall i | 0 <= i < |r| ensures KeysOk(r[i], exprs) {
      assert r[i] in chunks;
    }
  }

  lemma {:induction false} WithoutTrueShort(chunks: seq<seq<Key>>)
    requires Short(chunks)
    ensures Short(WithoutTrue(chunks))
  {
    var r := WithoutTrue(chunks);
    forall i | 0 <= i < |r| ensures |r[i]| <= 2 {
      assert r[i] in chunks;
    }
  }

  lemma {:induction false} EmptyChunk(chunks: seq<seq<Key>>, exprs: seq<Cond>, env: Env)
    requires [] in chunks
    ensures !Truth(chunks, exprs, env) && !Truth([[]], exprs, env)
  {
    var n :| 0 <= n < |chunks| && chunks[n] == [];
    assert !ChunkTrue(chunks[n], exprs, env);
    assert !ChunkTrue([[]][0], exprs, env);
  }

  lemma {:induction false} TrueChunks(chunks: seq<seq<Key>>, exprs: seq<Cond>, env: Env)
    requires TableOk(exprs)
    ensures Truth(WithoutTrue(chunks), exprs, env) <==> Truth(chunks, exprs, env)
  {
    var r := WithoutTrue(chunks);
    LoneChunk(TRUE, exprs, env);
    if Truth(r, exprs, env) {
      forall n | 0 <= n < |chunks| ensures ChunkTrue(chunks[n], exprs, env) {
        if chunks[n] != [TRUE] {
          assert chunks[n] in r;
          var m :| 0 <= m < |r| && r[m] == chunks[n];
          assert ChunkTrue(r[m], exprs, env);
        }
      }
    }
    if Truth(chunks, exprs, env) {
      forall m | 0 <= m < |r| ensures ChunkTrue(r[m], exprs, env) {
        assert r[m] in chunks;
        var n :| 0 <= n < |chunks| && chunks[n] == r[m];
        assert ChunkTrue(chunks[n], exprs, env);
      }
    }
  }

  lemma {:induction false} ChunkStep(chunk: seq<Key>, k: nat, exprs: seq<Cond>, env: Env)
    requires k < |chunk|
    ensures ChunkTrue(chunk[..k + 1], exprs, env) <==>
      ChunkTrue(chunk[..k], exprs, env) || KeyTrue(chunk[k], exprs, env)
  {
    var c, d := chunk[..k + 1], chunk[..k];
    assert forall t :: 0 <= t < k ==> c[t] == d[t];
    if ChunkTrue(c, exprs, env) {
      var t :| 0 <= t < |c| && KeyTrue(c[t], exprs, env);
      if t < k { assert KeyTrue(d[t], exprs, env); }
    }
    if ChunkTrue(d, exprs, env) {
      var t :| 0 <= t < |d| && KeyTrue(d[t], exprs, env);
      assert KeyTrue(c[t], exprs, env);
    }
    if KeyTrue(chunk[k], exprs, env) { assert KeyTrue(c[k], exprs, env); }
  }

  // ----- the table and the forms -----

  predicate Ok(f: Form) {
    TableOk(f.exprs) && ChunksOk(f.chunks, f.exprs)
  }

  predicate IsTrue(f: Form, env: Env) {
    Truth(f.chunks, f.exprs, env)
  }

  lemma {:induction false} WithKeyOk(exprs: seq<Cond>, e: Cond)
    requires TableOk(exprs)
    ensures var exprs' := WithKey(exprs, e); var k := Find(exprs, e);
      TableOk(exprs') && exprs <= exprs' && k < |exprs'| && exprs'[k] == e
  {
  }

  /** An entry is added only where there is none. */
  lemma {:induction false} WithKeyDistinct(exprs: seq<Cond>, e: Cond)
    requires Distinct(exprs)
    ensures Distinct(WithKey(exprs, e))
  {
    FindAbsent(exprs, e);
  }

  lemma {:induction false} FindAbsent(exprs: seq<Cond>, e: Cond)
    ensures Find(exprs, e) == |exprs| ==> e !in exprs
  {
    if exprs != [] && exprs[0] != e { FindAbsent(exprs[1..], e); }
  }

  lemma {:induction false} TwoKeys(exprs: seq<Cond>, p: Cond, q: Cond, env: Env)
    requires TableOk(exprs)
    ensures var exprs1 := WithKey(exprs, p);
      var a, b, exprs2 := Find(exprs, p), Find(exprs1, q), WithKey(exprs1, q);
      (KeyTrue(a, exprs2, env) <==> Holds(p, env)) && (KeyTrue(b, exprs2, env) <==> Holds(q, env))
  {
    var exprs1 := WithKey(exprs, p);
    WithKeyOk(exprs, p);
    WithKeyOk(exprs1, q);
    assert WithKey(exprs1, q)[Find(exprs, p)] == exprs1[Find(exprs, p)];
  }

  // ----- construction -----

  lemma {:induction false} CollectTable(exprs: seq<Cond>, ors: seq<Cond>, keys: seq<Key>)
    requires TableOk(exprs)
    ensures var (keys', exprs') := Collect(exprs, ors, keys);
      TableOk(exprs') && exprs <= exprs' && |keys'| <= |keys| + |ors|
    decreases ors
  {
    if ors != [] {
      var k, exprs1 := Find(exprs, ors[0]), WithKey(exprs, ors[0]);
      WithKeyOk(exprs, ors[0]);
      CollectTable(exprs1, ors[1..], if k in keys then keys else keys + [k]);
    }
  }

  lemma {:induction false} CollectFrom(exprs: seq<Cond>, ors: seq<Cond>, n: nat, keys: seq<Key>)
    requires n <= |ors| && TableOk(exprs) && Collected(ors[..n], keys, exprs)
    ensures Collected(ors, Collect(exprs, ors[n..], keys).0, Collect(exprs, ors[n..], keys).1)
    decreases |ors| - n
  {
    if n == |ors| {
      assert ors[..n] == ors;
    } else {
      var rest := ors[n..];
      var k, exprs1 := Find(exprs, rest[0]), WithKey(exprs, rest[0]);
      var keys1 := if k in keys then keys else keys + [k];
      WithKeyOk(exprs, rest[0]);
      CollectOne(ors, n, keys, k, keys1, exprs, exprs1);
      CollectFrom(exprs1, ors, n + 1, keys1);
      CollectUnfold(exprs, rest, keys);
      assert rest[1..] == ors[n + 1..];
    }
  }

  lemma {:induction false} CollectUnfold(exprs: seq<Cond>, ors: seq<Cond>, keys: seq<Key>)
    requires ors != []
    ensures var k := Find(exprs, ors[0]);
      Collect(exprs, ors, keys) == Collect(WithKey(exprs, ors[0]), ors[1..], if k in keys then keys else keys + [k])
  {
  }

  lemma {:induction false} CollectRight(exprs: seq<Cond>, ors: seq<Cond>)
    requires TableOk(exprs)
    ensures Collected(ors, Collect(exprs, ors, []).0, Collect(exprs, ors, []).1)
  {
    CollectFrom(exprs, ors, 0, []);
    assert ors[0..] == ors;
  }

  lemma {:induction false} WithPartOk(f: Form, part: Cond)
    requires Ok(f)
    ensures var g := WithPart(f, part); Ok(g) && g.fair == f.fair
    ensures Short(f.chunks) && |VisitOr(part)| <= 2 ==> Short(WithPart(f, part).chunks)
  {
    CollectTable(f.exprs, VisitOr(part), []);
    CollectRight(f.exprs, VisitOr(part));
    var (keys, exprs) := Collect(f.exprs, VisitOr(part), []);
    TruthLater(f.chunks, f.exprs, exprs, map[]);
  }

  lemma {:induction false} WithPartTruth(f: Form, part: Cond, env: Env)
    requires Ok(f)
    ensures IsTrue(WithPart(f, part), env) <==> IsTrue(f, env) && Holds(part, env)
  {
    var ors := VisitOr(part);
    CollectTable(f.exprs, ors, []);
    CollectRight(f.exprs, ors);
    var (keys, exprs) := Collect(f.exprs, ors, []);
    CollectedTruth(ors, keys, exprs, env);
    VisitTruth(part, env);
    TruthLater(f.chunks, f.exprs, exprs, env);
    if HasPermutation(f.chunks, keys) {
      var n :| 0 <= n < |f.chunks| && multiset(f.chunks[n]) == multiset(keys);
      PermutedKeys(f.chunks[n], keys);
      SameKeys(f.chunks[n], keys, exprs, env);
    } else {
      AppendTruth(f.chunks, keys, exprs, env);
    }
  }

  lemma {:induction false} PartsUnfold(f: Form, parts: seq<Cond>)
    requires parts != []
    ensures WithParts(f, parts) == WithParts(WithPart(f, parts[0]), parts[1..])
  {
  }

  lemma {:induction false} WithPartsRight(f: Form, parts: seq<Cond>, env: Env)
    requires Ok(f)
    ensures var g := WithParts(f, parts);
      Ok(g) && g.fair == f.fair && (IsTrue(g, env) <==> IsTrue(f, env) && All(parts, env))
    ensures Short(f.chunks) && ShortParts(parts) ==> Short(WithParts(f, parts).chunks)
    decreases parts
  {
    if parts != [] {
      WithPartOk(f, parts[0]);
      WithPartTruth(f, parts[0], env);
      WithPartsRight(WithPart(f, parts[0]), parts[1..], env);
    }
  }

  /** The form built for e is as true as e. */
  lemma {:induction false} FormRight(e: Cond, env: Env)
    ensures var f := WithParts(START, VisitAnd(e)); Ok(f) && f.fair && (IsTrue(f, env) <==> Holds(e, env))
    ensures ShortParts(VisitAnd(e)) ==> Short(WithParts(START, VisitAnd(e)).chunks)
  {
    WithPartsRight(START, VisitAnd(e), env);
    VisitTruth(e, env);
  }

  // ----- within chunks -----

  lemma {:induction false} OrKeysOk(rewrite: Rewrite, exprs: seq<Cond>, a: Key, b: Key)
    requires TableOk(exprs) && a < |exprs| && b < |exprs|
    ensures var (a', b', exprs') := OrKeys(rewrite, exprs, a, b);
      TableOk(exprs') && exprs <= exprs' && a' < |exprs'| && b' < |exprs'|
  {
    var s := rewrite(Bool(true), Or(exprs[a], exprs[b]));
    if s.Or? {
      WithKeyOk(exprs, s.p);
      WithKeyOk(WithKey(exprs, s.p), s.q);
    } else {
      WithKeyOk(exprs, s);
    }
  }

  lemma {:induction false} OrKeysTruth(rewrite: Rewrite, ctx: iset<Env>, exprs: seq<Cond>, a: Key, b: Key, env: Env)
    requires TableOk(exprs) && a < |exprs| && b < |exprs| && Sound(rewrite, ctx) && env in ctx
    ensures var (a', b', exprs') := OrKeys(rewrite, exprs, a, b);
      KeyTrue(a', exprs', env) || KeyTrue(b', exprs', env) <==> KeyTrue(a, exprs, env) || KeyTrue(b, exprs, env)
  {
    var joint := Or(exprs[a], exprs[b]);
    var s := rewrite(Bool(true), joint);
    assert Holds(Bool(true), env);
    assert Holds(s, env) <==> Holds(joint, env);
    if s.Or? {
      TwoKeys(exprs, s.p, s.q, env);
    } else {
      WithKeyOk(exprs, s);
    }
  }

  predicate PartOk(p: Part) {
    TableOk(p.exprs) && KeysOk(p.keys, p.exprs)
  }

  /** The table grows, the number of keys stays. */
  predicate Follows(p: Part, r: Part) {
    PartOk(r) && p.exprs <= r.exprs && |r.keys| == |p.keys|
  }

  lemma {:induction false} PairWithinOk(rewrite: Rewrite, p: Part, i: nat, j: nat)
    requires PartOk(p)
    ensures Follows(p, PairWithin(rewrite, p, i, j))
  {
    if i < |p.keys| && j < |p.keys| {
      OrKeysOk(rewrite, p.exprs, p.keys[i], p.keys[j]);
      ChunkLater(p.keys, p.exprs, PairWithin(rewrite, p, i, j).exprs, map[]);
    }
  }

  lemma {:induction false} PairWithinTruth(rewrite: Rewrite, ctx: iset<Env>, p: Part, i: nat, j: nat, env: Env)
    requires PartOk(p) && Sound(rewrite, ctx) && env in ctx && i != j
    ensures var r := PairWithin(rewrite, p, i, j); ChunkTrue(r.keys, r.exprs, env) <==> ChunkTrue(p.keys, p.exprs, env)
  {
    if i < |p.keys| && j < |p.keys| {
      var x, y := p.keys[i], p.keys[j];
      var (a, b, exprs) := OrKeys(rewrite, p.exprs, x, y);
      OrKeysOk(rewrite, p.exprs, x, y);
      OrKeysTruth(rewrite, ctx, p.exprs, x, y, env);
      ChunkLater(p.keys, p.exprs, exprs, env);
      assert KeyTrue(x, exprs, env) <==> KeyTrue(x, p.exprs, env);
      assert KeyTrue(y, exprs, env) <==> KeyTrue(y, p.exprs, env);
      ReplacePair(p.keys, i, j, a, b, exprs, env);
    }
  }

  lemma {:induction false} RowUnfold(rewrite: Rewrite, p: Part, i: nat, j: nat, n: nat)
    requires n > 0
    ensures Row(rewrite, p, i, j, n) == Row(rewrite, PairWithin(rewrite, p, i, j), i, j + 1, n - 1)
  {
  }

  lemma {:induction false} RowsUnfold(rewrite: Rewrite, p: Part, i: nat, n: nat)
    requires n > 0
    ensures Rows(rewrite, p, i, n) == Rows(rewrite, Row(rewrite, p, i, i + 1, n - 1), i + 1, n - 1)
  {
  }

  lemma {:induction false} WithinUnfold(rewrite: Rewrite, f: Form, c: nat, n: nat)
    requires n > 0
    ensures Within(rewrite, f, c, n) == Within(rewrite, ChunkWithin(rewrite, f, c), c + 1, n - 1)
  {
  }

  lemma {:induction false} FollowsOn(p: Part, q: Part, r: Part)
    requires Follows(p, q) && Follows(q, r)
    ensures Follows(p, r)
  {
  }

  lemma {:induction false} RowOk(rewrite: Rewrite, p: Part, i: nat, j: nat, n: nat)
    requires PartOk(p)
    ensures Follows(p, Row(rewrite, p, i, j, n))
    decreases n
  {
    if n > 0 {
      var q := PairWithin(rewrite, p, i, j);
      PairWithinOk(rewrite, p, i, j);
      RowOk(rewrite, q, i, j + 1, n - 1);
      FollowsOn(p, q, Row(rewrite, q, i, j + 1, n - 1));
    }
  }

  lemma {:induction false} RowTruth(rewrite: Rewrite, ctx: iset<Env>, p: Part, i: nat, j: nat, n: nat, env: Env)
    requires PartOk(p) && Sound(rewrite, ctx) && env in ctx && i < j
    ensures var r := Row(rewrite, p, i, j, n); ChunkTrue(r.keys, r.exprs, env) <==> ChunkTrue(p.keys, p.exprs, env)
    decreases n
  {
    if n > 0 {
      PairWithinOk(rewrite, p, i, j);
      PairWithinTruth(rewrite, ctx, p, i, j, env);
      RowTruth(rewrite, ctx, PairWithin(rewrite, p, i, j), i, j + 1, n - 1, env);
    }
  }

  lemma {:induction false} RowsOk(rewrite: Rewrite, p: Part, i: nat, n: nat)
    requires PartOk(p)
    ensures Follows(p, Rows(rewrite, p, i, n))
    decreases n
  {
    if n > 0 {
      var q := Row(rewrite, p, i, i + 1, n - 1);
      RowOk(rewrite, p, i, i + 1, n - 1);
      RowsOk(rewrite, q, i + 1, n - 1);
      FollowsOn(p, q, Rows(rewrite, q, i + 1, n - 1));
    }
  }

  lemma {:induction false} RowsTruth(rewrite: Rewrite, ctx: iset<Env>, p: Part, i: nat, n: nat, env: Env)
    requires PartOk(p) && Sound(rewrite, ctx) && env in ctx
    ensures var r := Rows(rewrite, p, i, n); ChunkTrue(r.keys, r.exprs, env) <==> ChunkTrue(p.keys, p.exprs, env)
    decreases n
  {
    if n > 0 {
      RowOk(rewrite, p, i, i + 1, n - 1);
      RowTruth(rewrite, ctx, p, i, i + 1, n - 1, env);
      RowsTruth(rewrite, ctx, Row(rewrite, p, i, i + 1, n - 1), i + 1, n - 1, env);
    }
  }

  predicate SameShape(f: Form, g: Form) {
    f.fair == g.fair && |f.chunks| == |g.chunks| && forall n :: 0 <= n < |f.chunks| ==> |f.chunks[n]| == |g.chunks[n]|
  }

  lemma {:induction false} ChunkWithinRight(rewrite: Rewrite, ctx: iset<Env>, f: Form, c: nat, env: Env)
    requires Ok(f) && Sound(rewrite, ctx) && env in ctx
    ensures var g := ChunkWithin(rewrite, f, c); Ok(g) && SameShape(f, g) && (IsTrue(g, env) <==> IsTrue(f, env))
  {
    if c < |f.chunks| {
      var p := Part(f.chunks[c], f.exprs);
      RowsOk(rewrite, p, 0, |p.keys|);
      RowsTruth(rewrite, ctx, p, 0, |p.keys|, env);
      var r := Rows(rewrite, p, 0, |p.keys|);
      TruthLater(f.chunks, f.exprs, r.exprs, env);
      ChunkLater(f.chunks[c], f.exprs, r.exprs, env);
      ReplaceChunk(f.chunks, c, r.keys, r.exprs, env);
    }
  }

  /** Rewriting within chunks keeps the truth. */
  lemma {:induction false} WithinRight(rewrite: Rewrite, ctx: iset<Env>, f: Form, c: nat, n: nat, env: Env)
    requires Ok(f) && Sound(rewrite, ctx) && env in ctx
    ensures var g := Within(rewrite, f, c, n); Ok(g) && SameShape(f, g) && (IsTrue(g, env) <==> IsTrue(f, env))
    decreases n
  {
    if n > 0 {
      ChunkWithinRight(rewrite, ctx, f, c, env);
      WithinRight(rewrite, ctx, ChunkWithin(rewrite, f, c), c + 1, n - 1, env);
    }
  }

  // ----- across chunks -----

  lemma {:induction false} AndKeysOk(rewrite: Rewrite, known: Cond, exprs: seq<Cond>, a: Key, b: Key)
    requires TableOk(exprs) && a < |exprs| && b < |exprs|
    ensures var (a', b', exprs') := AndKeys(rewrite, known, exprs, a, b);
      TableOk(exprs') && exprs <= exprs' && a' < |exprs'| && b' < |exprs'|
  {
    var s := rewrite(known, And(exprs[a], exprs[b]));
    if s.And? {
      WithKeyOk(exprs, s.p);
      WithKeyOk(WithKey(exprs, s.p), s.q);
    } else {
      WithKeyOk(exprs, s);
    }
  }

  lemma {:induction false} AndKeysTruth(
    rewrite: Rewrite, ctx: iset<Env>, known: Cond, exprs: seq<Cond>, a: Key, b: Key, env: Env)
    requires TableOk(exprs) && a < |exprs| && b < |exprs| && Sound(rewrite, ctx) && env in ctx && Holds(known, env)
    ensures var (a', b', exprs') := AndKeys(rewrite, known, exprs, a, b);
      KeyTrue(a', exprs', env) && KeyTrue(b', exprs', env) <==> KeyTrue(a, exprs, env) && KeyTrue(b, exprs, env)
  {
    var joint := And(exprs[a], exprs[b]);
    var s := rewrite(known, joint);
    assert Holds(s, env) <==> Holds(joint, env);
    if s.And? {
      TwoKeys(exprs, s.p, s.q, env);
    } else {
      WithKeyOk(exprs, s);
    }
  }

  /** What may be assumed holds exactly while the other keys are false. */
  lemma {:induction false} KnownRight(
    rewrite: Rewrite, ctx: iset<Env>, exprs: seq<Cond>, chunk: seq<Key>, p: nat, n: nat, known: Cond, env: Env)
    requires Sound(rewrite, ctx) && env in ctx && KeysOk(chunk, exprs) && n <= |chunk|
    requires Holds(known, env) <==> !OthersTrue(chunk[..n], p, exprs, env)
    ensures Holds(Known(rewrite, exprs, chunk, p, n, known), env) <==> !OthersTrue(chunk, p, exprs, env)
    decreases |chunk| - n
  {
    if n == |chunk| {
      assert chunk[..n] == chunk;
    } else {
      OthersStep(chunk, n, p, exprs, env);
      assert Holds(Bool(true), env);
      var not := Not(exprs[chunk[n]]);
      assert Holds(rewrite(Bool(true), not), env) <==> Holds(not, env);
      KnownRight(rewrite, ctx, exprs, chunk, p, n + 1, if n == p then known
        else And(known, rewrite(Bool(true), not)), env);
    }
  }

  lemma {:induction false} MergedOk(rewrite: Rewrite, f: Form, x: nat, p: nat, y: nat, q: nat, known: Cond)
    requires Ok(f) && x < |f.chunks| && y < |f.chunks| && p < |f.chunks[x]| && q < |f.chunks[y]|
    ensures var g := Merged(rewrite, f, x, p, y, q, known);
      Ok(g) && (g.fair <==> f.fair && Mergeable(f.chunks[x], p, f.chunks[y], q)) &&
        (Short(f.chunks) ==> Short(g.chunks))
  {
    var i, j := f.chunks[x], f.chunks[y];
    AndKeysOk(rewrite, known, f.exprs, i[p], j[q]);
    TruthLater(f.chunks, f.exprs, Merged(rewrite, f, x, p, y, q, known).exprs, map[]);
  }

  /** Two keys of two chunks simplified together: the truth is kept for mergeable chunks. */
  lemma {:induction false} MergedTruth(
    rewrite: Rewrite, ctx: iset<Env>, f: Form, x: nat, p: nat, y: nat, q: nat, known: Cond, env: Env)
    requires Ok(f) && x < y < |f.chunks| && p < |f.chunks[x]| && q < |f.chunks[y]|
    requires Sound(rewrite, ctx) && env in ctx && Mergeable(f.chunks[x], p, f.chunks[y], q)
    requires (|f.chunks[x]| == 1 && |f.chunks[y]| == 1) ||
      (OthersIn(f.chunks[y], q, f.chunks[x]) && f.chunks[x][p] !in f.chunks[y] && f.chunks[y][q] !in f.chunks[x])
    requires !OthersTrue(f.chunks[x], p, f.exprs, env) ==> Holds(known, env)
    ensures IsTrue(Merged(rewrite, f, x, p, y, q, known), env) <==> IsTrue(f, env)
  {
    var i, j := f.chunks[x], f.chunks[y];
    var (a, b, exprs) := AndKeys(rewrite, known, f.exprs, i[p], j[q]);
    AndKeysOk(rewrite, known, f.exprs, i[p], j[q]);
    if !OthersTrue(i, p, f.exprs, env) { AndKeysTruth(rewrite, ctx, known, f.exprs, i[p], j[q], env); }
    OthersLater(i, p, f.exprs, exprs, env);
    TruthLater(f.chunks, f.exprs, exprs, env);
    assert KeyTrue(i[p], exprs, env) <==> KeyTrue(i[p], f.exprs, env);
    assert KeyTrue(j[q], exprs, env) <==> KeyTrue(j[q], f.exprs, env);
    MergeRight(i, p, a, j, q, b, exprs, env);
    ReplaceChunks(f.chunks, x, i[p := a], y, j[q := b], exprs, env);
  }

  /** All but one key are shared: the pair of chunks to merge. */
  lemma {:induction false} MergePair(i: seq<Key>, j: seq<Key>)
    requires FirstApart(i, j) < |i| && FirstApart(j, i) < |j| && |i| == |j| == Shared(j, i) + 1
    ensures OthersIn(j, FirstApart(j, i), i)
    ensures NoRepeat(j) || |i| <= 2 ==> Mergeable(i, FirstApart(i, j), j, FirstApart(j, i))
  {
    var p, q := FirstApart(i, j), FirstApart(j, i);
    SharedAllBut(j, i, q);
    if NoRepeat(j) { NoRepeatSuffices(i, p, j, q); }
    if |i| <= 2 { PairSuffices(i, p, j, q); }
  }

  lemma {:induction false} PairAcrossOk(rewrite: Rewrite, f: Form, x: nat, y: nat)
    requires Ok(f) && x < y < |f.chunks|
    ensures var g := PairAcross(rewrite, f, x, y);
      Ok(g) && (g.fair ==> f.fair) && (NoRepeat(f.chunks[y]) ==> g.fair == f.fair) &&
      (Short(f.chunks) ==> Short(g.chunks) && g.fair == f.fair)
  {
    var i, j := f.chunks[x], f.chunks[y];
    if |i| == 1 && |j| == 1 {
      MergedOk(rewrite, f, x, 0, y, 0, Bool(true));
    } else if FirstApart(i, j) < |i| && FirstApart(j, i) < |j| && |i| == |j| == Shared(j, i) + 1 {
      MergePair(i, j);
      var p, q := FirstApart(i, j), FirstApart(j, i);
      MergedOk(rewrite, f, x, p, y, q, Known(rewrite, f.exprs, i, p, 0, Bool(true)));
    }
  }

  lemma {:induction false} PairAcrossTruth(rewrite: Rewrite, ctx: iset<Env>, f: Form, x: nat, y: nat, env: Env)
    requires Ok(f) && x < y < |f.chunks| && Sound(rewrite, ctx) && env in ctx && PairAcross(rewrite, f, x, y).fair
    ensures IsTrue(PairAcross(rewrite, f, x, y), env) <==> IsTrue(f, env)
  {
    var i, j := f.chunks[x], f.chunks[y];
    if |i| == 1 && |j| == 1 {
      MergedTruth(rewrite, ctx, f, x, 0, y, 0, Bool(true), env);
    } else if FirstApart(i, j) == |i| {
      Absorbed(f.chunks, x, y, f.exprs, env);
    } else if FirstApart(j, i) == |j| {
      Absorbed(f.chunks, y, x, f.exprs, env);
    } else if |i| == |j| == Shared(j, i) + 1 {
      MergePair(i, j);
      var p, q := FirstApart(i, j), FirstApart(j, i);
      assert !OthersTrue(i[..0], p, f.exprs, env);
      KnownRight(rewrite, ctx, f.exprs, i, p, 0, Bool(true), env);
      MergedTruth(rewrite, ctx, f, x, p, y, q, Known(rewrite, f.exprs, i, p, 0, Bool(true)), env);
    }
  }

  lemma {:induction false} AcrossRowRight(rewrite: Rewrite, ctx: iset<Env>, f: Form, x: nat, y: nat, env: Env)
    requires Ok(f) && x < y && Sound(rewrite, ctx) && env in ctx
    ensures var g := AcrossRow(rewrite, f, x, y);
      Ok(g) && (g.fair ==> f.fair && (IsTrue(g, env) <==> IsTrue(f, env))) &&
      (Short(f.chunks) ==> Short(g.chunks) && g.fair == f.fair)
    decreases |f.chunks| - y
  {
    if y < |f.chunks| {
      var g := PairAcross(rewrite, f, x, y);
      PairAcrossOk(rewrite, f, x, y);
      if g.fair { PairAcrossTruth(rewrite, ctx, f, x, y, env); }
      AcrossRowRight(rewrite, ctx, g, x, y + 1, env);
    }
  }

  /** Merging across chunks keeps the truth while all the chunks merged are mergeable, as short ones are. */
  lemma {:induction false} AcrossRight(rewrite: Rewrite, ctx: iset<Env>, f: Form, x: nat, env: Env)
    requires Ok(f) && Sound(rewrite, ctx) && env in ctx
    ensures var g := Across(rewrite, f, x);
      Ok(g) && (g.fair ==> f.fair && (IsTrue(g, env) <==> IsTrue(f, env))) && (Short(f.chunks) ==> g.fair == f.fair)
    decreases |f.chunks| - x
  {
    if x < |f.chunks| {
      AcrossRowRight(rewrite, ctx, f, x, x + 1, env);
      AcrossRight(rewrite, ctx, AcrossRow(rewrite, f, x, x + 1), x + 1, env);
    }
  }

  // ----- true and false -----

  lemma {:induction false} TrimmedChunksTruth(chunks: seq<seq<Key>>, exprs: seq<Cond>, env: Env)
    requires TableOk(exprs)
    ensures Truth(TrimmedChunks(chunks), exprs, env) <==> Truth(chunks, exprs, env)
  {
    var r := TrimmedChunks(chunks);
    forall n | 0 <= n < |chunks| ensures ChunkTrue(r[n], exprs, env) <==> ChunkTrue(chunks[n], exprs, env) {
      Trimmed(chunks[n], exprs, env);
    }
  }

  lemma {:induction false} CleanTruth(chunks: seq<seq<Key>>, exprs: seq<Cond>, env: Env)
    requires TableOk(exprs)
    ensures Truth(Cleaned(chunks), exprs, env) <==> Truth(chunks, exprs, env)
  {
    var r := TrimmedChunks(chunks);
    TrimmedChunksTruth(chunks, exprs, env);
    if [] in r { EmptyChunk(r, exprs, env); } else { TrueChunks(r, exprs, env); }
  }

  lemma {:induction false} TrimmedChunksOk(chunks: seq<seq<Key>>, exprs: seq<Cond>)
    requires TableOk(exprs) && ChunksOk(chunks, exprs)
    ensures ChunksOk(TrimmedChunks(chunks), exprs)
  {
    var r := TrimmedChunks(chunks);
    forall n | 0 <= n < |r| ensures KeysOk(r[n], exprs) { TrimmedOk(chunks[n], exprs); }
  }

  lemma {:induction false} CleanOk(chunks: seq<seq<Key>>, exprs: seq<Cond>)
    requires TableOk(exprs) && ChunksOk(chunks, exprs)
    ensures ChunksOk(Cleaned(chunks), exprs)
  {
    TrimmedChunksOk(chunks, exprs);
    if [] !in TrimmedChunks(chunks) { WithoutTrueOk(TrimmedChunks(chunks), exprs); }
  }

  lemma {:induction false} CleanShort(chunks: seq<seq<Key>>)
    requires Short(chunks)
    ensures Short(Cleaned(chunks))
  {
    var r := TrimmedChunks(chunks);
    assert Short(r) by {
      forall n | 0 <= n < |r| ensures |r[n]| <= 2 { assert r[n] == TrimmedChunk(chunks[n]); }
    }
    if [] !in r { WithoutTrueShort(r); }
  }

  lemma {:induction false} CleanedChunks(chunks: seq<seq<Key>>)
    ensures Cleaned(chunks) == [[]] || forall c :: c in Cleaned(chunks) ==> |c| > 0 && TRUE !in c && FALSE !in c
  {
    var r := TrimmedChunks(chunks);
    if [] !in r {
      forall c | c in WithoutTrue(r) ensures |c| > 0 && TRUE !in c && FALSE !in c {
        assert c in r && c != [TRUE];
        var n :| 0 <= n < |r| && r[n] == c;
        assert c == TrimmedChunk(chunks[n]);
      }
    }
  }

  /** Taking out true and false keeps the truth, and leaves neither. */
  lemma {:induction false} CleanRight(f: Form, env: Env)
    requires Ok(f)
    ensures var g := Clean(f); Ok(g) && (IsTrue(g, env) <==> IsTrue(f, env)) && (Short(f.chunks) ==> Short(g.chunks))
    ensures var g := Clean(f); g.chunks == [[]] || forall c :: c in g.chunks ==> |c| > 0 && TRUE !in c && FALSE !in c
  {
    CleanTruth(f.chunks, f.exprs, env);
    CleanOk(f.chunks, f.exprs);
    CleanedChunks(f.chunks);
    if Short(f.chunks) { CleanShort(f.chunks); }
  }

  // ----- the whole -----

  lemma {:induction false} OrUpTruth(exprs: seq<Cond>, chunk: seq<Key>, k: nat, e: Cond, env: Env)
    requires k <= |chunk| && KeysOk(chunk, exprs) && (Holds(e, env) <==> ChunkTrue(chunk[..k], exprs, env))
    ensures Holds(OrUp(exprs, chunk, k, e), env) <==> ChunkTrue(chunk, exprs, env)
    decreases |chunk| - k
  {
    if k == |chunk| {
      assert chunk[..k] == chunk;
    } else {
      ChunkStep(chunk, k, exprs, env);
      OrUpTruth(exprs, chunk, k + 1, Or(e, exprs[chunk[k]]), env);
    }
  }

  /** The expression made of a form is as true as the form. */
  lemma {:induction false} AndUpTruth(exprs: seq<Cond>, chunks: seq<seq<Key>>, c: nat, e: Cond, env: Env)
    requires c <= |chunks| && ChunksOk(chunks, exprs) && (Holds(e, env) <==> Truth(chunks[..c], exprs, env))
    ensures Holds(AndUp(exprs, chunks, c, e), env) <==> Truth(chunks, exprs, env)
    decreases |chunks| - c
  {
    if c == |chunks| {
      assert chunks[..c] == chunks;
    } else {
      var chunk := OrUp(exprs, chunks[c], 0, Bool(false));
      assert !ChunkTrue(chunks[c][..0], exprs, env);
      OrUpTruth(exprs, chunks[c], 0, Bool(false), env);
      AppendTruth(chunks[..c], chunks[c], exprs, env);
      assert chunks[..c + 1] == chunks[..c] + [chunks[c]];
      AndUpTruth(exprs, chunks, c + 1, And(e, chunk), env);
    }
  }

  lemma {:induction false} SimplifiedRight(rewrite: Rewrite, ctx: iset<Env>, f: Form, env: Env)
    requires Ok(f) && Sound(rewrite, ctx) && env in ctx
    ensures var g := Simplified(rewrite, f);
      Ok(g) && (g.fair ==> (IsTrue(g, env) <==> IsTrue(f, env))) && (Short(f.chunks) ==> g.fair == f.fair)
  {
    var f1 := Within(rewrite, f, 0, |f.chunks|);
    WithinRight(rewrite, ctx, f, 0, |f.chunks|, env);
    assert Short(f.chunks) ==> Short(f1.chunks);
    CleanRight(f1, env);
    AcrossRight(rewrite, ctx, Clean(f1), 0, env);
    CleanRight(Across(rewrite, Clean(f1), 0), env);
  }

  /** A run that merges mergeable chunks only returns an expression as true as the one given. */
  lemma {:induction false} ResultRight(rewrite: Rewrite, ctx: iset<Env>, e: Cond, env: Env)
    requires Sound(rewrite, ctx) && env in ctx
    ensures FairRun(rewrite, e) ==> (Holds(Result(rewrite, e), env) <==> Holds(e, env))
    ensures ShortParts(VisitAnd(rewrite(Bool(true), e))) ==> FairRun(rewrite, e)
  {
    var s := rewrite(Bool(true), e);
    assert Holds(Bool(true), env);
    assert Holds(s, env) <==> Holds(e, env);
    var f := WithParts(START, VisitAnd(s));
    FormRight(s, env);
    SimplifiedRight(rewrite, ctx, f, env);
    var g := Simplified(rewrite, f);
    assert Truth(g.chunks[..0], g.exprs, env);
    AndUpTruth(g.exprs, g.chunks, 0, Bool(true), env);
  }
}
