// The simplifier over chunks of keys: construction, rewriting within and across chunks, and
// conversion back.
module AndOfOrs {
  import opened Expr
  import opened ConjunctiveNormalForm
  import opened AndOfOrsRun
  import opened AndOfOrsTruth

  method FirstDistinct(a: seq<Key>, b: seq<Key>) returns (p: nat)
    ensures p == FirstApart(a, b)
  {
    p := 0;
    while p < |a| && a[p] in b
      invariant p <= |a| && forall t :: 0 <= t < p ==> a[t] in b
    {
      p := p + 1;
    }
  }

  method CountShared(a: seq<Key>, b: seq<Key>) returns (n: nat)
    ensures n == Shared(a, b)
  {
    n := 0;
    for t := 0 to |a|
      invariant n == Shared(a[..t], b)
    {
      assert a[..t + 1][..t] == a[..t];
      n := n + if a[t] in b then 1 else 0;
    }
    assert a[..|a|] == a;
  }

  method FindPermutation(chunks: seq<seq<Key>>, keys: seq<Key>) returns (found: bool)
    ensures found <==> HasPermutation(chunks, keys)
  {
    for n := 0 to |chunks|
      invariant forall m :: 0 <= m < n ==> multiset(chunks[m]) != multiset(keys)
    {
      if multiset(chunks[n]) == multiset(keys) { return true; }
    }
    found := false;
  }

  class AndOfOrs {
    var chunks: seq<seq<Key>>
    var exprs: seq<Cond>
    /** Every merge across chunks so far was of mergeable ones. */
    ghost var fair: bool

    ghost function Now(): Form
      reads this
    {
      Form(chunks, exprs, fair)
    }

    ghost predicate Valid()
      reads this
    {
      Ok(Now())
    }

    /** The key of an expression, a new one only if it has none. */
    method GetKey(e: Cond) returns (k: Key)
      requires TableOk(exprs)
      modifies this`exprs
      ensures k == Find(old(exprs), e) && exprs == WithKey(old(exprs), e)
      ensures TableOk(exprs) && old(exprs) <= exprs && k < |exprs| && exprs[k] == e
      ensures Distinct(old(exprs)) ==> Distinct(exprs)
    {
      k := Find(exprs, e);
      if Distinct(exprs) { WithKeyDistinct(exprs, e); }
      if k == |exprs| {
        exprs := exprs + [e];
      }
    }

    constructor (e: Cond)
      ensures Valid() && Now() == WithParts(START, VisitAnd(e))
      ensures forall env :: IsTrue(Now(), env) <==> Holds(e, env)
    {
      chunks, exprs, fair := [], [Bool(true), Bool(false)], true;
      new;
      AddChunks(VisitAnd(e));
      forall env ensures IsTrue(Now(), env) <==> Holds(e, env) { FormRight(e, env); }
    }

    method AddChunks(parts: seq<Cond>)
      requires Valid()
      modifies this
      ensures Valid() && Now() == WithParts(old(Now()), parts)
    {
      for n := 0 to |parts|
        invariant Valid() && WithParts(Now(), parts[n..]) == WithParts(old(Now()), parts)
      {
        assert parts[n..][0] == parts[n] && parts[n..][1..] == parts[n + 1..];
        ghost var f := Now();
        AddChunk(parts[n]);
        PartsUnfold(f, parts[n..]);
      }
    }

    /** One more conjunct, unless a permutation of it is there already. */
    method AddChunk(part: Cond)
      requires Valid()
      modifies this
      ensures Valid() && Now() == WithPart(old(Now()), part)
      ensures forall env :: IsTrue(Now(), env) <==> old(IsTrue(Now(), env)) && Holds(part, env)
    {
      ghost var f := Now();
      WithPartOk(f, part);
      forall env ensures IsTrue(WithPart(f, part), env) <==> IsTrue(f, env) && Holds(part, env) {
        WithPartTruth(f, part, env);
      }
      var keys := CollectKeys(VisitOr(part));
      var found := FindPermutation(chunks, keys);
      if !found { chunks := chunks + [keys]; }
    }

    method CollectKeys(ors: seq<Cond>) returns (keys: seq<Key>)
      requires TableOk(exprs)
      modifies this`exprs
      ensures (keys, exprs) == Collect(old(exprs), ors, []) && Collected(ors, keys, exprs)
    {
      keys := [];
      for n := 0 to |ors|
        invariant TableOk(exprs) && Collect(exprs, ors[n..], keys) == Collect(old(exprs), ors, [])
      {
        assert ors[n..][0] == ors[n] && ors[n..][1..] == ors[n + 1..];
        CollectUnfold(exprs, ors[n..], keys);
        var key := GetKey(ors[n]);
        if key !in keys {
          keys := keys + [key];
        }
      }
      CollectRight(old(exprs), ors);
    }

    /** Two keys become two with the same disjunction. */
    method TrySimplifyOr(rewrite: Rewrite, a: Key, b: Key) returns (a': Key, b': Key)
      requires TableOk(exprs) && a < |exprs| && b < |exprs|
      modifies this`exprs
      ensures (a', b', exprs) == OrKeys(rewrite, old(exprs), a, b)
      ensures TableOk(exprs) && old(exprs) <= exprs && a' < |exprs| && b' < |exprs|
    {
      OrKeysOk(rewrite, exprs, a, b);
      a', b' := a, b;
      var joint := Or(exprs[a], exprs[b]);
      var simplified := rewrite(Bool(true), joint);
      if simplified != joint {
        if simplified.Or? {
          a' := GetKey(simplified.p);
          b' := GetKey(simplified.q);
        } else {
          a' := FALSE;
          b' := GetKey(simplified);
        }
      }
    }

    /** Two keys become two with the same conjunction, wherever what is known holds. */
    method TrySimplifyAnd(rewrite: Rewrite, known: Cond, a: Key, b: Key) returns (a': Key, b': Key)
      requires TableOk(exprs) && a < |exprs| && b < |exprs|
      modifies this`exprs
      ensures (a', b', exprs) == AndKeys(rewrite, known, old(exprs), a, b)
      ensures TableOk(exprs) && old(exprs) <= exprs && a' < |exprs| && b' < |exprs|
    {
      AndKeysOk(rewrite, known, exprs, a, b);
      a', b' := a, b;
      var joint := And(exprs[a], exprs[b]);
      var simplified := rewrite(known, joint);
      if simplified != joint {
        if simplified.And? {
          a' := GetKey(simplified.p);
          b' := GetKey(simplified.q);
        } else {
          a' := TRUE;
          b' := GetKey(simplified);
        }
      }
    }

    method SimplifyWithinChunks(rewrite: Rewrite, ghost ctx: iset<Env>)
      requires Valid() && Sound(rewrite, ctx)
      modifies this
      ensures Valid() && Now() == Within(rewrite, old(Now()), 0, |old(chunks)|)
      ensures forall env :: env in ctx ==> (IsTrue(Now(), env) <==> old(IsTrue(Now(), env)))
    {
      ghost var f := Now();
      RewriteChunks(rewrite, |chunks|, Within(rewrite, f, 0, |chunks|));
      forall env | env in ctx { WithinRight(rewrite, ctx, f, 0, |f.chunks|, env); }
    }

    /** The m chunks from c on are left to rewrite, and lead to the given end. */
    ghost predicate WithinLeft(rewrite: Rewrite, end: Form, c: nat, m: nat)
      reads this
    {
      Valid() && |chunks| == c + m && Within(rewrite, Now(), c, m) == end
    }

    method RewriteChunks(rewrite: Rewrite, ghost n: nat, ghost end: Form)
      requires n == |chunks| && WithinLeft(rewrite, end, 0, n)
      modifies this
      ensures WithinLeft(rewrite, end, n, 0)
    {
      for c := 0 to |chunks|
        invariant c <= n && WithinLeft(rewrite, end, c, n - c)
      {
        SimplifyWithinChunk(rewrite, c, n - c, end);
      }
    }

    method SimplifyWithinChunk(rewrite: Rewrite, c: nat, ghost m: nat, ghost end: Form)
      requires m > 0 && WithinLeft(rewrite, end, c, m)
      modifies this
      ensures WithinLeft(rewrite, end, c + 1, m - 1)
    {
      WithinUnfold(rewrite, Now(), c, m);
      ghost var p, k := Part(chunks[c], exprs), |chunks[c]|;
      ghost var rows := Rows(rewrite, p, 0, k);
      RowsOk(rewrite, p, 0, k);
      TruthLater(chunks, exprs, rows.exprs, map[]);
      var keys := SimplifyRows(rewrite, chunks[c], rows);
      assert Part(keys, exprs) == rows;
      chunks := chunks[c := keys];
    }

    /** The m keys from i on are left to pair, and lead to the given end. */
    ghost predicate RowsLeft(rewrite: Rewrite, end: Part, keys: seq<Key>, i: nat, m: nat)
      reads this
    {
      PartOk(Part(keys, exprs)) && |keys| == i + m && Rows(rewrite, Part(keys, exprs), i, m) == end
    }

    method SimplifyRows(rewrite: Rewrite, chunk: seq<Key>, ghost end: Part) returns (keys: seq<Key>)
      requires RowsLeft(rewrite, end, chunk, 0, |chunk|)
      modifies this`exprs
      ensures RowsLeft(rewrite, end, keys, |chunk|, 0)
    {
      keys := chunk;
      for i := 0 to |chunk|
        invariant RowsLeft(rewrite, end, keys, i, |chunk| - i)
      {
        keys := SimplifyKey(rewrite, keys, i, |chunk| - i, end);
      }
    }

    /** The key at i with the later ones. */
    method SimplifyKey(
      rewrite: Rewrite, chunk: seq<Key>, i: nat, ghost m: nat, ghost end: Part) returns (keys: seq<Key>)
      requires m > 0 && RowsLeft(rewrite, end, chunk, i, m)
      modifies this`exprs
      ensures RowsLeft(rewrite, end, keys, i + 1, m - 1)
    {
      RowsUnfold(rewrite, Part(chunk, exprs), i, m);
      keys := SimplifyRow(rewrite, chunk, i, Row(rewrite, Part(chunk, exprs), i, i + 1, m - 1));
    }

    /** The m keys from j on are left to pair with the one at i, and lead to the given end. */
    ghost predicate RowLeft(rewrite: Rewrite, end: Part, keys: seq<Key>, i: nat, j: nat, m: nat)
      reads this
    {
      PartOk(Part(keys, exprs)) && |keys| == j + m && Row(rewrite, Part(keys, exprs), i, j, m) == end
    }

    method SimplifyRow(rewrite: Rewrite, chunk: seq<Key>, i: nat, ghost end: Part) returns (keys: seq<Key>)
      requires i < |chunk| && RowLeft(rewrite, end, chunk, i, i + 1, |chunk| - i - 1)
      modifies this`exprs
      ensures RowLeft(rewrite, end, keys, i, |chunk|, 0)
    {
      keys := chunk;
      var n, j := |chunk|, i + 1;
      while j < n
        invariant i < j <= n && RowLeft(rewrite, end, keys, i, j, n - j)
      {
        keys := SimplifyPair(rewrite, keys, i, j, n - j, end);
        j := j + 1;
      }
    }

    method SimplifyPair(
      rewrite: Rewrite, chunk: seq<Key>, i: nat, j: nat, ghost m: nat, ghost end: Part) returns (keys: seq<Key>)
      requires m > 0 && i < j && RowLeft(rewrite, end, chunk, i, j, m)
      modifies this`exprs
      ensures RowLeft(rewrite, end, keys, i, j + 1, m - 1)
    {
      RowUnfold(rewrite, Part(chunk, exprs), i, j, m);
      PairWithinOk(rewrite, Part(chunk, exprs), i, j);
      var a, b := TrySimplifyOr(rewrite, chunk[i], chunk[j]);
      keys := chunk[i := a][j := b];
    }

    /** While the other keys of the chunk are all false: what the analyzer may assume. */
    method OthersFalse(rewrite: Rewrite, chunk: seq<Key>, p: nat) returns (known: Cond)
      requires KeysOk(chunk, exprs)
      ensures known == Known(rewrite, exprs, chunk, p, 0, Bool(true))
    {
      known := Bool(true);
      for n := 0 to |chunk|
        invariant Known(rewrite, exprs, chunk, p, n, known) == Known(rewrite, exprs, chunk, p, 0, Bool(true))
      {
        if n != p {
          known := And(known, rewrite(Bool(true), Not(exprs[chunk[n]])));
        }
      }
    }

    method SimplifyAcrossChunks(rewrite: Rewrite, ghost ctx: iset<Env>)
      requires Valid() && Sound(rewrite, ctx)
      modifies this
      ensures Valid() && Now() == Across(rewrite, old(Now()), 0)
      ensures forall env :: env in ctx && fair ==> old(fair) && (IsTrue(Now(), env) <==> old(IsTrue(Now(), env)))
    {
      ghost var f := Now();
      for x := 0 to |chunks|
        invariant Valid() && |chunks| == |old(chunks)| && Across(rewrite, Now(), x) == Across(rewrite, f, 0)
      {
        SimplifyAcrossRow(rewrite, x);
      }
      forall env | env in ctx { AcrossRight(rewrite, ctx, f, 0, env); }
    }

    method SimplifyAcrossRow(rewrite: Rewrite, x: nat)
      requires Valid() && x < |chunks|
      modifies this
      ensures Valid() && Now() == AcrossRow(rewrite, old(Now()), x, x + 1)
    {
      for y := x + 1 to |chunks|
        invariant Valid() && |chunks| == |old(chunks)|
        invariant AcrossRow(rewrite, Now(), x, y) == AcrossRow(rewrite, old(Now()), x, x + 1)
      {
        SimplifyChunks(rewrite, x, y);
      }
    }

    /** One pair of chunks. */
    method SimplifyChunks(rewrite: Rewrite, x: nat, y: nat)
      requires Valid() && x < y < |chunks|
      modifies this
      ensures Valid() && Now() == PairAcross(rewrite, old(Now()), x, y)
      ensures NoRepeat(old(chunks[y])) ==> fair == old(fair)
    {
      PairAcrossOk(rewrite, Now(), x, y);
      var i, j := chunks[x], chunks[y];
      if |i| == 1 && |j| == 1 {
        MergeKeys(rewrite, x, 0, y, 0, Bool(true));
        return;
      }
      var p := FirstDistinct(i, j);
      if p == |i| {
        // i && j is i
        chunks := chunks[y := [TRUE]];
        return;
      }
      var q := FirstDistinct(j, i);
      if q == |j| {
        chunks := chunks[x := [TRUE]];
        return;
      }
      if |i| == |j| {
        var shared := CountShared(j, i);
        if shared + 1 == |i| {
          var known := OthersFalse(rewrite, i, p);
          MergeKeys(rewrite, x, p, y, q, known);
        }
      }
    }

    /** Two keys in two chunks, simplified together under what is known. */
    method MergeKeys(rewrite: Rewrite, x: nat, p: nat, y: nat, q: nat, known: Cond)
      requires Valid() && x < y < |chunks| && p < |chunks[x]| && q < |chunks[y]|
      modifies this
      ensures Now() == Merged(rewrite, old(Now()), x, p, y, q, known)
      ensures Valid() && (fair <==> old(fair && Mergeable(chunks[x], p, chunks[y], q)))
    {
      MergedOk(rewrite, Now(), x, p, y, q, known);
      var i, j := chunks[x], chunks[y];
      fair := fair && Mergeable(i, p, j, q);
      var a, b := TrySimplifyAnd(rewrite, known, i[p], j[q]);
      var i': seq<Key>, j': seq<Key> := i[p := a], j[q := b];
      chunks := chunks[x := i'][y := j'];
    }

    /** True ends a chunk, false leaves it, an empty chunk ends the whole, a true chunk leaves it. */
    method RemoveTrueFalse()
      requires Valid()
      modifies this`chunks
      ensures Valid() && Now() == Clean(old(Now()))
      ensures forall env :: IsTrue(Now(), env) <==> old(IsTrue(Now(), env))
      ensures chunks == [[]] || forall c :: c in chunks ==> |c| > 0 && TRUE !in c && FALSE !in c
    {
      ghost var f := Now();
      CleanRight(f, map[]);
      forall env ensures IsTrue(Clean(f), env) <==> IsTrue(f, env) { CleanRight(f, env); }
      TrimChunks();
      chunks := if [] in chunks then [[]] else WithoutTrue(chunks);
    }

    method TrimChunks()
      modifies this`chunks
      ensures chunks == TrimmedChunks(old(chunks))
    {
      for n := 0 to |chunks|
        invariant |chunks| == |old(chunks)|
        invariant forall m :: 0 <= m < n ==> chunks[m] == TrimmedChunk(old(chunks)[m])
        invariant forall m :: n <= m < |chunks| ==> chunks[m] == old(chunks)[m]
      {
        var chunk := if TRUE in chunks[n] then [TRUE] else Without(chunks[n], FALSE);
        chunks := chunks[n := chunk];
      }
    }

    method AsPrimExpr() returns (e: Cond)
      requires Valid()
      ensures e == AsExpr(Now())
      ensures forall env :: Holds(e, env) <==> IsTrue(Now(), env)
    {
      e := Bool(true);
      for c := 0 to |chunks|
        invariant AndUp(exprs, chunks, c, e) == AsExpr(Now())
      {
        var chunk := chunks[c];
        var chunkExpr := Bool(false);
        for k := 0 to |chunk|
          invariant OrUp(exprs, chunk, k, chunkExpr) == OrUp(exprs, chunk, 0, Bool(false))
        {
          chunkExpr := Or(chunkExpr, exprs[chunk[k]]);
        }
        e := And(e, chunkExpr);
      }
      forall env ensures Holds(e, env) <==> IsTrue(Now(), env) {
        assert Truth(chunks[..0], exprs, env);
        AndUpTruth(exprs, chunks, 0, Bool(true), env);
      }
    }

    method Simplify(rewrite: Rewrite, ghost ctx: iset<Env>)
      requires Valid() && Sound(rewrite, ctx)
      modifies this
      ensures Valid() && Now() == Simplified(rewrite, old(Now()))
      ensures forall env :: env in ctx && fair ==> (IsTrue(Now(), env) <==> old(IsTrue(Now(), env)))
      ensures chunks == [[]] || forall c :: c in chunks ==> |c| > 0 && TRUE !in c && FALSE !in c
    {
      ghost var f := Now();
      SimplifyWithinChunks(rewrite, ctx);
      RemoveTrueFalse();
      SimplifyAcrossChunks(rewrite, ctx);
      RemoveTrueFalse();
      forall env | env in ctx { SimplifiedRight(rewrite, ctx, f, env); }
    }
  }

  /**
   * A boolean expression as a simplified AND of ORs: the truth value is kept throughout the context
   * whenever the run merges mergeable chunks only, and so always when no conjunct has more than two
   * disjuncts.
   */
  method SimplifyAsAndOfOrs(rewrite: Rewrite, ghost ctx: iset<Env>, e: Cond) returns (r: Cond)
    requires Sound(rewrite, ctx)
    ensures r == Result(rewrite, e)
    ensures FairRun(rewrite, e) || ShortParts(VisitAnd(rewrite(Bool(true), e))) ==>
      forall env :: env in ctx ==> (Holds(r, env) <==> Holds(e, env))
  {
    var repr := new AndOfOrs(rewrite(Bool(true), e));
    repr.Simplify(rewrite, ctx);
    r := repr.AsPrimExpr();
    forall env | env in ctx { ResultRight(rewrite, ctx, e, env); }
  }
}
