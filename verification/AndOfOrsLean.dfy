// What absorption across chunks alone achieves: the run of a rewriter that has nothing to rewrite.
module AndOfOrsLean {
  import opened Expr
  import opened ConjunctiveNormalForm
  import opened AndOfOrsRun
  import opened AndOfOrsTruth

  ghost predicate Idle(rewrite: Rewrite) {
    forall known, c :: rewrite(known, c) == c
  }

  predicate Subset(a: seq<Key>, b: seq<Key>) {
    forall k :: k in a ==> k in b
  }

  /** Neither chunk absorbs the other, unless each is a single key. */
  predicate Apart(a: seq<Key>, b: seq<Key>) {
    a == [TRUE] || b == [TRUE] || (|a| == 1 && |b| == 1) || (!Subset(a, b) && !Subset(b, a))
  }

  predicate Lean(chunks: seq<seq<Key>>) {
    forall a, b :: 0 <= a < b < |chunks| ==> Apart(chunks[a], chunks[b])
  }

  /** g is f with some chunks replaced by the one that is true. */
  predicate Thinned(f: Form, g: Form) {
    && g.exprs == f.exprs && |g.chunks| == |f.chunks|
    && forall n :: 0 <= n < |f.chunks| ==> g.chunks[n] == f.chunks[n] || g.chunks[n] == [TRUE]
  }

  lemma {:induction false} ThinnedTrans(f: Form, g: Form, h: Form)
    requires Thinned(f, g) && Thinned(g, h)
    ensures Thinned(f, h)
  {
  }

  // ----- within chunks nothing happens -----

  lemma {:induction false} RowIdle(rewrite: Rewrite, p: Part, i: nat, j: nat, n: nat)
    requires Idle(rewrite)
    ensures Row(rewrite, p, i, j, n) == p
    decreases n
  {
    if n != 0 {
      if i < |p.keys| && j < |p.keys| { assert p.keys[i := p.keys[i]][j := p.keys[j]] == p.keys; }
      assert PairWithin(rewrite, p, i, j) == p;
      RowIdle(rewrite, p, i, j + 1, n - 1);
    }
  }

  lemma {:induction false} RowsIdle(rewrite: Rewrite, p: Part, i: nat, n: nat)
    requires Idle(rewrite)
    ensures Rows(rewrite, p, i, n) == p
    decreases n
  {
    if n != 0 {
      RowIdle(rewrite, p, i, i + 1, n - 1);
      RowsIdle(rewrite, p, i + 1, n - 1);
    }
  }

  lemma {:induction false} WithinIdle(rewrite: Rewrite, f: Form, c: nat, n: nat)
    requires Idle(rewrite)
    ensures Within(rewrite, f, c, n) == f
    decreases n
  {
    if n != 0 {
      if c < |f.chunks| {
        RowsIdle(rewrite, Part(f.chunks[c], f.exprs), 0, |f.chunks[c]|);
        assert f.chunks[c := f.chunks[c]] == f.chunks;
      }
      assert ChunkWithin(rewrite, f, c) == f;
      WithinIdle(rewrite, f, c + 1, n - 1);
    }
  }

  // ----- across chunks -----

  lemma {:induction false} MergedIdle(
    rewrite: Rewrite, f: Form, x: nat, p: nat, y: nat, q: nat, known: Cond)
    requires Idle(rewrite) && x < y < |f.chunks| && p < |f.chunks[x]| && q < |f.chunks[y]|
    ensures Merged(rewrite, f, x, p, y, q, known).chunks == f.chunks
    ensures Merged(rewrite, f, x, p, y, q, known).exprs == f.exprs
  {
    var i, j := f.chunks[x], f.chunks[y];
    assert i[p := i[p]] == i && j[q := j[q]] == j;
    assert f.chunks[x := i][y := j] == f.chunks;
  }

  lemma {:induction false} AllInside(a: seq<Key>, b: seq<Key>)
    ensures FirstApart(a, b) == |a| <==> Subset(a, b)
  {
    assert FirstApart(a, b) < |a| ==> a[FirstApart(a, b)] in a;
  }

  lemma {:induction false} PairIdle(rewrite: Rewrite, f: Form, x: nat, y: nat)
    requires Idle(rewrite) && x < y < |f.chunks|
    ensures var g := PairAcross(rewrite, f, x, y); Thinned(f, g) && Apart(g.chunks[x], g.chunks[y])
  {
    var i, j := f.chunks[x], f.chunks[y];
    AllInside(i, j);
    AllInside(j, i);
    if |i| == 1 && |j| == 1 {
      MergedIdle(rewrite, f, x, 0, y, 0, Bool(true));
    } else if FirstApart(i, j) != |i| && FirstApart(j, i) != |j| && |i| == |j| == Shared(j, i) + 1 {
      var p := FirstApart(i, j);
      MergedIdle(rewrite, f, x, p, y, FirstApart(j, i), Known(rewrite, f.exprs, i, p, 0, Bool(true)));
    }
  }

  lemma {:induction false} AcrossRowIdle(rewrite: Rewrite, f: Form, x: nat, y: nat)
    requires Idle(rewrite) && x < y
    ensures var r := AcrossRow(rewrite, f, x, y);
      Thinned(f, r) && forall b :: y <= b < |f.chunks| ==> Apart(r.chunks[x], r.chunks[b])
    decreases |f.chunks| - y
  {
    if y < |f.chunks| {
      var g := PairAcross(rewrite, f, x, y);
      PairIdle(rewrite, f, x, y);
      AcrossRowIdle(rewrite, g, x, y + 1);
      ThinnedTrans(f, g, AcrossRow(rewrite, g, x, y + 1));
    }
  }

  /** After the pass no chunk absorbs another. */
  lemma {:induction false} AcrossIdle(rewrite: Rewrite, f: Form, x: nat)
    requires Idle(rewrite)
    ensures var r := Across(rewrite, f, x);
      Thinned(f, r) && forall a, b :: x <= a < b < |f.chunks| ==> Apart(r.chunks[a], r.chunks[b])
    decreases |f.chunks| - x
  {
    if x < |f.chunks| {
      var g := AcrossRow(rewrite, f, x, x + 1);
      AcrossRowIdle(rewrite, f, x, x + 1);
      AcrossIdle(rewrite, g, x + 1);
      ThinnedTrans(f, g, Across(rewrite, g, x + 1));
    }
  }

  // ----- constants are out already -----

  /** Chunks free of constants, but for those that are just true. */
  predicate Tidied(chunks: seq<seq<Key>>) {
    forall c :: c in chunks ==> c == [TRUE] || (|c| > 0 && TRUE !in c && FALSE !in c)
  }

  lemma {:induction false} WithoutNone(c: seq<Key>, k: Key)
    requires k !in c
    ensures Without(c, k) == c
  {
    if c != [] { WithoutNone(c[1..], k); }
  }

  lemma {:induction false} TidiedTrim(chunks: seq<seq<Key>>)
    requires Tidied(chunks)
    ensures TrimmedChunks(chunks) == chunks && Cleaned(chunks) == WithoutTrue(chunks)
  {
    forall n | 0 <= n < |chunks| ensures TrimmedChunk(chunks[n]) == chunks[n] {
      assert chunks[n] in chunks;
      if TRUE !in chunks[n] { WithoutNone(chunks[n], FALSE); }
    }
    assert TrimmedChunks(chunks) == chunks;
  }

  lemma {:induction false} WithoutTrueLean(chunks: seq<seq<Key>>)
    requires Lean(chunks)
    ensures Lean(WithoutTrue(chunks))
  {
    if chunks != [] {
      var head, rest := chunks[0], WithoutTrue(chunks[1..]);
      WithoutTrueLean(chunks[1..]);
      forall b | 0 <= b < |rest| ensures Apart(head, rest[b]) {
        assert rest[b] in chunks[1..];
        var n :| 0 <= n < |chunks[1..]| && chunks[1..][n] == rest[b];
        assert chunks[n + 1] == rest[b];
      }
    }
  }

  lemma {:induction false} ThinnedTidy(f: Form, g: Form)
    requires Thinned(f, g) && Tidied(f.chunks)
    ensures Tidied(g.chunks)
    ensures forall c :: c in g.chunks && c != [TRUE] ==> c in f.chunks
  {
    forall c | c in g.chunks ensures (c == [TRUE] || c in f.chunks) {
      var n :| 0 <= n < |g.chunks| && g.chunks[n] == c;
      assert f.chunks[n] in f.chunks;
    }
  }

  lemma {:induction false} CleanLean(f: Form, g: Form)
    requires Thinned(f, g) && Lean(g.chunks) && Tidied(f.chunks)
    ensures Lean(Cleaned(g.chunks)) && forall c :: c in Cleaned(g.chunks) ==> c in f.chunks
  {
    ThinnedTidy(f, g);
    TidiedTrim(g.chunks);
    WithoutTrueLean(g.chunks);
  }

  lemma {:induction false} LoneClean(c: seq<Key>)
    requires c == [] || c == [TRUE]
    ensures |Cleaned([c])| <= 1 && (c == [] ==> Cleaned([c]) == [[]])
  {
    assert TrimmedChunks([c]) == [TrimmedChunk(c)];
    if c == [] { assert TrimmedChunk(c) in TrimmedChunks([c]); }
    assert WithoutTrue([]) == [];
    assert [TrimmedChunk(c)][1..] == [];
  }

  /**
   * With nothing to rewrite the run is absorption: what is left are conjuncts of the input, free of constants, of which
   * none is implied by another through having all its disjuncts.
   */
  lemma {:induction false} AbsorbedAll(rewrite: Rewrite, e: Cond)
    requires Idle(rewrite)
    ensures var start := WithParts(START, VisitAnd(e)).chunks; var f := FinalForm(rewrite, e);
      Lean(f.chunks) && (f.chunks == [[]] || forall c :: c in f.chunks ==> c in Cleaned(start))
  {
    var f := WithParts(START, VisitAnd(e));
    WithinIdle(rewrite, f, 0, |f.chunks|);
    var g := Clean(f);
    AcrossIdle(rewrite, g, 0);
    CleanedChunks(f.chunks);
    var h := Across(rewrite, g, 0);
    if g.chunks == [[]] {
      assert |h.chunks| == 1;
      assert h.chunks == [[]] || h.chunks == [[TRUE]];
      LoneClean(h.chunks[0]);
    } else {
      CleanLean(g, h);
    }
  }
}
