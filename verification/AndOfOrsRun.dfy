// The simplifier over chunks of keys as a function of its input: what each stage makes of the form.
module AndOfOrsRun {
  import opened Expr
  import opened ConjunctiveNormalForm

  /** rewrite(known, c): c simplified under what is known. */
  type Rewrite = (Cond, Cond) -> Cond

  /** The chunks, the key table, and whether every merge across chunks so far was of mergeable ones. */
  datatype Form = Form(chunks: seq<seq<Key>>, exprs: seq<Cond>, fair: bool)

  function At(exprs: seq<Cond>, k: Key): Cond {
    if k < |exprs| then exprs[k] else Bool(false)
  }

  // ----- construction -----

  function Find(exprs: seq<Cond>, e: Cond): (k: nat)
    ensures k <= |exprs| && (k < |exprs| ==> exprs[k] == e)
  {
    if exprs == [] then 0 else if exprs[0] == e then 0 else Find(exprs[1..], e) + 1
  }

  /** The table with an entry for e. */
  function WithKey(exprs: seq<Cond>, e: Cond): seq<Cond> {
    if Find(exprs, e) == |exprs| then exprs + [e] else exprs
  }

  /** The keys of the parts, each once, after the given ones; and the table with all of them. */
  function Collect(exprs: seq<Cond>, ors: seq<Cond>, keys: seq<Key>): (seq<Key>, seq<Cond>)
    decreases ors
  {
    if ors == [] then (keys, exprs)
    else
      var k := Find(exprs, ors[0]);
      Collect(WithKey(exprs, ors[0]), ors[1..], if k in keys then keys else keys + [k])
  }

  predicate HasPermutation(chunks: seq<seq<Key>>, keys: seq<Key>) {
    exists n :: 0 <= n < |chunks| && multiset(chunks[n]) == multiset(keys)
  }

  function WithPart(f: Form, part: Cond): Form {
    var (keys, exprs) := Collect(f.exprs, VisitOr(part), []);
    f.(exprs := exprs, chunks := if HasPermutation(f.chunks, keys) then f.chunks else f.chunks + [keys])
  }

  function WithParts(f: Form, parts: seq<Cond>): Form
    decreases parts
  {
    if parts == [] then f else WithParts(WithPart(f, parts[0]), parts[1..])
  }

  // ----- within chunks -----

  /** Two keys of a disjunction, rewritten together. */
  function OrKeys(rewrite: Rewrite, exprs: seq<Cond>, a: Key, b: Key): (Key, Key, seq<Cond>) {
    var joint := Or(At(exprs, a), At(exprs, b));
    var s := rewrite(Bool(true), joint);
    if s == joint then (a, b, exprs)
    else if s.Or? then
      var exprs' := WithKey(exprs, s.p);
      (Find(exprs, s.p), Find(exprs', s.q), WithKey(exprs', s.q))
    else (FALSE, Find(exprs, s), WithKey(exprs, s))
  }

  /** One chunk, with the table. */
  datatype Part = Part(keys: seq<Key>, exprs: seq<Cond>)

  function PairWithin(rewrite: Rewrite, p: Part, i: nat, j: nat): Part {
    if !(i < |p.keys| && j < |p.keys|) then p
    else
      var r := OrKeys(rewrite, p.exprs, p.keys[i], p.keys[j]);
      Part(p.keys[i := r.0][j := r.1], r.2)
  }

  /** The key at i with each of the n keys from j on. */
  function Row(rewrite: Rewrite, p: Part, i: nat, j: nat, n: nat): Part
    decreases n
  {
    if n == 0 then p else Row(rewrite, PairWithin(rewrite, p, i, j), i, j + 1, n - 1)
  }

  /** Every pair among the n keys from i on. */
  function Rows(rewrite: Rewrite, p: Part, i: nat, n: nat): Part
    decreases n
  {
    if n == 0 then p else Rows(rewrite, Row(rewrite, p, i, i + 1, n - 1), i + 1, n - 1)
  }

  /** Every pair of keys in the chunk at c. */
  function ChunkWithin(rewrite: Rewrite, f: Form, c: nat): Form {
    if c >= |f.chunks| then f
    else
      var p := Rows(rewrite, Part(f.chunks[c], f.exprs), 0, |f.chunks[c]|);
      f.(chunks := f.chunks[c := p.keys], exprs := p.exprs)
  }

  /** Every pair of keys in each of the n chunks from c on. */
  function Within(rewrite: Rewrite, f: Form, c: nat, n: nat): Form
    decreases n
  {
    if n == 0 then f else Within(rewrite, ChunkWithin(rewrite, f, c), c + 1, n - 1)
  }

  // ----- true and false -----

  function Without(c: seq<Key>, k: Key): (r: seq<Key>)
    ensures |r| <= |c|
    ensures forall t :: t in r <==> t in c && t != k
  {
    if c == [] then [] else (if c[0] == k then [] else [c[0]]) + Without(c[1..], k)
  }

  function WithoutTrue(chunks: seq<seq<Key>>): (r: seq<seq<Key>>)
    ensures forall c :: c in r <==> c in chunks && c != [TRUE]
  {
    if chunks == [] then [] else (if chunks[0] == [TRUE] then [] else [chunks[0]]) + WithoutTrue(chunks[1..])
  }

  function TrimmedChunk(c: seq<Key>): seq<Key> {
    if TRUE in c then [TRUE] else Without(c, FALSE)
  }

  function TrimmedChunks(chunks: seq<seq<Key>>): (r: seq<seq<Key>>)
    ensures |r| == |chunks| && forall n :: 0 <= n < |r| ==> r[n] == TrimmedChunk(chunks[n])
  {
    if chunks == [] then [] else [TrimmedChunk(chunks[0])] + TrimmedChunks(chunks[1..])
  }

  function Cleaned(chunks: seq<seq<Key>>): seq<seq<Key>> {
    var trimmed := TrimmedChunks(chunks);
    if [] in trimmed then [[]] else WithoutTrue(trimmed)
  }

  // ----- across chunks -----

  /** Two keys of a conjunction, rewritten together under what is known. */
  function AndKeys(rewrite: Rewrite, known: Cond, exprs: seq<Cond>, a: Key, b: Key): (Key, Key, seq<Cond>) {
    var joint := And(At(exprs, a), At(exprs, b));
    var s := rewrite(known, joint);
    if s == joint then (a, b, exprs)
    else if s.And? then
      var exprs' := WithKey(exprs, s.p);
      (Find(exprs, s.p), Find(exprs', s.q), WithKey(exprs', s.q))
    else (TRUE, Find(exprs, s), WithKey(exprs, s))
  }

  /** What is known while the keys of the chunk from n on, but for the one at p, are false. */
  function Known(rewrite: Rewrite, exprs: seq<Cond>, chunk: seq<Key>, p: nat, n: nat, known: Cond): Cond
    decreases |chunk| - n
  {
    if n >= |chunk| then known
    else
      var more := if n == p then known else And(known, rewrite(Bool(true), Not(At(exprs, chunk[n]))));
      Known(rewrite, exprs, chunk, p, n + 1, more)
  }

  /** The first position of a whose key is not in b. */
  function FirstApart(a: seq<Key>, b: seq<Key>): (p: nat)
    ensures p <= |a| && (forall t :: 0 <= t < p ==> a[t] in b) && (p < |a| ==> a[p] !in b)
  {
    if a == [] || a[0] !in b then 0
    else
      var p := FirstApart(a[1..], b) + 1;
      assert forall t :: 0 < t < |a| ==> a[t] == a[1..][t - 1];
      p
  }

  function Shared(a: seq<Key>, b: seq<Key>): (n: nat)
    ensures n <= |a|
  {
    if a == [] then 0 else Shared(a[..|a| - 1], b) + if a[|a| - 1] in b then 1 else 0
  }

  function Merged(rewrite: Rewrite, f: Form, x: nat, p: nat, y: nat, q: nat, known: Cond): (r: Form)
    requires x < |f.chunks| && y < |f.chunks| && p < |f.chunks[x]| && q < |f.chunks[y]|
    ensures |r.chunks| == |f.chunks|
  {
    var i, j := f.chunks[x], f.chunks[y];
    var (a, b, exprs) := AndKeys(rewrite, known, f.exprs, i[p], j[q]);
    var i': seq<Key>, j': seq<Key> := i[p := a], j[q := b];
    Form(f.chunks[x := i'][y := j'], exprs, f.fair && Mergeable(i, p, j, q))
  }

  function PairAcross(rewrite: Rewrite, f: Form, x: nat, y: nat): (r: Form)
    ensures |r.chunks| == |f.chunks|
  {
    if !(x < |f.chunks| && y < |f.chunks|) then f
    else
      var i, j := f.chunks[x], f.chunks[y];
      if |i| == 1 && |j| == 1 then Merged(rewrite, f, x, 0, y, 0, Bool(true))
      else if FirstApart(i, j) == |i| then f.(chunks := f.chunks[y := [TRUE]])
      else if FirstApart(j, i) == |j| then f.(chunks := f.chunks[x := [TRUE]])
      else if |i| == |j| == Shared(j, i) + 1 then
        var p, q := FirstApart(i, j), FirstApart(j, i);
        Merged(rewrite, f, x, p, y, q, Known(rewrite, f.exprs, i, p, 0, Bool(true)))
      else f
  }

  function AcrossRow(rewrite: Rewrite, f: Form, x: nat, y: nat): (r: Form)
    ensures |r.chunks| == |f.chunks|
    decreases |f.chunks| - y
  {
    if y >= |f.chunks| then f else AcrossRow(rewrite, PairAcross(rewrite, f, x, y), x, y + 1)
  }

  function Across(rewrite: Rewrite, f: Form, x: nat): (r: Form)
    ensures |r.chunks| == |f.chunks|
    decreases |f.chunks| - x
  {
    if x >= |f.chunks| then f else Across(rewrite, AcrossRow(rewrite, f, x, x + 1), x + 1)
  }

  // ----- the whole -----

  function OrUp(exprs: seq<Cond>, chunk: seq<Key>, k: nat, e: Cond): Cond
    decreases |chunk| - k
  {
    if k >= |chunk| then e else OrUp(exprs, chunk, k + 1, Or(e, At(exprs, chunk[k])))
  }

  function AndUp(exprs: seq<Cond>, chunks: seq<seq<Key>>, c: nat, e: Cond): Cond
    decreases |chunks| - c
  {
    if c >= |chunks| then e else AndUp(exprs, chunks, c + 1, And(e, OrUp(exprs, chunks[c], 0, Bool(false))))
  }

  const START := Form([], [Bool(true), Bool(false)], true)

  function Clean(f: Form): Form {
    f.(chunks := Cleaned(f.chunks))
  }

  function Simplified(rewrite: Rewrite, f: Form): Form {
    Clean(Across(rewrite, Clean(Within(rewrite, f, 0, |f.chunks|)), 0))
  }

  /** The form of e when simplification ends. */
  function FinalForm(rewrite: Rewrite, e: Cond): Form {
    Simplified(rewrite, WithParts(START, VisitAnd(e)))
  }

  function AsExpr(f: Form): Cond {
    AndUp(f.exprs, f.chunks, 0, Bool(true))
  }

  /** The expression returned for e. */
  function Result(rewrite: Rewrite, e: Cond): Cond {
    AsExpr(FinalForm(rewrite, rewrite(Bool(true), e)))
  }

  /** Every merge across chunks in the run on e is of mergeable ones. */
  predicate FairRun(rewrite: Rewrite, e: Cond) {
    FinalForm(rewrite, rewrite(Bool(true), e)).fair
  }
}
