// Integer vectors and matrices, and the two-row / two-column block operations
// that the diagonalization is made of.
module Matrix {

  type Vec = seq<int>
  type Mat = seq<Vec>

  predicate IsMat(A: Mat, m: nat, n: nat) {
    |A| == m && forall i :: 0 <= i < m ==> |A[i]| == n
  }

  function Dot(u: Vec, v: Vec): int
    requires |u| == |v|
  {
    if |u| == 0 then 0 else u[0] * v[0] + Dot(u[1..], v[1..])
  }

  function MatVec(A: Mat, z: Vec): (r: Vec)
    requires forall i :: 0 <= i < |A| ==> |A[i]| == |z|
    ensures |r| == |A|
    ensures forall i :: 0 <= i < |A| ==> r[i] == Dot(A[i], z)
  {
    seq(|A|, i requires 0 <= i < |A| => Dot(A[i], z))
  }

  lemma {:induction false} DotUpdate(u: Vec, v: Vec, p: nat, c: int)
    requires |u| == |v| && p < |u|
    ensures Dot(u[p := c], v) == Dot(u, v) + (c - u[p]) * v[p]
  {
    if p == 0 {
      assert u[p := c][1..] == u[1..];
    } else {
      assert u[p := c][1..] == u[1..][p - 1 := c];
      DotUpdate(u[1..], v[1..], p - 1, c);
    }
  }

  lemma {:induction false} DotUpdateTwo(u: Vec, v: Vec, p: nat, c: int, q: nat, d: int)
    requires |u| == |v| && p < |u| && q < |u| && p != q
    ensures Dot(u[p := c][q := d], v) == Dot(u, v) + (c - u[p]) * v[p] + (d - u[q]) * v[q]
  {
    DotUpdate(u, v, p, c);
    DotUpdate(u[p := c], v, q, d);
  }

  lemma {:induction false} DotSym(u: Vec, v: Vec)
    requires |u| == |v|
    ensures Dot(u, v) == Dot(v, u)
  {
    if |u| > 0 { DotSym(u[1..], v[1..]); }
  }

  lemma {:induction false} DotZero(u: Vec, v: Vec)
    requires |u| == |v|
    requires forall i :: 0 <= i < |u| ==> u[i] == 0
    ensures Dot(u, v) == 0
  {
    if |u| > 0 { DotZero(u[1..], v[1..]); }
  }

  /** A vector with at most one non-zero entry picks out that coordinate. */
  lemma {:induction false} DotUnit(u: Vec, v: Vec, p: nat)
    requires |u| == |v| && p < |u|
    requires forall i :: 0 <= i < |u| && i != p ==> u[i] == 0
    ensures Dot(u, v) == u[p] * v[p]
  {
    DotUpdate(u, v, p, 0);
    DotZero(u[p := 0], v);
  }

  // ----- block operations -----

  /** The 2x2 integer matrix [a b; c d]. */
  datatype Block = Block(a: int, b: int, c: int, d: int) {
    function Transpose(): Block { Block(a, c, b, d) }

    /** k undoes this block. */
    predicate InvertedBy(k: Block) {
      && k.a * a + k.b * c == 1 && k.a * b + k.b * d == 0
      && k.c * a + k.d * c == 0 && k.c * b + k.d * d == 1
    }
  }

  const SWAP := Block(0, 1, 1, 0)

  /** Coordinates p and q replaced by their images under the block. */
  function VecOp(y: Vec, p: nat, q: nat, k: Block): (r: Vec)
    requires p < |y| && q < |y| && p != q
    ensures |r| == |y|
  {
    y[p := k.a * y[p] + k.b * y[q]][q := k.c * y[p] + k.d * y[q]]
  }

  function Comb(a: int, u: Vec, b: int, v: Vec): (r: Vec)
    requires |u| == |v|
    ensures |r| == |u|
    ensures forall j :: 0 <= j < |u| ==> r[j] == a * u[j] + b * v[j]
  {
    seq(|u|, j requires 0 <= j < |u| => a * u[j] + b * v[j])
  }

  function RowOp(A: Mat, p: nat, q: nat, k: Block): Mat
    requires p < |A| && q < |A| && p != q && |A[p]| == |A[q]|
  {
    A[p := Comb(k.a, A[p], k.b, A[q])][q := Comb(k.c, A[p], k.d, A[q])]
  }

  function ColOp(A: Mat, n: nat, p: nat, q: nat, k: Block): (r: Mat)
    requires p < n && q < n && p != q
    requires forall i :: 0 <= i < |A| ==> |A[i]| == n
    ensures IsMat(r, |A|, n)
    ensures forall i :: 0 <= i < |A| ==> r[i] == VecOp(A[i], p, q, k)
  {
    seq(|A|, i requires 0 <= i < |A| => VecOp(A[i], p, q, k))
  }

  lemma {:induction false} VecOpInverse(y: Vec, p: nat, q: nat, k: Block, k': Block)
    requires p < |y| && q < |y| && p != q
    requires k.InvertedBy(k')
    ensures VecOp(VecOp(y, p, q, k), p, q, k') == y
  {
    var u, v := y[p], y[q];
    BlockCancel(k, k', u, v);
    var r := VecOp(VecOp(y, p, q, k), p, q, k');
    assert r[p] == u && r[q] == v;
  }

  lemma {:induction false} BlockCancel(k: Block, k': Block, u: int, v: int)
    requires k.InvertedBy(k')
    ensures k'.a * (k.a * u + k.b * v) + k'.b * (k.c * u + k.d * v) == u
    ensures k'.c * (k.a * u + k.b * v) + k'.d * (k.c * u + k.d * v) == v
  {
    BlockRow(k'.a, k'.b, k, u, v);
    BlockRow(k'.c, k'.d, k, u, v);
  }

  lemma {:induction false} BlockRow(s: int, t: int, k: Block, u: int, v: int)
    ensures s * (k.a * u + k.b * v) + t * (k.c * u + k.d * v)
         == (s * k.a + t * k.c) * u + (s * k.b + t * k.d) * v
  {
    assert s * (k.a * u + k.b * v) == (s * k.a) * u + (s * k.b) * v;
    assert t * (k.c * u + k.d * v) == (t * k.c) * u + (t * k.d) * v;
  }

  lemma {:induction false} DotVecOp(u: Vec, z: Vec, p: nat, q: nat, k: Block)
    requires |u| == |z| && p < |u| && q < |u| && p != q
    ensures Dot(VecOp(u, p, q, k), z) == Dot(u, VecOp(z, p, q, k.Transpose()))
  {
    var s, t, v, w := u[p], u[q], z[p], z[q];
    var c, d, e, f := k.a * s + k.b * t, k.c * s + k.d * t, k.a * v + k.c * w, k.b * v + k.d * w;
    BlockBilinear(k, s, t, v, w, c, d, e, f);
    DotBalanced(u, z, p, q, c, d, e, f, VecOp(u, p, q, k), VecOp(z, p, q, k.Transpose()));
  }

  /** Replacing (s, t) by (c, d) changes a dot product as much as replacing (v, w) by (e, f). */
  ghost predicate Balanced(s: int, t: int, v: int, w: int, c: int, d: int, e: int, f: int) {
    (c - s) * v + (d - t) * w == (e - v) * s + (f - w) * t
  }

  lemma {:induction false} DotBalanced(u: Vec, z: Vec, p: nat, q: nat, c: int, d: int, e: int, f: int, u': Vec, z': Vec)
    requires |u| == |z| && p < |u| && q < |u| && p != q
    requires Balanced(u[p], u[q], z[p], z[q], c, d, e, f)
    requires u' == u[p := c][q := d] && z' == z[p := e][q := f]
    ensures Dot(u', z) == Dot(u, z')
  {
    DotUpdateTwo(u, z, p, c, q, d);
    DotUpdateTwo(z, u, p, e, q, f);
    DotSym(u, z);
    DotSym(u, z[p := e][q := f]);
  }

  lemma {:induction false} BlockBilinear(k: Block, s: int, t: int, v: int, w: int, c: int, d: int, e: int, f: int)
    requires c == k.a * s + k.b * t && d == k.c * s + k.d * t
    requires e == k.a * v + k.c * w && f == k.b * v + k.d * w
    ensures Balanced(s, t, v, w, c, d, e, f)
  {
    assert (k.a * s + k.b * t - s) * v == k.a * (s * v) + k.b * (t * v) - s * v;
    assert (k.c * s + k.d * t - t) * w == k.c * (s * w) + k.d * (t * w) - t * w;
    assert (k.a * v + k.c * w - v) * s == k.a * (s * v) + k.c * (s * w) - s * v;
    assert (k.b * v + k.d * w - w) * t == k.b * (t * v) + k.d * (t * w) - t * w;
  }

  /** A column operation on the matrix is the transposed operation on the argument. */
  lemma {:induction false} ColOpMatVec(A: Mat, n: nat, p: nat, q: nat, k: Block, z: Vec)
    requires p < n && q < n && p != q && |z| == n
    requires forall i :: 0 <= i < |A| ==> |A[i]| == n
    ensures MatVec(ColOp(A, n, p, q, k), z) == MatVec(A, VecOp(z, p, q, k.Transpose()))
  {
    forall i | 0 <= i < |A|
      ensures Dot(VecOp(A[i], p, q, k), z) == Dot(A[i], VecOp(z, p, q, k.Transpose()))
    {
      DotVecOp(A[i], z, p, q, k);
    }
  }

  lemma {:induction false} DotComb(a: int, u: Vec, b: int, v: Vec, z: Vec)
    requires |u| == |v| == |z|
    ensures Dot(Comb(a, u, b, v), z) == a * Dot(u, z) + b * Dot(v, z)
  {
    if |u| > 0 {
      assert Comb(a, u, b, v)[1..] == Comb(a, u[1..], b, v[1..]);
      DotComb(a, u[1..], b, v[1..], z[1..]);
      CombStep(a, u[0], b, v[0], z[0], Dot(u[1..], z[1..]), Dot(v[1..], z[1..]));
    }
  }

  lemma {:induction false} CombStep(a: int, u: int, b: int, v: int, z: int, s: int, t: int)
    ensures (a * u + b * v) * z + (a * s + b * t) == a * (u * z + s) + b * (v * z + t)
  {
    assert (a * u + b * v) * z == a * (u * z) + b * (v * z);
  }

  /** A row operation on the matrix is the same operation on the image. */
  lemma {:induction false} RowOpMatVec(A: Mat, p: nat, q: nat, k: Block, z: Vec)
    requires p < |A| && q < |A| && p != q
    requires forall i :: 0 <= i < |A| ==> |A[i]| == |z|
    ensures MatVec(RowOp(A, p, q, k), z) == VecOp(MatVec(A, z), p, q, k)
  {
    DotComb(k.a, A[p], k.b, A[q], z);
    DotComb(k.c, A[p], k.d, A[q], z);
  }
}
