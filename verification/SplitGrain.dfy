// Splits that cut off the top of their iterator, and a number that divides what such a split spans.
module SplitGrain {
  import opened Radix
  import opened SplitCover
  import I = IntOperator

  /** Uncut, the split reads all of its mark above its place; otherwise g divides what it spans. */
  ghost predicate Sliced(ext: seq<int>, g: int, s: Split) {
    s.mark < |ext| && (ext[s.mark] <= s.lower * s.extent || I.Divides(g, s.scale * s.extent))
  }

  ghost predicate AllSliced(ext: seq<int>, g: int, args: seq<Split>) {
    forall i :: 0 <= i < |args| ==> Sliced(ext, g, args[i])
  }

  /** Whatever slices the first list slices the second. */
  ghost predicate KeepsSlices(args: seq<Split>, r: seq<Split>) {
    forall ext: seq<int>, g: int :: AllSliced(ext, g, args) ==> AllSliced(ext, g, r)
  }

  lemma {:induction false} SlicedLess(ext: seq<int>, g: int, g': int, s: Split)
    requires Sliced(ext, g, s) && I.Divides(g', g)
    ensures Sliced(ext, g', s)
  {
    if I.Divides(g, s.scale * s.extent) { I.DividesTrans(g', g, s.scale * s.extent); }
  }

  lemma {:induction false} SlicedJoin(ext: seq<int>, g: int, s: Split, t: Split, sign: int)
    requires Sliced(ext, g, s) && Sliced(ext, g, t) && s.mark == t.mark && s.lower == t.lower && s.extent == t.extent
    ensures Sliced(ext, g, t.(scale := s.scale + sign * t.scale))
  {
    if ext[s.mark] > s.lower * s.extent {
      I.DividesLinear(g, s.scale * s.extent, t.scale * t.extent, 1, sign);
      Join(s.scale, t.scale, sign, s.extent);
    }
  }

  lemma Join(a: int, b: int, sign: int, e: int)
    ensures 1 * (a * e) + sign * (b * e) == (a + sign * b) * e
  {
  }

  lemma {:induction false} SlicedScale(ext: seq<int>, g: int, s: Split, c: int)
    requires Sliced(ext, g, s)
    ensures Sliced(ext, g * c, s.(scale := s.scale * c)) && Sliced(ext, g, s.(scale := c * s.scale))
  {
    if I.Divides(g, s.scale * s.extent) {
      var k :| s.scale * s.extent == g * k;
      ScaleBoth(s.scale, s.extent, g, k, c);
    }
  }

  lemma ScaleBoth(a: int, e: int, g: int, k: int, c: int)
    requires a * e == g * k
    ensures (a * c) * e == (g * c) * k && (c * a) * e == g * (k * c)
  {
    assert (a * c) * e == (a * e) * c;
    assert (c * a) * e == (a * e) * c;
  }

  /** The inner split r, continued by the outer split l, spans what l does. */
  lemma {:induction false} SlicedMerge(ext: seq<int>, g: int, l: Split, r: Split)
    requires Sliced(ext, g, l) && l.mark == r.mark && l.scale == r.extent * r.scale && l.lower == r.lower * r.extent
    ensures Sliced(ext, g, r.(extent := l.extent * r.extent))
  {
    MergeProducts(r.lower, r.extent, l.extent, r.scale);
  }

  lemma MergeProducts(lower: int, inner: int, outer: int, scale: int)
    ensures (lower * inner) * outer == lower * (outer * inner)
    ensures (inner * scale) * outer == scale * (outer * inner)
  {
  }

  // ----- divisions -----

  /** The span left after dividing by k. */
  function GrainQuotient(g: int, k: int): int
    requires k > 0
  {
    if g % k == 0 then g / k else 1
  }

  lemma {:induction false} OneDivides(n: int)
    ensures I.Divides(1, n)
  {
    assert n == 1 * n;
  }

  /** A scale that k divides. */
  lemma {:induction false} SlicedOutright(ext: seq<int>, g: int, s: Split, c: int, k: int)
    requires Sliced(ext, g, s) && k > 0 && s.scale == k * c
    ensures Sliced(ext, GrainQuotient(g, k), s.(scale := c))
  {
    if g % k == 0 {
      if I.Divides(g, s.scale * s.extent) {
        var t :| s.scale * s.extent == g * t;
        assert g == k * (g / k);
        CancelOutright(k, c, s.extent, g / k, t);
      }
    } else {
      OneDivides(c * s.extent);
    }
  }

  lemma CancelOutright(k: int, c: int, e: int, q: int, t: int)
    requires k > 0 && (k * c) * e == (k * q) * t
    ensures c * e == q * t
  {
    assert (k * c) * e == k * (c * e);
    assert (k * q) * t == k * (q * t);
    SameCofactor(k, c * e, q * t);
  }

  lemma SameCofactor(k: int, a: int, b: int)
    requires k > 0 && k * a == k * b
    ensures a == b
  {
  }

  /** A divisor k == scale * q with q dividing the extent. */
  lemma {:induction false} SlicedFold(ext: seq<int>, g: int, s: Split, q: int, e: int)
    requires Sliced(ext, g, s) && s.Valid() && s.scale > 0 && q > 0 && s.extent == q * e
    ensures s.scale * q > 0 && Sliced(ext, GrainQuotient(g, s.scale * q), Split(s.mark, s.lower * q, e, 1))
  {
    MulPos(s.scale, q);
    var k := s.scale * q;
    assert (s.lower * q) * e == s.lower * (q * e);
    if g % k == 0 {
      if I.Divides(g, s.scale * s.extent) {
        var t :| s.scale * s.extent == g * t;
        assert g == k * (g / k);
        assert k * e == s.scale * (q * e);
        assert (k * (g / k)) * t == k * ((g / k) * t);
        SameCofactor(k, e, (g / k) * t);
        assert 1 * e == (g / k) * t;
      }
    } else {
      OneDivides(1 * e);
    }
  }

  /** A remainder by scale * q of a cut split whose span the divisor divides has an even extent. */
  lemma {:induction false} SlicedEven(ext: seq<int>, g: int, s: Split, q: int)
    requires Sliced(ext, g, s) && s.scale > 0 && q > 0 && I.Divides(s.scale * q, g) && ext[s.mark] > s.lower * s.extent
    ensures s.extent % q == 0
  {
    I.DividesTrans(s.scale * q, g, s.scale * s.extent);
    var t :| s.scale * s.extent == (s.scale * q) * t;
    assert (s.scale * q) * t == s.scale * (q * t);
    SameCofactor(s.scale, s.extent, q * t);
    Commute(q, t);
    DivUnique(s.extent, q, t, 0);
  }
}
