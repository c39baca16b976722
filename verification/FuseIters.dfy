// Fusing a sum of splits into one iterator.
module FuseIters {
  import opened Expr
  import opened Radix
  import opened SplitCover
  import opened FuseDigits
  import opened SplitSum
  import opened SplitGrain
  import I = IntOperator

  // ----- searching the args -----

  /** Position `pos` is free and, when a source is asked for, reads it. */
  predicate Candidate(args: seq<Split>, used: seq<bool>, source: Option<nat>, pos: nat)
    requires |used| == |args|
  {
    pos < |args| && !used[pos] && (source.Some? ==> args[pos].mark == source.value)
  }

  /** The last free position with the smallest scale, a trivial iterator first among equals. */
  method FindBaseIter(args: seq<Split>, used: seq<bool>, source: Option<nat>, rbegin: int) returns (base: int)
    requires |used| == |args| && -1 <= rbegin < |args|
    ensures -1 <= base <= rbegin && (base >= 0 ==> Candidate(args, used, source, base))
    ensures forall i :: 0 <= i <= rbegin && Candidate(args, used, source, i) ==>
      base >= 0 && args[base].scale <= args[i].scale
  {
    base := -1;
    var i := rbegin;
    while i >= 0
      invariant -1 <= i <= rbegin && -1 <= base <= rbegin && (base >= 0 ==> Candidate(args, used, source, base))
      invariant forall j :: i < j <= rbegin && Candidate(args, used, source, j) ==>
        base >= 0 && args[base].scale <= args[j].scale
    {
      if Candidate(args, used, source, i) {
        if base == -1 || args[i].scale < args[base].scale {
          base := i;
        } else if args[i].scale == args[base].scale && args[i].extent == 1 && args[base].extent != 1 {
          base := i;
        }
      }
      i := i - 1;
    }
  }

  method FindFirstPossibleUnitExtentIndex(args: seq<Split>) returns (first: nat)
    ensures first <= |args| && (first < |args| ==> args[first].extent == 1)
    ensures forall i :: 0 <= i < first ==> args[i].extent != 1
  {
    first := 0;
    while first < |args|
      invariant first <= |args|
      invariant forall i :: 0 <= i < first ==> args[i].extent != 1
    {
      if args[first].extent == 1 {
        return;
      }
      first := first + 1;
    }
  }

  /** A free position with exactly the given scale; none is missed, and a trivial iterator is preferred. */
  method FindIterWithExactScale(
    args: seq<Split>, used: seq<bool>, scale: int, source: Option<nat>, rbegin: int, firstUnit: nat)
    returns (pos: int)
    requires |used| == |args| && -1 <= rbegin < |args|
    requires forall i :: 0 <= i < firstUnit && i < |args| ==> args[i].extent != 1
    ensures -1 <= pos <= rbegin && (pos >= 0 ==> Candidate(args, used, source, pos) && args[pos].scale == scale)
    ensures forall j :: 0 <= j <= rbegin && Candidate(args, used, source, j) && args[j].scale == scale ==>
      pos >= 0 && (args[j].extent == 1 ==> args[pos].extent == 1)
  {
    pos := -1;
    var j := rbegin;
    while j >= 0
      invariant -1 <= j <= rbegin && -1 <= pos <= rbegin
      invariant pos >= 0 ==> Candidate(args, used, source, pos) && args[pos].scale == scale
      invariant forall i :: j < i <= rbegin && Candidate(args, used, source, i) && args[i].scale == scale ==>
        pos >= 0 && args[i].extent != 1
    {
      if Candidate(args, used, source, j) && args[j].scale == scale {
        if args[j].extent == 1 {
          return j;
        }
        if pos == -1 {
          pos := j;
        }
        if j <= firstUnit {
          return;
        }
      }
      j := j - 1;
    }
  }

  /** The largest scale in [0, bound] among the free positions. */
  method FindIterSmallerClosestToScale(args: seq<Split>, used: seq<bool>, bound: int) returns (pos: int)
    requires |used| == |args|
    ensures -1 <= pos < |args| && (pos >= 0 ==> Candidate(args, used, None, pos) && 0 <= args[pos].scale <= bound)
    ensures forall i :: 0 <= i < |args| && Candidate(args, used, None, i) && 0 <= args[i].scale <= bound ==>
      pos >= 0 && args[i].scale <= args[pos].scale
  {
    pos := -1;
    var j := |args| - 1;
    while j >= 0
      invariant -1 <= j < |args| && -1 <= pos < |args|
      invariant pos >= 0 ==> Candidate(args, used, None, pos) && 0 <= args[pos].scale <= bound
      invariant forall i :: j < i < |args| && Candidate(args, used, None, i) && 0 <= args[i].scale <= bound ==>
        pos >= 0 && args[i].scale <= args[pos].scale
    {
      if Candidate(args, used, None, j) && 0 <= args[j].scale <= bound {
        if pos == -1 || args[pos].scale < args[j].scale {
          pos := j;
        }
      }
      j := j - 1;
    }
  }

  // ----- merging consecutive splits of one source -----

  /** No two args read one iterator. */
  predicate MarksDiffer(args: seq<Split>) {
    forall i, j :: 0 <= i < j < |args| ==> args[i].mark != args[j].mark
  }

  method HitCount(args: seq<Split>) returns (hits: map<nat, nat>, overlap: bool)
    ensures forall s :: s in args ==> s.mark in hits
    ensures overlap <==> !MarksDiffer(args)
  {
    hits, overlap := map[], false;
    for i := 0 to |args|
      invariant forall j :: 0 <= j < i ==> args[j].mark in hits
      invariant forall k :: k in hits ==> exists j :: 0 <= j < i && args[j].mark == k
      invariant overlap <==> !MarksDiffer(args[..i])
    {
      if args[i].mark in hits {
        hits, overlap := hits[args[i].mark := hits[args[i].mark] + 1], true;
      } else {
        hits := hits[args[i].mark := 1];
      }
    }
    assert args[..|args|] == args;
  }

  /** From rhs, keeps merging the split that continues it. */
  method CombineFrom(args: seq<Split>, used: seq<bool>, rhs: Split, ghost out: seq<Split>, rend: nat, firstUnit: nat,
                     ghost bound: nat)
    returns (used': seq<bool>, rhs': Split)
    requires |used| == |args| && ArgsOk(args, bound) && rhs.Valid() && rend < |args|
    requires forall i :: 0 <= i < firstUnit && i < |args| ==> args[i].extent != 1
    requires Conserves(args, used, [rhs] + out)
    ensures |used'| == |args| && rhs'.Valid() && rhs'.mark == rhs.mark && Conserves(args, used', [rhs'] + out)
    ensures Free(used') <= Free(used) && forall i :: 0 <= i < |args| && used[i] ==> used'[i]
    ensures forall ext: seq<int>, g: int :: AllSliced(ext, g, args) && Sliced(ext, g, rhs) ==> Sliced(ext, g, rhs')
  {
    used', rhs' := used, rhs;
    while true
      invariant |used'| == |args| && rhs'.Valid() && rhs'.mark == rhs.mark && Conserves(args, used', [rhs'] + out)
      invariant Free(used') <= Free(used) && forall i :: 0 <= i < |args| && used[i] ==> used'[i]
      invariant forall ext: seq<int>, g: int :: AllSliced(ext, g, args) && Sliced(ext, g, rhs) ==> Sliced(ext, g, rhs')
      decreases Free(used')
    {
      var pos := FindIterWithExactScale(args, used', rhs'.extent * rhs'.scale, Some(rhs'.mark), rend, firstUnit);
      if pos == -1 || args[pos].lower != rhs'.lower * rhs'.extent {
        return;
      }
      var t := rhs'.(extent := args[pos].extent * rhs'.extent);
      ConservesMerge(args, used', rhs', out, pos, t);
      UseFree(used', pos);
      forall ext: seq<int>, g: int | AllSliced(ext, g, args)
        ensures Sliced(ext, g, t)
      {
        SlicedMerge(ext, g, args[pos], rhs');
      }
      used', rhs' := used'[pos := true], t;
    }
  }

  /** Merging changes nothing but the number of terms. */
  method TryCombineSplitFromSameSource(args: seq<Split>, ghost bound: nat) returns (r: Option<seq<Split>>)
    requires ArgsOk(args, bound)
    ensures r.Some? ==> ArgsOk(r.value, bound) && forall x: Vals :: TermSum(r.value, x) == TermSum(args, x)
    ensures r.Some? ==> KeepsSlices(args, r.value)
    ensures r.Some? <==> !MarksDiffer(args)
  {
    if |args| <= 1 {
      return None;
    }
    var hits, overlap := HitCount(args);
    if !overlap {
      return None;
    }
    var used, out: seq<Split> := NoneUsed(|args|), [];
    ConservesStart(args);
    var firstUnit := FindFirstPossibleUnitExtentIndex(args);
    var rend := |args| - 1;
    while rend >= 0
      invariant -1 <= rend < |args| && |used| == |args| && ArgsOk(out, bound) && Conserves(args, used, out)
      invariant forall i :: rend < i < |args| ==> used[i]
      invariant KeepsSlices(args, out)
      decreases Free(used) + rend + 1
    {
      if used[rend] {
        rend := rend - 1;
      } else if hits[args[rend].mark] == 1 {
        ConservesMove(args, used, out, rend);
        UseFree(used, rend);
        out, used := [args[rend]] + out, used[rend := true];
        rend := rend - 1;
      } else {
        var base := FindBaseIter(args, used, Some(args[rend].mark), rend);
        assert Candidate(args, used, Some(args[rend].mark), rend);
        ConservesMove(args, used, out, base);
        UseFree(used, base);
        var used1 := used[base := true];
        var used2, rhs := CombineFrom(args, used1, args[base], out, rend, firstUnit, bound);
        out, used := [rhs] + out, used2;
      }
    }
    forall x: Vals ensures TermSum(out, x) == TermSum(args, x) { AllUsed(args, used, x); }
    r := Some(out);
  }

  // ----- the fused iterator -----

  /** Free digits make the args total exactly 0, ..., n - 1. */
  ghost predicate Spans(args: seq<Split>, n: int) {
    && (forall u: seq<int> :: Fits(args, u) ==> 0 <= Total(args, u) < n)
    && (forall v :: 0 <= v < n ==> Reaches(args, v))
  }

  ghost predicate Fits(args: seq<Split>, u: seq<int>) {
    |u| == |args| && DigitsInRange(args, u)
  }

  ghost predicate Reaches(args: seq<Split>, v: int) {
    exists u: seq<int> :: Fits(args, u) && Total(args, u) == v
  }

  lemma {:induction false} SpansNothing()
    ensures Spans([], 1)
  {
    assert Fits([], []) && Total([], []) == 0;
  }

  /** One more digit of a scale that leaves no gap. */
  lemma {:induction false} SpansMore(s: Split, args: seq<Split>, n: int)
    requires Spans(args, n) && 0 <= s.scale <= n && s.extent > 0 && n > 0
    ensures Spans([s] + args, s.scale * (s.extent - 1) + n)
  {
    var all, m := [s] + args, s.scale * (s.extent - 1) + n;
    assert all[1..] == args;
    forall u: seq<int> | Fits(all, u)
      ensures 0 <= Total(all, u) < m
    {
      assert Fits(args, u[1..]);
      TopDigit(s.scale, u[0], s.extent);
    }
    forall v | 0 <= v < m
      ensures Reaches(all, v)
    {
      var d := LeadingDigit(s.scale, s.extent, n, v);
      assert Reaches(args, v - s.scale * d);
      var u: seq<int> :| Fits(args, u) && Total(args, u) == v - s.scale * d;
      var w := [d] + u;
      assert w[1..] == u && Fits(all, w);
      assert Total(all, w) == v;
    }
  }

  lemma TopDigit(m: int, d: int, e: int)
    requires m >= 0 && 0 <= d < e
    ensures 0 <= m * d <= m * (e - 1)
  {
  }

  lemma {:induction false} LeadingDigit(m: int, e: int, n: int, v: int) returns (d: int)
    requires 0 <= m <= n && e > 0 && n > 0 && 0 <= v < m * (e - 1) + n
    ensures 0 <= d < e && 0 <= v - m * d < n
  {
    if v < n {
      d := 0;
    } else if v >= m * (e - 1) {
      d := e - 1;
    } else {
      d := v / m;
      assert v == m * d + v % m;
      if d >= e { assert m * d >= m * e; }
    }
  }

  /** The args of the fused iterator, the scale it enters the sum with, and its extent. */
  datatype Fusion = Fusion(args: seq<Split>, scale: int, extent: int)

  /** The args put out so far total 0, ..., w + tail - 1; the next exact scale is base * w. */
  ghost predicate Fusing(out: seq<Split>, base: int, w: int, tail: int) {
    && base != 0 && w >= 0 && tail >= 0 && w + tail > 0 && Spans(out, w + tail)
    && (tail != 0 ==> base == 1)
  }

  /** Mixed-radix digits, innermost scale one. */
  predicate ExactArgs(args: seq<Split>) {
    FusePattern(args) && (args != [] ==> args[|args| - 1].scale == 1)
  }

  lemma {:induction false} ExactMore(s: Split, args: seq<Split>)
    requires ExactArgs(args) && s.scale == Weight(args)
    ensures ExactArgs([s] + args) && Weight([s] + args) == s.extent * Weight(args)
  {
    var all := [s] + args;
    assert all[1..] == args;
    if args != [] {
      PatternScale(args);
      forall i | 0 <= i < |all| - 1
        ensures all[i].scale == all[i + 1].scale * all[i + 1].extent
      {
        if i > 0 { assert all[i] == args[i - 1] && all[i + 1] == args[i]; }
      }
    }
  }

  /** As Conserves, with what has been put out multiplied by base. */
  ghost predicate ConservesScaled(args: seq<Split>, used: seq<bool>, base: int, out: seq<Split>)
    requires |used| == |args|
  {
    forall x: Vals :: Unused(args, used, x) + base * TermSum(out, x) == TermSum(args, x)
  }

  lemma {:induction false} ScaledStart(args: seq<Split>, base: int)
    ensures ConservesScaled(args, NoneUsed(|args|), base, [])
  {
    forall x: Vals ensures Unused(args, NoneUsed(|args|), x) + base * TermSum([], x) == TermSum(args, x) {
      AllUnused(args, NoneUsed(|args|), x);
    }
  }

  lemma {:induction false} ScaledMove(args: seq<Split>, used: seq<bool>, base: int, out: seq<Split>, j: nat, s: Split)
    requires |used| == |args| && ConservesScaled(args, used, base, out) && j < |args| && !used[j]
    requires s == args[j].(scale := s.scale) && args[j].scale == base * s.scale
    ensures ConservesScaled(args, used[j := true], base, [s] + out)
  {
    forall x: Vals
      ensures Unused(args, used[j := true], x) + base * TermSum([s] + out, x) == TermSum(args, x)
    {
      UseOne(args, used, j, x);
      assert ([s] + out)[1..] == out;
      ScaleTerm(args[j], s, base, x);
      assert Unused(args, used, x) + base * TermSum(out, x) == TermSum(args, x);
      Factor(base, Term(s, x), TermSum(out, x));
    }
  }

  lemma ScaleTerm(a: Split, s: Split, base: int, x: Vals)
    requires s == a.(scale := s.scale) && a.scale == base * s.scale
    ensures Term(a, x) == base * Term(s, x)
  {
    if s.Valid() {
      var d := s.Digit(At(x, s.mark));
      assert (base * s.scale) * d == base * (s.scale * d);
    }
  }

  lemma Factor(b: int, t: int, rest: int)
    ensures b * (t + rest) == b * t + b * rest
  {
  }

  /** Everything the fusing loop keeps. */
  ghost predicate FuseLoop(
    args: seq<Split>, used: seq<bool>, out: seq<Split>, base: int, w: int, tail: int, bijective: bool, bound: nat) {
    && |used| == |args| && |out| + Free(used) == |args| && ArgsOk(out, bound)
    && ConservesScaled(args, used, base, out) && Fusing(out, base, w, tail)
    && (bijective ==> tail == 0 && ExactArgs(out) && w == Weight(out))
  }

  lemma {:induction false} FuseExact(args: seq<Split>, used: seq<bool>, out: seq<Split>, base: int, w: int, tail: int,
                                     bijective: bool, bound: nat, j: nat, s: Split)
    requires ArgsOk(args, bound) && FuseLoop(args, used, out, base, w, tail, bijective, bound)
    requires j < |args| && !used[j] && args[j].scale == base * w && s == args[j].(scale := w)
    ensures FuseLoop(args, used[j := true], [s] + out, base, s.extent * w, tail, bijective, bound)
  {
    UseFree(used, j);
    ScaledMove(args, used, base, out, j, s);
    SpansMore(s, out, w + tail);
    assert w * (s.extent - 1) + (w + tail) == s.extent * w + tail;
    StillPositive(s.extent, w, tail);
    if bijective { ExactMore(s, out); }
  }

  lemma StillPositive(e: int, w: int, tail: int)
    requires e > 0 && w >= 0 && tail >= 0 && w + tail > 0
    ensures e * w >= 0 && e * w + tail > 0
  {
    assert e * w >= w;
  }

  lemma {:induction false} FuseSmaller(
    args: seq<Split>, used: seq<bool>, out: seq<Split>, w: int, tail: int, bound: nat, j: nat)
    requires ArgsOk(args, bound) && FuseLoop(args, used, out, 1, w, tail, false, bound)
    requires j < |args| && !used[j] && 0 <= args[j].scale <= w
    ensures FuseLoop(args, used[j := true], [args[j]] + out, 1, args[j].extent * args[j].scale,
                     tail + w - args[j].scale, false, bound)
  {
    var s := args[j];
    UseFree(used, j);
    ScaledMove(args, used, 1, out, j, s);
    SpansMore(s, out, w + tail);
    assert s.scale * (s.extent - 1) + (w + tail) == s.extent * s.scale + (tail + w - s.scale);
    assert s.extent * s.scale >= s.scale;
  }

  lemma {:induction false} FuseStart(args: seq<Split>, base: int, bijective: bool, bound: nat)
    requires base != 0
    ensures FuseLoop(args, NoneUsed(|args|), [], base, 1, 0, bijective, bound)
  {
    ScaledStart(args, base);
    SpansNothing();
    AllFree(NoneUsed(|args|));
  }

  lemma {:induction false} AllFree(used: seq<bool>)
    requires forall i :: 0 <= i < |used| ==> !used[i]
    ensures Free(used) == |used|
  {
    if used != [] { AllFree(used[1..]); }
  }

  lemma {:induction false} FuseEnd(
    args: seq<Split>, used: seq<bool>, out: seq<Split>, base: int, w: int, tail: int, bijective: bool, bound: nat)
    requires FuseLoop(args, used, out, base, w, tail, bijective, bound) && |out| == |args|
    ensures forall x: Vals :: TermSum(args, x) == base * TermSum(out, x)
  {
    NoneFree(used);
    forall x: Vals ensures TermSum(args, x) == base * TermSum(out, x) {
      AllUsed(args, used, x);
      assert Unused(args, used, x) + base * TermSum(out, x) == TermSum(args, x);
    }
  }

  /** f's iterator, scaled, is the sum; it takes exactly the values below its extent, each once if bijective. */
  ghost predicate Fuses(args: seq<Split>, f: Fusion, bijective: bool, bound: nat) {
    && ArgsOk(f.args, bound) && f.scale != 0 && f.extent > 0 && Spans(f.args, f.extent)
    && (forall x: Vals :: TermSum(args, x) == f.scale * TermSum(f.args, x))
    && (bijective ==> ExactArgs(f.args) && f.args != [] && f.extent == Weight(f.args))
  }

  // ----- which args are taken, and when none is left to take -----

  /** The scale that continues the picked args, of which the outermost is first. */
  function Expected(args: seq<Split>, picks: seq<nat>): int
    requires picks != [] && picks[0] < |args|
  {
    args[picks[0]].extent * args[picks[0]].scale
  }

  predicate Matches(args: seq<Split>, picks: seq<nat>, i: nat)
    requires picks != [] && picks[0] < |args|
  {
    i < |args| && i !in picks && args[i].scale == Expected(args, picks)
  }

  predicate Below(args: seq<Split>, picks: seq<nat>, i: nat)
    requires picks != [] && picks[0] < |args|
  {
    i < |args| && i !in picks && 0 <= args[i].scale <= Expected(args, picks)
  }

  ghost predicate Smallest(args: seq<Split>, p: nat) {
    p < |args| && forall i :: 0 <= i < |args| ==> args[p].scale <= args[i].scale
  }

  /**
   * p may be taken next: the smallest scale first, unless zero; then one of exactly the expected scale; where there is
   * none, and neither every value need be hit once nor the sum be scaled, the largest below it.
   */
  ghost predicate MayTake(args: seq<Split>, picks: seq<nat>, p: nat, bijective: bool)
    requires forall i :: 0 <= i < |picks| ==> picks[i] < |args|
  {
    if picks == [] then Smallest(args, p) && args[p].scale != 0
    else
      || Matches(args, picks, p)
      || (&& !bijective && args[picks[|picks| - 1]].scale == 1 && (forall i: nat :: !Matches(args, picks, i))
          && Below(args, picks, p) && forall i: nat :: Below(args, picks, i) ==> args[i].scale <= args[p].scale)
  }

  /** Args taken one after the other. */
  ghost predicate Taken(args: seq<Split>, picks: seq<nat>, bijective: bool) {
    && Injective(picks, |args|)
    && (picks != [] ==> Taken(args, picks[1..], bijective) && MayTake(args, picks[1..], picks[0], bijective))
  }

  /** None is left to take. */
  ghost predicate Stuck(args: seq<Split>, picks: seq<nat>, bijective: bool) {
    Taken(args, picks, bijective) && |picks| < |args| && forall p: nat :: !MayTake(args, picks, p, bijective)
  }

  /** f is made of the picked args, their scales divided by the smallest. */
  ghost predicate MadeOf(args: seq<Split>, picks: seq<nat>, f: Fusion) {
    && Injective(picks, |args|) && |f.args| == |picks| > 0 && f.scale == args[picks[|picks| - 1]].scale != 0
    && forall t :: 0 <= t < |picks| ==>
      f.args[t] == args[picks[t]].(scale := I.FloorDiv(args[picks[t]].scale, f.scale))
  }

  lemma {:induction false} TakeMore(args: seq<Split>, picks: seq<nat>, p: nat, bijective: bool)
    requires Taken(args, picks, bijective) && MayTake(args, picks, p, bijective)
    ensures Taken(args, [p] + picks, bijective)
  {
    var all := [p] + picks;
    assert all[1..] == picks;
    assert picks != [] ==> p !in picks;
    forall i, j | 0 <= i < j < |all| ensures all[i] != all[j] {
      if i == 0 { assert all[j] in picks; }
    }
  }

  /** What the fusing loop keeps of the picks: the args put out, and the scale to look for. */
  ghost predicate Taking(
    args: seq<Split>, used: seq<bool>, picks: seq<nat>, out: seq<Split>, base: int, expected: int, bijective: bool) {
    && Taken(args, picks, bijective) && |used| == |args| && |out| == |picks| && base != 0
    && (forall i :: 0 <= i < |used| ==> (used[i] <==> i in picks))
    && (picks != [] ==> args[picks[|picks| - 1]].scale == base && expected == Expected(args, picks))
    && forall t :: 0 <= t < |picks| ==>
      out[t] == args[picks[t]].(scale := I.FloorDiv(args[picks[t]].scale, base))
  }

  lemma {:induction false} TakeOne(args: seq<Split>, used: seq<bool>, picks: seq<nat>, out: seq<Split>, base: int,
                                   expected: int, bijective: bool, p: nat)
    requires Taking(args, used, picks, out, base, expected, bijective) && MayTake(args, picks, p, bijective)
    requires picks == [] ==> args[p].scale == base
    ensures Taking(args, used[p := true], [p] + picks, [args[p].(scale := I.FloorDiv(args[p].scale, base))] + out, base,
                   args[p].extent * args[p].scale, bijective)
  {
    TakeMore(args, picks, p, bijective);
    var all := [p] + picks;
    forall i | 0 <= i < |used| ensures used[p := true][i] <==> i in all {
      assert i in all <==> i == p || i in picks;
    }
  }

  lemma {:induction false} NothingToTake(args: seq<Split>, used: seq<bool>, picks: seq<nat>, out: seq<Split>, base: int,
                                         expected: int, bijective: bool)
    requires Taking(args, used, picks, out, base, expected, bijective) && picks != [] && |picks| < |args|
    requires forall i :: 0 <= i < |args| && !used[i] ==> args[i].scale != expected
    requires bijective || base != 1 || forall i :: 0 <= i < |args| && !used[i] ==> !(0 <= args[i].scale <= expected)
    ensures Stuck(args, picks, bijective)
  {
  }

  lemma Regroup3(b: int, e: int, w: int)
    ensures e * (b * w) == b * (e * w)
  {
  }

  /** The state of the fusing loop. */
  ghost predicate FuseState(args: seq<Split>, used: seq<bool>, out: seq<Split>, base: int, w: int, tail: int,
                            expected: int, picks: seq<nat>, bijective: bool, bound: nat) {
    && FuseLoop(args, used, out, base, w, tail, bijective, bound) && expected == base * w
    && Taking(args, used, picks, out, base, expected, bijective) && (picks == [] ==> w == 1)
  }

  lemma {:induction false} TakeMatch(args: seq<Split>, used: seq<bool>, out: seq<Split>, base: int, w: int, tail: int,
                                     expected: int, picks: seq<nat>, bijective: bool, bound: nat, p: nat)
    requires ArgsOk(args, bound) && FuseState(args, used, out, base, w, tail, expected, picks, bijective, bound)
    requires p < |args| && !used[p] && args[p].scale == expected && (picks == [] ==> Smallest(args, p))
    ensures FuseState(args, used[p := true], [args[p].(scale := I.FloorDiv(args[p].scale, base))] + out, base,
                      args[p].extent * w, tail, args[p].extent * expected, [p] + picks, bijective, bound)
  {
    I.ExactQuotient(base, w);
    var s := args[p].(scale := I.FloorDiv(args[p].scale, base));
    FuseExact(args, used, out, base, w, tail, bijective, bound, p, s);
    Regroup3(base, s.extent, w);
    TakeOne(args, used, picks, out, base, expected, bijective, p);
  }

  lemma {:induction false} TakeSmaller(args: seq<Split>, used: seq<bool>, out: seq<Split>, w: int, tail: int,
                                       picks: seq<nat>, bound: nat, p: nat)
    requires ArgsOk(args, bound) && FuseState(args, used, out, 1, w, tail, w, picks, false, bound) && picks != []
    requires MayTake(args, picks, p, false) && !used[p] && 0 <= args[p].scale <= w
    ensures FuseState(args, used[p := true], [args[p].(scale := I.FloorDiv(args[p].scale, 1))] + out, 1,
                      args[p].extent * args[p].scale, tail + w - args[p].scale, args[p].extent * args[p].scale,
                      [p] + picks, false, bound)
  {
    I.ExactQuotient(1, args[p].scale);
    assert args[p].(scale := I.FloorDiv(args[p].scale, 1)) == args[p];
    FuseSmaller(args, used, out, w, tail, bound, p);
    TakeOne(args, used, picks, out, 1, w, false, p);
  }

  /** The position to take next: the base, one of the exact scale, or the closest smaller one; none when stuck. */
  method FindNext(args: seq<Split>, used: seq<bool>, out: seq<Split>, base: int, baseIndex: nat, expected: int,
                  firstUnit: nat, bijective: bool, ghost picks: seq<nat>) returns (pos: int, exact: bool)
    requires Taking(args, used, picks, out, base, expected, bijective) && |out| < |args|
    requires Smallest(args, baseIndex) && args[baseIndex].scale == base && (out == [] ==> expected == base)
    requires forall i :: 0 <= i < firstUnit && i < |args| ==> args[i].extent != 1
    ensures -1 <= pos < |args| && (pos >= 0 ==> !used[pos] && MayTake(args, picks, pos, bijective))
    ensures pos >= 0 && exact ==> args[pos].scale == expected && (picks == [] ==> Smallest(args, pos))
    ensures pos >= 0 && !exact ==> !bijective && base == 1 && picks != [] && 0 <= args[pos].scale <= expected
    ensures pos == -1 ==> Stuck(args, picks, bijective)
  {
    if |out| == 0 {
      return baseIndex, true;
    }
    pos := FindIterWithExactScale(args, used, expected, None, |args| - 1, firstUnit);
    assert forall i :: 0 <= i < |args| && !used[i] ==> Candidate(args, used, None, i);
    if pos != -1 {
      return pos, true;
    }
    exact := false;
    if !bijective && base == 1 {
      pos := FindIterSmallerClosestToScale(args, used, expected);
    }
    if pos == -1 { NothingToTake(args, used, picks, out, base, expected, bijective); }
  }

  /** The loop over matching positions; no match, or a base scale of zero, ends it with nothing. */
  method FuseArgs(args: seq<Split>, bijective: bool, ghost bound: nat) returns (r: Option<Fusion>)
    requires ArgsOk(args, bound)
    ensures r.Some? ==> Fuses(args, r.value, bijective, bound) && |r.value.args| == |args|
    ensures r.Some? ==> exists picks :: Taken(args, picks, bijective) && MadeOf(args, picks, r.value)
    ensures r.None? && args != [] ==> exists picks :: Stuck(args, picks, bijective)
  {
    var used := NoneUsed(|args|);
    var baseIndex := FindBaseIter(args, used, None, |args| - 1);
    assert forall i :: 0 <= i < |args| ==> Candidate(args, used, None, i);
    if baseIndex == -1 || args[baseIndex].scale == 0 {
      assert args != [] ==> Stuck(args, [], bijective);
      return None;
    }
    var base := args[baseIndex].scale;
    var out: seq<Split> := [];
    var expected, tail := base, 0;
    ghost var w: int, picks: seq<nat> := 1, [];
    FuseStart(args, base, bijective, bound);
    var firstUnit := FindFirstPossibleUnitExtentIndex(args);
    while |out| < |args|
      invariant FuseState(args, used, out, base, w, tail, expected, picks, bijective, bound)
      decreases |args| - |out|
    {
      var pos, exact := FindNext(args, used, out, base, baseIndex, expected, firstUnit, bijective, picks);
      if pos == -1 {
        return None;
      }
      var s := args[pos].(scale := I.FloorDiv(args[pos].scale, base));
      var matched := if exact then expected else args[pos].scale;
      if exact {
        TakeMatch(args, used, out, base, w, tail, expected, picks, bijective, bound, pos);
        w := args[pos].extent * w;
      } else {
        TakeSmaller(args, used, out, w, tail, picks, bound, pos);
        tail := tail + expected - matched;
        w := args[pos].extent * args[pos].scale;
      }
      used, out, expected := used[pos := true], [s] + out, args[pos].extent * matched;
      picks := [pos] + picks;
    }
    FuseEnd(args, used, out, base, w, tail, bijective, bound);
    I.ExactQuotient(base, w);
    r := Some(Fusion(out, base, I.TruncDiv(expected, base) + tail));
    assert MadeOf(args, picks, r.value);
  }

  // ----- stacks: args that continue each other -----

  /** Outermost first, q arranges the args so that each continues the next; the innermost has the smallest scale. */
  ghost predicate StackedBy(args: seq<Split>, q: seq<nat>) {
    && args != [] && |q| == |args| && Injective(q, |args|) && FusePattern(Pick(args, q))
    && Smallest(args, q[|q| - 1]) && args[q[|q| - 1]].scale != 0
  }

  ghost predicate Stacks(args: seq<Split>) {
    exists q :: StackedBy(args, q)
  }

  lemma {:induction false} StackStep(args: seq<Split>, q: seq<nat>, i: nat)
    requires StackedBy(args, q) && i < |q| - 1
    ensures args[q[i]].scale == args[q[i + 1]].scale * args[q[i + 1]].extent
  {
    var p := Pick(args, q);
    assert p[i].scale == p[i + 1].scale * p[i + 1].extent;
  }

  lemma GrowsUp(s: int, e: int)
    requires e > 1
    ensures s > 0 ==> s * e > s
    ensures s < 0 ==> s * e < s
  {
  }

  /** The scales fall from the outermost to the innermost. */
  lemma {:induction false} StackStrict(args: seq<Split>, q: seq<nat>, i: nat, j: nat)
    requires StackedBy(args, q) && Wide(args) && i < j < |q|
    ensures args[q[i]].scale > args[q[j]].scale > 0
    decreases |q| - i
  {
    StackStep(args, q, i);
    GrowsUp(args[q[i + 1]].scale, args[q[i + 1]].extent);
    if i + 2 == |q| {
      assert args[q[i + 1]].scale <= args[q[i]].scale;
    } else {
      StackStrict(args, q, i + 1, if j == i + 1 then i + 2 else j);
    }
  }

  lemma {:induction false} SamePlace(args: seq<Split>, q: seq<nat>, p: nat, i: nat)
    requires StackedBy(args, q) && Wide(args) && p < |args| && i < |q| && args[p].scale == args[q[i]].scale
    ensures p == q[i]
  {
    InjectiveCovers(q, |args|, p);
    var j :| 0 <= j < |q| && q[j] == p;
    if i < j { StackStrict(args, q, i, j); }
    if j < i { StackStrict(args, q, j, i); }
  }

  lemma {:induction false} NextMatches(args: seq<Split>, q: seq<nat>, picks: seq<nat>, bijective: bool, p: nat)
    requires StackedBy(args, q) && Wide(args) && picks != [] && |picks| < |q| && picks == q[|q| - |picks|..]
    ensures MayTake(args, picks, q[|q| - |picks| - 1], bijective)
    ensures MayTake(args, picks, p, bijective) ==> p == q[|q| - |picks| - 1]
  {
    var m := |q| - |picks|;
    StackStep(args, q, m - 1);
    assert picks[0] == q[m] && Expected(args, picks) == args[q[m - 1]].scale;
    assert q[m - 1] !in picks;
    assert Matches(args, picks, q[m - 1]);
    if MayTake(args, picks, p, bijective) { SamePlace(args, q, p, m - 1); }
  }

  lemma {:induction false} TakesNext(args: seq<Split>, q: seq<nat>, picks: seq<nat>, bijective: bool, p: nat)
    requires StackedBy(args, q) && Wide(args) && |picks| < |q| && picks == q[|q| - |picks|..]
    requires MayTake(args, picks, p, bijective)
    ensures [p] + picks == q[|q| - |picks| - 1..]
  {
    var m := |q| - |picks|;
    if picks == [] { SamePlace(args, q, p, m - 1); } else { NextMatches(args, q, picks, bijective, p); }
    assert q[m - 1..] == [q[m - 1]] + q[m..];
  }

  lemma {:induction false} OneMoreLeft(args: seq<Split>, q: seq<nat>, picks: seq<nat>)
    requires |q| == |args| && Injective(q, |args|) && Injective(picks, |args|) && picks != []
    requires |picks[1..]| <= |q| && picks[1..] == q[|q| - |picks[1..]|..]
    ensures |picks[1..]| < |q|
  {
    var p := picks[0];
    assert p !in picks[1..];
    InjectiveCovers(q, |args|, p);
  }

  lemma {:induction false} FollowsOn(args: seq<Split>, q: seq<nat>, picks: seq<nat>, bijective: bool)
    requires StackedBy(args, q) && Wide(args) && picks != [] && Injective(picks, |args|)
    requires |picks[1..]| <= |q| && picks[1..] == q[|q| - |picks[1..]|..]
    requires MayTake(args, picks[1..], picks[0], bijective)
    ensures |picks| <= |q| && picks == q[|q| - |picks|..]
  {
    OneMoreLeft(args, q, picks);
    TakesNext(args, q, picks[1..], bijective, picks[0]);
    assert picks == [picks[0]] + picks[1..];
  }

  /** In a stack the args are taken from the innermost outwards. */
  lemma {:induction false} TakenFollows(args: seq<Split>, q: seq<nat>, picks: seq<nat>, bijective: bool)
    requires StackedBy(args, q) && Wide(args) && Taken(args, picks, bijective)
    ensures |picks| <= |q| && picks == q[|q| - |picks|..]
  {
    if picks != [] {
      TakenFollows(args, q, picks[1..], bijective);
      FollowsOn(args, q, picks, bijective);
    }
  }

  lemma {:induction false} StackNotStuck(args: seq<Split>, q: seq<nat>, picks: seq<nat>, bijective: bool)
    requires StackedBy(args, q) && Wide(args)
    ensures !Stuck(args, picks, bijective)
  {
    if Taken(args, picks, bijective) && |picks| < |args| {
      TakenFollows(args, q, picks, bijective);
      if picks == [] {
        assert MayTake(args, picks, q[|q| - 1], bijective);
      } else {
        NextMatches(args, q, picks, bijective, 0);
      }
    }
  }

  /** Args all taken by exact matches are a stack. */
  lemma {:induction false} TakenStacks(args: seq<Split>, picks: seq<nat>)
    requires Taken(args, picks, true) && picks != []
    ensures FusePattern(Pick(args, picks)) && Smallest(args, picks[|picks| - 1]) && args[picks[|picks| - 1]].scale != 0
  {
    var rest := picks[1..];
    if rest != [] {
      TakenStacks(args, rest);
      var p, r := Pick(args, picks), Pick(args, rest);
      assert p == [p[0]] + r;
      assert p[0].scale == p[1].scale * p[1].extent;
    }
  }

  /** What a stack is fused into. */
  function FusionOf(args: seq<Split>, q: seq<nat>): Fusion
    requires Injective(q, |args|) && q != [] && args[q[|q| - 1]].scale != 0
  {
    var base := args[q[|q| - 1]].scale;
    var out := seq(|q|, t requires 0 <= t < |q| => args[q[t]].(scale := I.FloorDiv(args[q[t]].scale, base)));
    Fusion(out, base, Weight(out))
  }

  /** Exactly fused args total each number below their weight. */
  lemma {:induction false} ExactSpans(args: seq<Split>)
    requires AllValid(args) && ExactArgs(args)
    ensures Spans(args, Weight(args))
  {
    if args == [] {
      SpansNothing();
    } else {
      var s, rest := args[0], args[1..];
      assert ExactArgs(rest);
      ExactSpans(rest);
      WeightPositive(rest);
      PatternScale(args);
      SpansMore(s, rest, Weight(rest));
      assert args == [s] + rest;
      assert Weight(rest) * (s.extent - 1) + Weight(rest) == s.extent * Weight(rest);
    }
  }

  lemma {:induction false} SpansOnce(args: seq<Split>, m: int, n: int)
    requires Spans(args, m) && Spans(args, n) && m > 0 && n > 0
    ensures m == n
  {
    assert Reaches(args, m - 1) && Reaches(args, n - 1);
  }

  lemma Regroup(b: int, w: int, e: int)
    ensures (b * w) * e == b * (w * e)
  {
  }

  lemma {:induction false} UnscaledStep(base: int, w: int, e: int)
    requires base != 0
    ensures I.FloorDiv((base * w) * e, base) == I.FloorDiv(base * w, base) * e
  {
    Regroup(base, w, e);
    I.ExactQuotient(base, w * e);
    I.ExactQuotient(base, w);
  }

  /** Each scale of a stack is a multiple of the innermost. */
  lemma {:induction false} StackMultiple(args: seq<Split>, q: seq<nat>, i: nat) returns (w: int)
    requires StackedBy(args, q) && i < |q|
    ensures args[q[i]].scale == args[q[|q| - 1]].scale * w
    decreases |q| - i
  {
    if i == |q| - 1 {
      w := 1;
    } else {
      var v := StackMultiple(args, q, i + 1);
      StackStep(args, q, i);
      w := v * args[q[i + 1]].extent;
      Regroup(args[q[|q| - 1]].scale, v, args[q[i + 1]].extent);
    }
  }

  lemma {:induction false} FusionExact(args: seq<Split>, q: seq<nat>)
    requires StackedBy(args, q)
    ensures ExactArgs(FusionOf(args, q).args)
  {
    var out, base, n := FusionOf(args, q).args, args[q[|q| - 1]].scale, |q| - 1;
    forall i | 0 <= i < n ensures out[i].scale == out[i + 1].scale * out[i + 1].extent {
      var w := StackMultiple(args, q, i + 1);
      StackStep(args, q, i);
      UnscaledStep(base, w, args[q[i + 1]].extent);
    }
    I.ExactQuotient(base, 1);
  }

  lemma {:induction false} StackFused(
    args: seq<Split>, q: seq<nat>, picks: seq<nat>, f: Fusion, bijective: bool, bound: nat)
    requires StackedBy(args, q) && Wide(args) && Taken(args, picks, bijective) && MadeOf(args, picks, f)
    requires |f.args| == |args| && Fuses(args, f, bijective, bound)
    ensures f == FusionOf(args, q)
  {
    TakenFollows(args, q, picks, bijective);
    assert picks == q;
    assert f.args == FusionOf(args, q).args;
    FusionExact(args, q);
    ExactSpans(f.args);
    WeightPositive(f.args);
    SpansOnce(f.args, f.extent, Weight(f.args));
  }

  lemma {:induction false} StackResult(args: seq<Split>, bijective: bool, bound: nat, f: Option<Fusion>)
    requires f.Some? ==> Fuses(args, f.value, bijective, bound) && |f.value.args| == |args|
    requires f.Some? ==> exists picks :: Taken(args, picks, bijective) && MadeOf(args, picks, f.value)
    requires f.None? && args != [] ==> exists picks :: Stuck(args, picks, bijective)
    ensures bijective && f.Some? ==> Stacks(args)
    ensures Wide(args) && Stacks(args) ==> f.Some?
    ensures Wide(args) ==> forall q :: StackedBy(args, q) ==> f == Some(FusionOf(args, q))
  {
    if f.Some? {
      var picks :| Taken(args, picks, bijective) && MadeOf(args, picks, f.value);
      if bijective {
        TakenStacks(args, picks);
        assert StackedBy(args, picks);
      }
      if Wide(args) {
        forall q | StackedBy(args, q) ensures f.value == FusionOf(args, q) {
          StackFused(args, q, picks, f.value, bijective, bound);
        }
      }
    } else if Wide(args) {
      forall q, picks | StackedBy(args, q) ensures !Stuck(args, picks, bijective) {
        StackNotStuck(args, q, picks, bijective);
      }
    }
  }

  datatype FuseResult = Merged(args: seq<Split>) | AsOne(f: Fusion)

  method TryFuseIters(args: seq<Split>, bijective: bool, allowEarlySkip: bool, ghost bound: nat)
    returns (r: Option<FuseResult>)
    requires ArgsOk(args, bound)
    ensures r.Some? && r.value.Merged? ==>
      |r.value.args| <= 1 && ArgsOk(r.value.args, bound) &&
        forall x: Vals :: TermSum(r.value.args, x) == TermSum(args, x)
    ensures r.Some? && r.value.Merged? ==> KeepsSlices(args, r.value.args)
    ensures r.Some? && r.value.AsOne? ==> Fuses(args, r.value.f, bijective, bound)
    ensures MarksDiffer(args) && args != [] && r.None? ==> exists picks :: Stuck(args, picks, bijective)
    ensures MarksDiffer(args) && bijective && r.Some? ==> Stacks(args)
    ensures MarksDiffer(args) && Wide(args) ==>
      forall q :: StackedBy(args, q) ==> r == Some(AsOne(FusionOf(args, q)))
  {
    var expr := args;
    var combined := TryCombineSplitFromSameSource(args, bound);
    if combined.Some? {
      expr := combined.value;
      if |expr| <= 1 && allowEarlySkip {
        return Some(Merged(expr));
      }
    }
    var f := FuseArgs(expr, bijective, bound);
    if MarksDiffer(args) { StackResult(args, bijective, bound, f); }
    if f.None? {
      return None;
    }
    r := Some(AsOne(f.value));
  }

  /** Free digits hit each value of an exactly fused iterator once. */
  lemma {:induction false} ExactOnce(args: seq<Split>, u: seq<int>, v: seq<int>)
    requires AllValid(args) && ExactArgs(args) && Fits(args, u) && Fits(args, v) && Total(args, u) == Total(args, v)
    ensures u == v
  {
    if args != [] {
      forall i | 0 <= i < |args|
        ensures u[i] == v[i]
      {
        TotalDigit(args, u, i);
        TotalDigit(args, v, i);
      }
    }
  }
}
