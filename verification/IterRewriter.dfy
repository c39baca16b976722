// Rewriting an index expression into sums of splits, and converting sums of splits back.
module IterRewriter {
  import opened Expr
  import opened Radix
  import opened SplitCover
  import opened FuseDigits
  import opened SplitSum
  import opened SplitGrain
  import opened EvenDivisions
  import opened FuseIters
  import opened IterDivide
  import opened IterMap
  import I = IntOperator

  // ----- values of marks and of rewritten expressions -----

  predicate MarksOk(marks: seq<Mark>) {
    forall k :: 0 <= k < |marks| ==>
      marks[k].extent > 0 && (marks[k].source.Fused? ==> ArgsOk(marks[k].source.sum.args, k))
  }

  function SourceVal(source: Source, env: Env, x: Vals): int {
    match source
    case Input(v) => Lookup(env, v)
    case Fused(sum) => TermSum(sum.args, x) + sum.base
  }

  /** The values of all marks, in order. */
  function Values(marks: seq<Mark>, env: Env): (x: Vals)
    ensures |x| == |marks|
  {
    if marks == [] then []
    else
      var x := Values(marks[..|marks| - 1], env);
      x + [SourceVal(marks[|marks| - 1].source, env, x)]
  }

  lemma {:induction false} ValuesPrefix(marks: seq<Mark>, env: Env, n: nat)
    requires n <= |marks|
    ensures Values(marks[..n], env) == Values(marks, env)[..n]
  {
    if n == |marks| {
      assert marks[..n] == marks;
    } else {
      var m := marks[..|marks| - 1];
      assert m[..n] == marks[..n];
      ValuesPrefix(m, env, n);
    }
  }

  /** Terms depend only on the marks they read. */
  lemma {:induction false} TermSumPrefix(args: seq<Split>, x: Vals, n: nat)
    requires n <= |x| && ArgsOk(args, n)
    ensures TermSum(args, x[..n]) == TermSum(args, x)
  {
    if args != [] { TermSumPrefix(args[1..], x, n); }
  }

  ghost predicate InputsFit(marks: seq<Mark>, env: Env) {
    forall k :: 0 <= k < |marks| && marks[k].source.Input? ==> 0 <= Lookup(env, marks[k].source.v) < marks[k].extent
  }

  ghost predicate AllFit(marks: seq<Mark>, env: Env) {
    forall k :: 0 <= k < |marks| ==> 0 <= Values(marks, env)[k] < marks[k].extent
  }

  /** Marks that stay in range whenever the loop variables do. */
  ghost predicate Ranged(marks: seq<Mark>) {
    forall env :: InputsFit(marks, env) ==> AllFit(marks, env)
  }

  /** A constant, a split, or a sum. */
  datatype IterVal = Num(c: int) | One(split: Split) | Many(sum: Sum)

  predicate ValOk(r: IterVal, bound: nat) {
    match r
    case Num(_) => true
    case One(s) => s.Valid() && s.mark < bound
    case Many(sum) => ArgsOk(sum.args, bound)
  }

  function ValAt(r: IterVal, x: Vals): int {
    match r
    case Num(c) => c
    case One(s) => Term(s, x)
    case Many(sum) => TermSum(sum.args, x) + sum.base
  }

  lemma {:induction false} ValPrefix(r: IterVal, marks: seq<Mark>, marks': seq<Mark>, env: Env)
    requires marks <= marks' && ValOk(r, |marks|)
    ensures ValAt(r, Values(marks', env)) == ValAt(r, Values(marks, env))
  {
    ValuesPrefix(marks', env, |marks|);
    assert marks'[..|marks|] == marks;
    if r.Many? { TermSumPrefix(r.sum.args, Values(marks', env), |marks|); }
  }

  function ToSum(r: IterVal): Sum {
    match r
    case Num(c) => Sum([], c)
    case One(s) => Sum([s], 0)
    case Many(sum) => sum
  }

  lemma {:induction false} ToSumValue(r: IterVal, x: Vals)
    ensures ValAt(Many(ToSum(r)), x) == ValAt(r, x)
  {
    if r.One? { assert TermSum([r.split], x) == Term(r.split, x) + TermSum([], x); }
  }

  /** Every split of r is sliced. */
  ghost predicate ValSliced(ext: seq<int>, g: int, r: IterVal) {
    match r
    case Num(_) => true
    case One(s) => Sliced(ext, g, s)
    case Many(sum) => AllSliced(ext, g, sum.args)
  }

  function Exts(marks: seq<Mark>): (ext: seq<int>)
    ensures |ext| == |marks| && forall k :: 0 <= k < |marks| ==> ext[k] == marks[k].extent
  {
    seq(|marks|, k requires 0 <= k < |marks| => marks[k].extent)
  }

  lemma {:induction false} SlicedLater(marks: seq<Mark>, marks': seq<Mark>, g: int, r: IterVal)
    requires marks <= marks' && ValSliced(Exts(marks), g, r)
    ensures ValSliced(Exts(marks'), g, r)
  {
    assert forall k :: 0 <= k < |marks| ==> Exts(marks')[k] == Exts(marks)[k];
  }

  lemma {:induction false} ValSlicedLess(ext: seq<int>, g: int, g': int, r: IterVal)
    requires ValSliced(ext, g, r) && I.Divides(g', g)
    ensures ValSliced(ext, g', r)
  {
    match r
    case Num(_) =>
    case One(s) => SlicedLess(ext, g, g', s);
    case Many(sum) =>
      forall i | 0 <= i < |sum.args| ensures Sliced(ext, g', sum.args[i]) { SlicedLess(ext, g, g', sum.args[i]); }
  }

  // ----- sums -----

  lemma {:induction false} TermSumAppend(a: seq<Split>, s: Split, x: Vals)
    ensures TermSum(a + [s], x) == TermSum(a, x) + Term(s, x)
  {
    if a == [] {
      assert [s][1..] == [] && a + [s] == [s];
    } else {
      assert (a + [s])[1..] == a[1..] + [s];
      TermSumAppend(a[1..], s, x);
    }
  }

  lemma {:induction false} TermSumUpdate(a: seq<Split>, i: nat, s: Split, x: Vals)
    requires i < |a|
    ensures TermSum(a[i := s], x) == TermSum(a, x) - Term(a[i], x) + Term(s, x)
  {
    if i == 0 {
      assert a[i := s][1..] == a[1..];
    } else {
      assert a[i := s][1..] == a[1..][i - 1 := s];
      TermSumUpdate(a[1..], i - 1, s, x);
    }
  }

  lemma {:induction false} ScaleAdds(l: Split, r: Split, t: Split, sign: int, x: Vals)
    requires r.Valid() && l == r.(scale := l.scale) && t == r.(scale := l.scale + sign * r.scale)
    ensures Term(t, x) == Term(l, x) + sign * Term(r, x)
  {
    var d := r.Digit(At(x, r.mark));
    assert (l.scale + sign * r.scale) * d == l.scale * d + sign * (r.scale * d);
  }

  /** The same digit of the same iterator. */
  predicate Like(l: Split, s: Split) {
    l.mark == s.mark && l.lower == s.lower && l.extent == s.extent
  }

  /** The args with one more, joined to the first like one. */
  function Added(args: seq<Split>, s: Split, sign: int): seq<Split> {
    if args == [] then [s.(scale := sign * s.scale)]
    else if Like(args[0], s) then [s.(scale := args[0].scale + sign * s.scale)] + args[1..]
    else [args[0]] + Added(args[1..], s, sign)
  }

  function AddedAll(args: seq<Split>, more: seq<Split>, sign: int): seq<Split> {
    if more == [] then args
    else Added(AddedAll(args, more[..|more| - 1], sign), more[|more| - 1], sign)
  }

  lemma {:induction false} AddedHere(args: seq<Split>, s: Split, sign: int, i: nat)
    requires i < |args| && Added(args, s, sign) == args[..i] + Added(args[i..], s, sign)
    ensures Like(args[i], s) ==> Added(args, s, sign) == args[i := s.(scale := args[i].scale + sign * s.scale)]
    ensures !Like(args[i], s) ==> Added(args, s, sign) == args[..i + 1] + Added(args[i + 1..], s, sign)
  {
    assert args[i..][1..] == args[i + 1..] && args[..i] + [args[i]] == args[..i + 1];
  }

  lemma {:induction false} AddedLone(args: seq<Split>, s: Split, sign: int)
    ensures AddedAll(args, [s], sign) == Added(args, s, sign)
  {
    assert [s][..0] == [];
    assert AddedAll(args, [s], sign) == Added(AddedAll(args, [s][..0], sign), s, sign);
  }

  /** Adds the split, or subtracts it, joining it to a like one when there is one. */
  method AddSplit(sum: Sum, s: Split, sign: int, ghost bound: nat) returns (r: Sum)
    requires ArgsOk(sum.args, bound) && s.Valid() && s.mark < bound && (sign == 1 || sign == -1)
    ensures ArgsOk(r.args, bound)
    ensures forall x: Vals :: ValAt(Many(r), x) == ValAt(Many(sum), x) + sign * Term(s, x)
    ensures forall ext: seq<int>, g: int :: AllSliced(ext, g, sum.args) && Sliced(ext, g, s) ==>
      AllSliced(ext, g, r.args)
    ensures r == Sum(Added(sum.args, s, sign), sum.base)
  {
    for i := 0 to |sum.args|
      invariant Added(sum.args, s, sign) == sum.args[..i] + Added(sum.args[i..], s, sign)
    {
      var l := sum.args[i];
      AddedHere(sum.args, s, sign, i);
      if Like(l, s) {
        var t := s.(scale := l.scale + sign * s.scale);
        r := sum.(args := sum.args[i := t]);
        forall ext: seq<int>, g: int | AllSliced(ext, g, sum.args) && Sliced(ext, g, s) ensures Sliced(ext, g, t) {
          SlicedJoin(ext, g, l, s, sign);
        }
        forall x: Vals ensures ValAt(Many(r), x) == ValAt(Many(sum), x) + sign * Term(s, x) {
          ScaleAdds(l, s, t, sign, x);
          TermSumUpdate(sum.args, i, t, x);
        }
        return;
      }
    }
    var t := s.(scale := sign * s.scale);
    r := sum.(args := sum.args + [t]);
    forall ext: seq<int>, g: int | Sliced(ext, g, s) ensures Sliced(ext, g, t) { SlicedScale(ext, g, s, sign); }
    forall x: Vals ensures ValAt(Many(r), x) == ValAt(Many(sum), x) + sign * Term(s, x) {
      ScaleAdds(s.(scale := 0), s, t, sign, x);
      TermSumAppend(sum.args, t, x);
    }
  }

  method AddSum(lhs: Sum, rhs: Sum, sign: int, ghost bound: nat) returns (r: Sum)
    requires ArgsOk(lhs.args, bound) && ArgsOk(rhs.args, bound) && (sign == 1 || sign == -1)
    ensures ArgsOk(r.args, bound)
    ensures forall x: Vals :: ValAt(Many(r), x) == ValAt(Many(lhs), x) + sign * ValAt(Many(rhs), x)
    ensures forall ext: seq<int>, g: int :: AllSliced(ext, g, lhs.args) && AllSliced(ext, g, rhs.args) ==>
      AllSliced(ext, g, r.args)
    ensures r == Sum(AddedAll(lhs.args, rhs.args, sign), lhs.base + sign * rhs.base)
  {
    r := lhs;
    for i := 0 to |rhs.args|
      invariant ArgsOk(r.args, bound)
      invariant forall x: Vals :: ValAt(Many(r), x) == ValAt(Many(lhs), x) + sign * TermSum(rhs.args[..i], x)
      invariant r == Sum(AddedAll(lhs.args, rhs.args[..i], sign), lhs.base)
      invariant forall ext: seq<int>, g: int :: AllSliced(ext, g, lhs.args) && AllSliced(ext, g, rhs.args) ==>
        AllSliced(ext, g, r.args)
    {
      var r1 := AddSplit(r, rhs.args[i], sign, bound);
      forall x: Vals ensures ValAt(Many(r1), x) == ValAt(Many(lhs), x) + sign * TermSum(rhs.args[..i + 1], x) {
        TermSumAppend(rhs.args[..i], rhs.args[i], x);
        assert rhs.args[..i + 1] == rhs.args[..i] + [rhs.args[i]];
        assert ValAt(Many(r1), x) == ValAt(Many(r), x) + sign * Term(rhs.args[i], x);
      }
      assert rhs.args[..i + 1][..i] == rhs.args[..i];
      r := r1;
    }
    assert rhs.args[..|rhs.args|] == rhs.args;
    ghost var r0 := r;
    r := r.(base := r.base + sign * rhs.base);
    forall x: Vals ensures ValAt(Many(r), x) == ValAt(Many(lhs), x) + sign * ValAt(Many(rhs), x) {
      assert ValAt(Many(r0), x) == ValAt(Many(lhs), x) + sign * TermSum(rhs.args, x);
    }
  }

  function ScaleArgs(args: seq<Split>, c: int): (r: seq<Split>)
    ensures |r| == |args| && forall i :: 0 <= i < |args| ==> r[i] == args[i].(scale := args[i].scale * c)
  {
    seq(|args|, i requires 0 <= i < |args| => args[i].(scale := args[i].scale * c))
  }

  lemma {:induction false} ScaleArgsValue(args: seq<Split>, c: int, x: Vals)
    ensures TermSum(ScaleArgs(args, c), x) == c * TermSum(args, x)
  {
    if args != [] {
      ScaleArgsValue(args[1..], c, x);
      assert ScaleArgs(args, c)[1..] == ScaleArgs(args[1..], c);
      ScaleTerm(args[0].(scale := args[0].scale * c), args[0], c, x);
      Factor(c, Term(args[0], x), TermSum(args[1..], x));
    }
  }

  /** Multiplies every scale and the base in turn. */
  method MulSum(sum: Sum, c: int) returns (r: Sum)
    ensures r == Sum(ScaleArgs(sum.args, c), sum.base * c)
    ensures forall x: Vals :: ValAt(Many(r), x) == c * ValAt(Many(sum), x)
  {
    r := sum;
    for i := 0 to |sum.args|
      invariant |r.args| == |sum.args| && r.base == sum.base
      invariant forall j :: 0 <= j < |sum.args| ==>
        r.args[j] == if j < i then sum.args[j].(scale := sum.args[j].scale * c) else sum.args[j]
    {
      r := r.(args := r.args[i := r.args[i].(scale := r.args[i].scale * c)]);
    }
    r := r.(base := r.base * c);
    assert r.args == ScaleArgs(sum.args, c);
    forall x: Vals ensures ValAt(Many(r), x) == c * ValAt(Many(sum), x) {
      ScaleArgsValue(sum.args, c, x);
      Factor(c, TermSum(sum.args, x), sum.base);
    }
  }

  // ----- new marks -----

  lemma {:induction false} TermSumIsTotal(args: seq<Split>, x: Vals) returns (u: seq<int>)
    requires AllValid(args)
    ensures Fits(args, u) && TermSum(args, x) == Total(args, u)
  {
    if args == [] {
      u := [];
    } else {
      var v := TermSumIsTotal(args[1..], x);
      u := [args[0].Digit(At(x, args[0].mark))] + v;
      assert u[1..] == v;
    }
  }

  /** A mark whose sum always falls below its extent may be added. */
  lemma {:induction false} AddMark(marks: seq<Mark>, m: Mark)
    requires MarksOk(marks) && Ranged(marks) && m.extent > 0 && m.source.Fused? && ArgsOk(m.source.sum.args, |marks|)
    requires m.source.sum.base == 0 && forall u: seq<int> :: Fits(m.source.sum.args, u) ==>
      0 <= Total(m.source.sum.args, u) < m.extent
    ensures MarksOk(marks + [m]) && Ranged(marks + [m])
    ensures forall env ::
      Values(marks + [m], env) == Values(marks, env) + [TermSum(m.source.sum.args, Values(marks, env))]
  {
    var all := marks + [m];
    assert all[..|marks|] == marks;
    forall k | 0 <= k < |all|
      ensures all[k].extent > 0 && (all[k].source.Fused? ==> ArgsOk(all[k].source.sum.args, k))
    {
      if k < |marks| { assert all[k] == marks[k]; }
    }
    forall env
      ensures Values(all, env) == Values(marks, env) + [TermSum(m.source.sum.args, Values(marks, env))]
    {
    }
    forall env | InputsFit(all, env)
      ensures AllFit(all, env)
    {
      forall k | 0 <= k < |marks| && marks[k].source.Input?
        ensures 0 <= Lookup(env, marks[k].source.v) < marks[k].extent
      {
        assert all[k] == marks[k];
      }
      assert AllFit(marks, env);
      var u := TermSumIsTotal(m.source.sum.args, Values(marks, env));
      forall k | 0 <= k < |all|
        ensures 0 <= Values(all, env)[k] < all[k].extent
      {
        if k < |marks| { assert Values(all, env)[k] == Values(marks, env)[k] && all[k] == marks[k]; }
      }
    }
  }

  /** The whole mark, scaled: its split has the mark's value. */
  lemma {:induction false} WholeMark(marks: seq<Mark>, k: nat, scale: int, env: Env)
    requires MarksOk(marks) && k < |marks| && AllFit(marks, env)
    ensures Term(Split(k, 1, marks[k].extent, scale), Values(marks, env)) == scale * Values(marks, env)[k]
  {
    var v := Values(marks, env)[k];
    DivUnique(v, 1, v, 0);
    DivUnique(v, marks[k].extent, 0, v);
  }

  lemma {:induction false} MarkValue(marks: seq<Mark>, k: nat, env: Env)
    requires MarksOk(marks) && k < |marks|
    ensures Values(marks, env)[k] == SourceVal(marks[k].source, env, Values(marks, env))
  {
    var x := Values(marks, env);
    ValuesPrefix(marks, env, k);
    ValuesPrefix(marks, env, k + 1);
    assert marks[..k + 1][..k] == marks[..k];
    assert x[..k + 1][k] == x[k];
    if marks[k].source.Fused? { TermSumPrefix(marks[k].source.sum.args, x, k); }
  }

  /** r and r' have one value whenever the loop variables are in range. */
  ghost predicate SameValue(marks: seq<Mark>, r: IterVal, r': IterVal) {
    forall env :: InputsFit(marks, env) ==> ValAt(r, Values(marks, env)) == ValAt(r', Values(marks, env))
  }

  ghost predicate Means(marks: seq<Mark>, r: IterVal, e: Expr) {
    forall env :: InputsFit(marks, env) ==> ValAt(r, Values(marks, env)) == Eval(e, env)
  }

  /** Only fused marks are ever added. */
  ghost predicate Extends(marks: seq<Mark>, marks': seq<Mark>) {
    marks <= marks' && forall k :: |marks| <= k < |marks'| ==> marks'[k].source.Fused?
  }

  lemma {:induction false} ExtendsFit(marks: seq<Mark>, marks': seq<Mark>, env: Env)
    requires Extends(marks, marks')
    ensures InputsFit(marks, env) <==> InputsFit(marks', env)
  {
    assert forall k :: 0 <= k < |marks| ==> marks'[k] == marks[k];
  }

  lemma {:induction false} MeansLater(marks: seq<Mark>, marks': seq<Mark>, r: IterVal, e: Expr)
    requires Extends(marks, marks') && ValOk(r, |marks|) && Means(marks, r, e)
    ensures Means(marks', r, e)
  {
    forall env | InputsFit(marks', env)
      ensures ValAt(r, Values(marks', env)) == Eval(e, env)
    {
      ExtendsFit(marks, marks', env);
      ValPrefix(r, marks, marks', env);
    }
  }

  /** The mark's sum is a mixed-radix number over its args, and the extent counts them. */
  predicate ExactMark(m: Mark) {
    m.source.Fused? ==>
      m.source.sum.base == 0 && m.source.sum.args != [] && ExactArgs(m.source.sum.args) &&
        m.extent == Weight(m.source.sum.args)
  }

  predicate ExactMarks(marks: seq<Mark>) {
    forall k :: 0 <= k < |marks| ==> ExactMark(marks[k])
  }

  predicate FuseMapOk(marks: seq<Mark>, fuse: map<seq<Split>, nat>) {
    forall a :: a in fuse ==> fuse[a] < |marks| && marks[fuse[a]].source == Fused(Sum(a, 0))
  }

  lemma {:induction false} FusedSplitMeans(marks: seq<Mark>, k: nat, sum: Sum, f: Fusion, bijective: bool, bound: nat)
    requires MarksOk(marks) && Ranged(marks) && k < |marks| && marks[k].source == Fused(Sum(f.args, 0))
    requires Fuses(sum.args, f, bijective, bound)
    ensures SameValue(marks, Many(Sum([Split(k, 1, marks[k].extent, f.scale)], sum.base)), Many(sum))
  {
    forall env | InputsFit(marks, env)
      ensures ValAt(Many(Sum([Split(k, 1, marks[k].extent, f.scale)], sum.base)), Values(marks, env)) ==
        ValAt(Many(sum), Values(marks, env))
    {
      var x, s := Values(marks, env), Split(k, 1, marks[k].extent, f.scale);
      WholeMark(marks, k, f.scale, env);
      MarkValue(marks, k, env);
      assert TermSum([s], x) == Term(s, x) + TermSum([], x);
      assert TermSum(sum.args, x) == f.scale * TermSum(f.args, x);
    }
  }

  // ----- one division -----

  /** The unpadded quotient is right for every value of the source. */
  predicate QuotientSite(s: Split, base: int, rhs: int, sourceExtent: int)
    requires s.Valid() && rhs > 0
  {
    base % rhs == 0 || Reach(s, sourceExtent) <= rhs - base % rhs
  }

  /** The unpadded remainder is right for every value of the source. */
  predicate RemainderSite(s: Split, base: int, rhs: int, sourceExtent: int)
    requires s.Valid() && rhs > 0
  {
    base % rhs == 0 && (s.extent % rhs == 0 || CeilDiv(sourceExtent, s.lower) <= s.extent)
  }

  /** A division met by the rewriter: a split of scale one or a remainder's split, a base, and a divisor. */
  datatype Site = Site(split: Split, base: int, rhs: int, quotient: bool, sourceExtent: int)

  /** The division is right for every value of its source, with no padding. */
  predicate Right(s: Site) {
    && s.split.Valid() && s.rhs > 0
    && if s.quotient then QuotientSite(s.split, s.base, s.rhs, s.sourceExtent)
       else RemainderSite(s.split, s.base, s.rhs, s.sourceExtent)
  }

  ghost predicate AllRight(sites: seq<Site>) {
    forall i :: 0 <= i < |sites| ==> Right(sites[i])
  }

  /** The number of divisions an expression holds, and so the most sites it can give rise to. */
  function Divisions(e: Expr): nat {
    match e
    case FDiv(x, y) => Divisions(x) + Divisions(y) + 1
    case FMod(x, y) => Divisions(x) + Divisions(y) + 1
    case Add(x, y) => Divisions(x) + Divisions(y)
    case Sub(x, y) => Divisions(x) + Divisions(y)
    case Mul(x, y) => Divisions(x) + Divisions(y)
    case _ => 0
  }

  function WithBase(s: Split, base: int): IterVal {
    if base == 0 then One(s) else Many(Sum([s], base))
  }

  lemma {:induction false} WithBaseValue(s: Split, base: int, x: Vals)
    ensures ValAt(WithBase(s, base), x) == Term(s, x) + base
  {
    assert TermSum([s], x) == Term(s, x) + TermSum([], x);
  }

  function NewMarks(d: Divided): seq<Mark> {
    if d.over.Some? then [Mark(Source.Fused(Sum([d.over.value], 0)), d.over.value.extent)] else []
  }

  /** The marks a quotient adds are in order, whether or not it is right. */
  lemma {:induction false} QuotientMarks(marks: seq<Mark>, s: Split, leftPad: int, base: int, rhs: int)
    requires MarksOk(marks) && Ranged(marks) && s.Valid() && s.scale == 1 && s.mark < |marks| && rhs > 0
    ensures var d := DivideUnit(s, leftPad, base, rhs, marks[s.mark].extent, |marks|);
      && MarksOk(marks + NewMarks(d)) && Ranged(marks + NewMarks(d)) && Extends(marks, marks + NewMarks(d))
      && d.split.Valid() && d.split.mark < |marks + NewMarks(d)|
      && (ExactMarks(marks) ==> ExactMarks(marks + NewMarks(d)))
  {
    var d := DivideUnit(s, leftPad, base, rhs, marks[s.mark].extent, |marks|);
    UnitQuotient(s, leftPad, base, rhs, 0, marks[s.mark].extent, |marks|);
    if d.over.Some? {
      forall u: seq<int> | Fits([s], u)
        ensures 0 <= Total([s], u) < s.extent
      {
        assert Total([s], u) == s.scale * u[0] + Total([], u[1..]);
      }
      AddMark(marks, NewMarks(d)[0]);
      assert Weight([s]) == s.extent * Weight([s][1..]);
      assert ExactMark(NewMarks(d)[0]);
    } else {
      assert marks + NewMarks(d) == marks;
    }
  }

  /** The mark added over a split has the split's value. */
  lemma {:induction false} OverValue(marks: seq<Mark>, s: Split, d: Divided, env: Env)
    requires MarksOk(marks + NewMarks(d)) && s.Valid() && s.mark < |marks| && d.over == Some(s)
    ensures Values(marks + NewMarks(d), env)[|marks|] == Term(s, Values(marks, env))
  {
    var x' := Values(marks + NewMarks(d), env);
    MarkValue(marks + NewMarks(d), |marks|, env);
    assert (marks + NewMarks(d))[|marks|] == NewMarks(d)[0];
    assert TermSum([s], x') == Term(s, x') + TermSum([], x');
    ValPrefix(One(s), marks, marks + NewMarks(d), env);
  }

  lemma {:induction false} QuotientMeans(marks: seq<Mark>, s: Split, base: int, rhs: int, env: Env)
    requires MarksOk(marks) && Ranged(marks) && s.Valid() && s.scale == 1 && s.mark < |marks| && rhs > 0
    requires QuotientSite(s, base, rhs, marks[s.mark].extent) && InputsFit(marks, env)
    ensures var d := DivideUnit(s, base % rhs, base, rhs, marks[s.mark].extent, |marks|);
      ValAt(WithBase(d.split, d.base), Values(marks + NewMarks(d), env)) == (Term(s, Values(marks, env)) + base) / rhs
  {
    var e, x := marks[s.mark].extent, Values(marks, env);
    var d := DivideUnit(s, base % rhs, base, rhs, e, |marks|);
    var x' := Values(marks + NewMarks(d), env);
    QuotientMarks(marks, s, base % rhs, base, rhs);
    WithBaseValue(d.split, d.base, x');
    assert AllFit(marks, env);
    UnitQuotient(s, base % rhs, base, rhs, x[s.mark], e, |marks|);
    QuotientExactIff(s, base, rhs, e);
    assert QuotientValue(s.Digit(x[s.mark]), base, rhs) == (s.Digit(x[s.mark]) + base) / rhs;
    if d.over.Some? {
      OverValue(marks, s, d, env);
    } else {
      assert marks + NewMarks(d) == marks;
    }
  }

  lemma {:induction false} RemainderMeans(marks: seq<Mark>, s: Split, base: int, rhs: int, env: Env)
    requires MarksOk(marks) && Ranged(marks) && s.Valid() && s.mark < |marks| && rhs > 0
    requires RemainderSite(s, base, rhs, marks[s.mark].extent) && InputsFit(marks, env)
    ensures RemainderSplit(s, rhs).Valid()
    ensures var x := Values(marks, env);
      Term(RemainderSplit(s, rhs), x) == s.scale * ((s.Digit(x[s.mark]) + base) % rhs)
  {
    assert AllFit(marks, env);
    RemainderRight(s, base, rhs, marks[s.mark].extent, Values(marks, env)[s.mark]);
  }

  function AddedVals(a: IterVal, b: IterVal, sign: int): IterVal {
    if a.Num? && b.Num? then Num(a.c + sign * b.c)
    else
      var lhs, rhs := ToSum(a), ToSum(b);
      Many(Sum(AddedAll(lhs.args, rhs.args, sign), lhs.base + sign * rhs.base))
  }

  method AddVals(a: IterVal, b: IterVal, sign: int, ghost bound: nat) returns (r: IterVal)
    requires ValOk(a, bound) && ValOk(b, bound) && (sign == 1 || sign == -1)
    ensures ValOk(r, bound)
    ensures forall x: Vals :: ValAt(r, x) == ValAt(a, x) + sign * ValAt(b, x)
    ensures forall ext: seq<int>, g: int :: ValSliced(ext, g, a) && ValSliced(ext, g, b) ==> ValSliced(ext, g, r)
    ensures r == AddedVals(a, b, sign)
  {
    if a.Num? && b.Num? {
      return Num(a.c + sign * b.c);
    }
    var lhs := ToSum(a);
    var sum: Sum;
    match b {
      case Num(c) => sum := lhs.(base := lhs.base + sign * c);
      case One(s) => sum := AddSplit(lhs, s, sign, bound);
      case Many(rhs) => sum := AddSum(lhs, rhs, sign, bound);
    }
    r := Many(sum);
    if b.One? { AddedLone(lhs.args, b.split, sign); }
    forall x: Vals ensures ValAt(r, x) == ValAt(a, x) + sign * ValAt(b, x) { ToSumValue(a, x); }
  }

  lemma {:induction false} ScaledSlices(args: seq<Split>, c: int)
    ensures forall ext: seq<int>, g: int :: AllSliced(ext, g, args) ==> AllSliced(ext, g * c, ScaleArgs(args, c))
  {
    forall ext: seq<int>, g: int | AllSliced(ext, g, args) ensures AllSliced(ext, g * c, ScaleArgs(args, c)) {
      forall i | 0 <= i < |args| ensures Sliced(ext, g * c, ScaleArgs(args, c)[i]) { SlicedScale(ext, g, args[i], c); }
    }
  }

  function MulledVals(a: IterVal, b: IterVal): Option<IterVal> {
    if !a.Num? && !b.Num? then None
    else
      var v, c := if a.Num? then b else a, if a.Num? then a.c else b.c;
      Some(match v
        case Num(n) => Num(n * c)
        case One(s) => One(s.(scale := s.scale * c))
        case Many(sum) => Many(Sum(ScaleArgs(sum.args, c), sum.base * c)))
  }

  method MulVals(a: IterVal, b: IterVal, ghost bound: nat) returns (r: Option<IterVal>)
    requires ValOk(a, bound) && ValOk(b, bound)
    ensures r == MulledVals(a, b)
    ensures r.Some? ==> ValOk(r.value, bound) && forall x: Vals :: ValAt(r.value, x) == ValAt(a, x) * ValAt(b, x)
    ensures r.Some? && a.Num? ==> forall ext: seq<int>, g: int :: ValSliced(ext, g, b) ==>
      ValSliced(ext, g * a.c, r.value)
    ensures r.Some? && b.Num? ==> forall ext: seq<int>, g: int :: ValSliced(ext, g, a) ==>
      ValSliced(ext, g * b.c, r.value)
  {
    if !a.Num? && !b.Num? {
      return None;
    }
    var v, c := a, b;
    if a.Num? {
      v, c := b, a;
    }
    match v
    case Num(n) => r := Some(Num(n * c.c));
    case One(s) =>
      var t := s.(scale := s.scale * c.c);
      r := Some(One(t));
      forall ext: seq<int>, g: int | Sliced(ext, g, s) ensures Sliced(ext, g * c.c, t) { SlicedScale(ext, g, s, c.c); }
      forall x: Vals ensures ValAt(r.value, x) == ValAt(a, x) * ValAt(b, x) { ScaleTerm(t, s, c.c, x); }
    case Many(sum) =>
      var t := MulSum(sum, c.c);
      ScaledSlices(sum.args, c.c);
      r := Some(Many(t));
      forall x: Vals ensures ValAt(r.value, x) == ValAt(a, x) * ValAt(b, x) {
        assert ValAt(Many(t), x) == c.c * ValAt(Many(sum), x);
      }
  }

  ghost predicate VarsOk(marks: seq<Mark>, vars: map<VarName, IterVal>) {
    forall v :: v in vars ==>
      ValOk(vars[v], |marks|) && Means(marks, vars[v], Var(v)) && ValSliced(Exts(marks), 0, vars[v])
  }

  lemma {:induction false} VarsLater(marks: seq<Mark>, marks': seq<Mark>, vars: map<VarName, IterVal>)
    requires VarsOk(marks, vars) && Extends(marks, marks')
    ensures VarsOk(marks', vars)
  {
    forall v | v in vars
      ensures ValOk(vars[v], |marks'|) && Means(marks', vars[v], Var(v)) && ValSliced(Exts(marks'), 0, vars[v])
    {
      MeansLater(marks, marks', vars[v], Var(v));
      SlicedLater(marks, marks', 0, vars[v]);
    }
  }

  // ----- the rewriter -----

  function InputMarks(names: seq<VarName>, extents: seq<int>): (r: seq<Mark>)
    requires |names| == |extents|
    ensures |r| == |names| && forall i :: 0 <= i < |names| ==> r[i] == Mark(Input(names[i]), extents[i])
  {
    seq(|names|, i requires 0 <= i < |names| => Mark(Input(names[i]), extents[i]))
  }

  /** Each loop variable is the one digit of its iterator. */
  function InputVals(names: seq<VarName>, extents: seq<int>): map<VarName, IterVal>
    requires |names| == |extents| && forall i, j :: 0 <= i < j < |names| ==> names[i] != names[j]
  {
    map i | 0 <= i < |names| :: names[i] := One(Split(i, 1, extents[i], 1))
  }

  /** A digit divided evenly by a constant is a digit of the same iterator. */
  function QuotientStep(s: Split, c: int): (r: Option<Split>)
    ensures r.Some? ==> r.value.scale == 1 && s.scale == 1 && c > 0
  {
    if s.scale == 1 && c > 0 && s.extent % c == 0 then Some(Split(s.mark, s.lower * c, s.extent / c, 1)) else None
  }

  /** And so is a digit reduced by a constant, at the level that does not pad. */
  function RemainderStep(s: Split, c: int): (r: Option<Split>)
    ensures r.Some? ==> r.value.scale == 1 && s.scale == 1 && c > 1
  {
    if s.scale == 1 && c > 1 then Some(s.(extent := c)) else None
  }

  /** What an operation makes of its rewritten operands, where divisions are of unscaled digits by constants. */
  function StepVal(e: Expr, a: IterVal, b: IterVal): Option<IterVal> {
    match e
    case Add(_, _) => Some(AddedVals(a, b, 1))
    case Sub(_, _) => Some(AddedVals(a, b, -1))
    case Mul(_, _) => MulledVals(a, b)
    case FDiv(_, _) => if a.One? && b.Num? then AsOne(QuotientStep(a.split, b.c)) else None
    case FMod(_, _) => if a.One? && b.Num? then AsOne(RemainderStep(a.split, b.c)) else None
    case _ => None
  }

  function AsOne(s: Option<Split>): Option<IterVal> {
    if s.Some? then Some(One(s.value)) else None
  }

  /** What the expression is rewritten to, without padding and without a new iterator on the way. */
  function ValOf(vars: map<VarName, IterVal>, e: Expr): Option<IterVal> {
    match e
    case Const(c) => Some(Num(c))
    case Var(v) => if v in vars then Some(vars[v]) else None
    case Add(x, y) => OpVal(e, ValOf(vars, x), ValOf(vars, y))
    case Sub(x, y) => OpVal(e, ValOf(vars, x), ValOf(vars, y))
    case Mul(x, y) => OpVal(e, ValOf(vars, x), ValOf(vars, y))
    case FDiv(x, y) => OpVal(e, ValOf(vars, x), ValOf(vars, y))
    case FMod(x, y) => OpVal(e, ValOf(vars, x), ValOf(vars, y))
    case _ => None
  }

  function OpVal(e: Expr, a: Option<IterVal>, b: Option<IterVal>): Option<IterVal> {
    if a.Some? && b.Some? then StepVal(e, a.value, b.value) else None
  }

  /** A remainder divides the extent of the digit it reduces, so that a first pass finds nothing to pad. */
  predicate EvenStep(e: Expr, a: IterVal, b: IterVal) {
    e.FMod? && a.One? && b.Num? && b.c > 0 ==> a.split.extent % b.c == 0
  }

  predicate EvenSteps(vars: map<VarName, IterVal>, e: Expr) {
    (e.Add? || e.Sub? || e.Mul? || e.FDiv? || e.FMod?) ==>
      && EvenSteps(vars, e.a) && EvenSteps(vars, e.b)
      && (ValOf(vars, e.a).Some? && ValOf(vars, e.b).Some? ==>
            EvenStep(e, ValOf(vars, e.a).value, ValOf(vars, e.b).value))
  }

  lemma {:induction false} OperationParts(vars: map<VarName, IterVal>, x: Expr, y: Expr, e: Expr)
    requires e == Add(x, y) || e == Sub(x, y) || e == Mul(x, y) || e == FDiv(x, y) || e == FMod(x, y)
    ensures ValOf(vars, e) == OpVal(e, ValOf(vars, x), ValOf(vars, y))
    ensures EvenSteps(vars, e) ==> EvenSteps(vars, x) && EvenSteps(vars, y)
    ensures EvenSteps(vars, e) && ValOf(vars, x).Some? && ValOf(vars, y).Some? ==>
      EvenStep(e, ValOf(vars, x).value, ValOf(vars, y).value)
    ensures Even(e) ==> Even(x) && Even(y) && EvenHere(e)
    ensures Divisions(e) == Divisions(x) + Divisions(y) + if e.FDiv? || e.FMod? then 1 else 0
  {
  }

  // ----- stacks of digits -----

  /** Digits of different iterators, none of them trivial, that continue each other. */
  ghost predicate IsStack(sum: Sum) {
    MarksDiffer(sum.args) && Wide(sum.args) && Stacks(sum.args)
  }

  ghost function StackOf(sum: Sum): Fusion
    requires IsStack(sum)
  {
    var q :| StackedBy(sum.args, q);
    FusionOf(sum.args, q)
  }

  /** The iterator a stack is fused into, and the index it is. */
  function MarkOf(f: Fusion): Mark {
    Mark(Source.Fused(Sum(f.args, 0)), f.extent)
  }

  function OutputOf(f: Fusion, base: int, k: nat): Sum {
    Sum([Split(k, 1, f.extent, f.scale)], base)
  }

  /** A stack not met before is given an iterator of its own. */
  ghost predicate FreshStack(sum: Sum, marks0: seq<Mark>, fuseMap0: map<seq<Split>, nat>, r: Option<Sum>,
                             marks: seq<Mark>, fuseMap: map<seq<Split>, nat>) {
    IsStack(sum) && StackOf(sum).args !in fuseMap0 ==>
      && r == Some(OutputOf(StackOf(sum), sum.base, |marks0|)) && marks == marks0 + [MarkOf(StackOf(sum))]
      && fuseMap == fuseMap0[StackOf(sum).args := |marks0|]
  }

  lemma {:induction false} EvenQuotientStep(s: Split, c: int, sourceExtent: int, next: nat)
    requires QuotientStep(s, c).Some?
    ensures DivideUnit(s, 0, 0, c, sourceExtent, next) == Divided(None, QuotientStep(s, c).value, 0)
  {
    EvenEither(s.extent, c);
    I.ExactDiv(c, s.extent);
  }

  lemma {:induction false} InputsOk(marks: seq<Mark>)
    requires forall k :: 0 <= k < |marks| ==> marks[k].extent > 0 && marks[k].source.Input?
    ensures MarksOk(marks) && Ranged(marks)
  {
    forall env | InputsFit(marks, env) ensures AllFit(marks, env) {
      forall k | 0 <= k < |marks| ensures 0 <= Values(marks, env)[k] < marks[k].extent { MarkValue(marks, k, env); }
    }
  }

  lemma {:induction false} InputMeans(marks: seq<Mark>, k: nat, v: VarName)
    requires MarksOk(marks) && Ranged(marks) && k < |marks| && marks[k].source == Input(v)
    ensures Means(marks, One(Split(k, 1, marks[k].extent, 1)), Var(v))
  {
    forall env | InputsFit(marks, env)
      ensures ValAt(One(Split(k, 1, marks[k].extent, 1)), Values(marks, env)) == Eval(Var(v), env)
    {
      WholeMark(marks, k, 1, env);
      MarkValue(marks, k, env);
    }
  }

  method Inputs(names: seq<VarName>, extents: seq<int>) returns (ms: seq<Mark>, vs: map<VarName, IterVal>)
    requires |names| == |extents| && forall i, j :: 0 <= i < j < |names| ==> names[i] != names[j]
    ensures ms == InputMarks(names, extents) && vs == InputVals(names, extents)
  {
    ms, vs := [], map[];
    for i := 0 to |names|
      invariant ms == InputMarks(names, extents)[..i] && vs.Keys == set k | 0 <= k < i :: names[k]
      invariant forall k :: 0 <= k < i ==> names[k] in vs && vs[names[k]] == One(Split(k, 1, extents[k], 1))
    {
      ms := ms + [Mark(Input(names[i]), extents[i])];
      vs := vs[names[i] := One(Split(i, 1, extents[i], 1))];
    }
  }

  lemma {:induction false} InputsReady(names: seq<VarName>, extents: seq<int>)
    requires |names| == |extents| && forall i :: 0 <= i < |extents| ==> extents[i] > 0
    requires forall i, j :: 0 <= i < j < |names| ==> names[i] != names[j]
    ensures var ms := InputMarks(names, extents); MarksOk(ms) && Ranged(ms) && VarsOk(ms, InputVals(names, extents))
  {
    var ms, vs := InputMarks(names, extents), InputVals(names, extents);
    InputsOk(ms);
    forall v | v in vs ensures ValOk(vs[v], |ms|) && Means(ms, vs[v], Var(v)) && ValSliced(Exts(ms), 0, vs[v]) {
      var k :| 0 <= k < |names| && v == names[k];
      InputMeans(ms, k, v);
    }
  }

  class IterMapRewriter {
    var marks: seq<Mark>
    var fuseMap: map<seq<Split>, nat>
    var requiresPadding: bool
    var update: bool
    const vars: map<VarName, IterVal>
    const bijective: bool
    /** Every division so far was right on the whole range of its source. */
    ghost var exact: bool
    /** The divisions met so far. */
    ghost var sites: seq<Site>

    ghost predicate Valid()
      reads this
    {
      && MarksOk(marks) && Ranged(marks) && FuseMapOk(marks, fuseMap) && VarsOk(marks, vars)
      && (bijective ==> ExactMarks(marks))
      && (update && !requiresPadding ==> exact)
      && (!requiresPadding ==> (exact <==> AllRight(sites)))
    }

    /** Neither recording nor applying padding. */
    ghost predicate Unpadded()
      reads this
    {
      bijective && !update
    }

    /** Loop variables over [0, extent). */
    constructor (names: seq<VarName>, extents: seq<int>, bijective: bool)
      requires |names| == |extents| && forall i :: 0 <= i < |extents| ==> extents[i] > 0
      requires forall i, j :: 0 <= i < j < |names| ==> names[i] != names[j]
      ensures Valid() && exact && sites == [] && !requiresPadding && !update && this.bijective == bijective
      ensures marks == InputMarks(names, extents) && vars == InputVals(names, extents) && fuseMap == map[]
    {
      var ms, vs := Inputs(names, extents);
      InputsReady(names, extents);
      marks, vars := ms, vs;
      fuseMap, requiresPadding, update, exact, sites := map[], false, false, true, [];
      this.bijective := bijective;
    }

    /** Adds a mark for the fused args, or finds the one made before. */
    method MarkFor(f: Fusion, ghost args: seq<Split>) returns (k: nat)
      requires Valid() && Fuses(args, f, bijective, |marks|)
      modifies this`marks, this`fuseMap
      ensures Valid() && Extends(old(marks), marks)
      ensures k < |marks| && marks[k].source == Source.Fused(Sum(f.args, 0))
      ensures f.args !in old(fuseMap) ==>
        && k == |old(marks)| && fuseMap == old(fuseMap)[f.args := k]
        && marks == old(marks) + [Mark(Source.Fused(Sum(f.args, 0)), f.extent)]
    {
      if f.args in fuseMap {
        return fuseMap[f.args];
      }
      var m := Mark(Source.Fused(Sum(f.args, 0)), f.extent);
      AddMark(marks, m);
      VarsLater(marks, marks + [m], vars);
      k := |marks|;
      fuseMap := fuseMap[f.args := k];
      marks := marks + [m];
    }

    /** The sum as one split plus a base, of the same value. */
    method Fuse(sum: Sum) returns (r: Option<Sum>)
      requires Valid() && ArgsOk(sum.args, |marks|)
      modifies this`marks, this`fuseMap
      ensures Valid() && Extends(old(marks), marks)
      ensures r.Some? ==>
        ArgsOk(r.value.args, |marks|) && |r.value.args| <= 1 && SameValue(marks, Many(r.value), Many(sum))
      ensures r.Some? ==> forall g: int :: AllSliced(Exts(old(marks)), g, sum.args) ==>
        AllSliced(Exts(marks), g, r.value.args)
      ensures bijective && MarksDiffer(sum.args) && Wide(sum.args) ==> (r.Some? <==> Stacks(sum.args))
      ensures FreshStack(sum, old(marks), old(fuseMap), r, marks, fuseMap)
    {
      var f := TryFuseIters(sum.args, bijective, true, |marks|);
      if f.None? {
        return None;
      }
      match f.value
      case Merged(args) => r := Some(Sum(args, sum.base));
      case AsOne(fusion) =>
        var k := MarkFor(fusion, sum.args);
        FusedSplitMeans(marks, k, sum, fusion, bijective, old(|marks|));
        r := Some(Sum([Split(k, 1, marks[k].extent, fusion.scale)], sum.base));
    }

    /** Floor division of one split plus a base; exact records whether it is right wherever the split goes. */
    method SplitFloorDivConst(lhs: Split, base: int, rhs: int) returns (r: Option<IterVal>)
      requires Valid() && lhs.Valid() && lhs.mark < |marks|
      modifies this`marks, this`requiresPadding, this`exact, this`sites
      ensures Valid() && Extends(old(marks), marks) && (exact ==> old(exact))
      ensures PadStep(update, old(requiresPadding), requiresPadding)
      ensures r.Some? ==> rhs > 0 && ValOk(r.value, |marks|) && (exact ==> IsQuotient(marks, r.value, lhs, base, rhs))
      ensures |sites| <= |old(sites)| + 1
      ensures r.Some? && !update ==> QuotientSliced(old(marks), marks, lhs, rhs, r.value)
      ensures old(exact) && !update && (rhs > 0 ==> I.Divides(rhs, base)) ==> exact
      ensures base == 0 && QuotientStep(lhs, rhs).Some? ==>
        && r == Some(One(QuotientStep(lhs, rhs).value)) && marks == old(marks)
        && requiresPadding == old(requiresPadding)
    {
      if rhs <= 0 {
        return None;
      }
      if rhs == 1 {
        DivideByOne(marks, lhs, base);
        WholeSliced(marks, lhs, base);
        return Some(WithBase(lhs, base));
      }
      var c := ClearScaleDiv(lhs, base, rhs);
      if c.None? {
        return None;
      }
      match c.value
      case Quotient(split, b) =>
        DivideOutMeans(marks, lhs, base, rhs);
        OutrightSliced(marks, lhs, base, rhs);
        r := Some(WithBase(split, b));
      case Reduced(split, b, q) =>
        if q <= 0 {
          return None;
        }
        if base == 0 && QuotientStep(lhs, rhs).Some? {
          EvenQuotientStep(lhs, rhs, marks[lhs.mark].extent, |marks|);
          NothingToPad(lhs, 0, rhs, update);
        }
        r := DivideReduced(split, b, q, lhs, base, rhs);
    }

    /** Notes a division and whether it needs padding. */
    method Meet(ghost site: Site, needed: bool)
      requires Valid() && (update && !needed ==> Right(site)) && (needed ==> update)
      modifies this`requiresPadding, this`exact, this`sites
      ensures Valid() && PadStep(update, old(requiresPadding), requiresPadding) && sites == old(sites) + [site]
      ensures (exact <==> old(exact) && !needed && Right(site)) && (!needed ==> requiresPadding == old(requiresPadding))
    {
      requiresPadding := requiresPadding || needed;
      exact := exact && !needed && Right(site);
      assert AllRight(sites + [site]) <==> AllRight(sites) && Right(site) by {
        assert forall i :: 0 <= i < |sites| ==> (sites + [site])[i] == sites[i];
        assert (sites + [site])[|sites|] == site;
      }
      sites := sites + [site];
    }

    method DivideReduced(
      split: Split, b: int, q: int, ghost lhs: Split, ghost base: int, ghost rhs: int) returns (r: Option<IterVal>)
      requires Valid() && lhs.Valid() && lhs.mark < |marks| && rhs > 1 && q > 0
      requires ClearScaleDiv(lhs, base, rhs) == Some(Reduced(split, b, q))
      modifies this`marks, this`requiresPadding, this`exact, this`sites
      ensures Valid() && Extends(old(marks), marks) && (exact ==> old(exact))
      ensures PadStep(update, old(requiresPadding), requiresPadding)
      ensures r.Some? && ValOk(r.value, |marks|) && (exact ==> IsQuotient(marks, r.value, lhs, base, rhs))
      ensures |sites| == |old(sites)| + 1
      ensures !update ==> QuotientSliced(old(marks), marks, lhs, rhs, r.value)
      ensures old(exact) && !update && I.Divides(rhs, base) ==> exact
      ensures !PadDividend(split, b, q, update).needed ==>
        var d := DivideUnit(split, b % q, b, q, old(marks)[split.mark].extent, |old(marks)|);
        && r == Some(WithBase(d.split, d.base)) && marks == old(marks) + NewMarks(d)
        && requiresPadding == old(requiresPadding)
    {
      var p := PadDividend(split, b, q, update);
      var d := DivideUnit(p.split, p.leftPad, b, q, marks[split.mark].extent, |marks|);
      PaddedOk(split, b, q, update);
      QuotientMarks(marks, p.split, p.leftPad, b, q);
      VarsLater(marks, marks + NewMarks(d), vars);
      ghost var site := Site(split, b, q, true, marks[split.mark].extent);
      if !p.needed && Right(site) { QuotientRight(marks, lhs, base, rhs, d); }
      if !update {
        FoldSliced(marks, lhs, base, rhs, d);
        if I.Divides(rhs, base) { EvenBase(lhs.scale, base, rhs, b, q); }
      }
      marks := marks + NewMarks(d);
      Meet(site, p.needed);
      r := Some(WithBase(d.split, d.base));
    }

    method SplitFloorModConst(lhs: Split, base: int, rhs: int) returns (r: Option<IterVal>)
      requires Valid() && lhs.Valid() && lhs.mark < |marks|
      modifies this`requiresPadding, this`exact, this`sites
      ensures Valid() && (exact ==> old(exact)) && PadStep(update, old(requiresPadding), requiresPadding)
      ensures r.Some? ==> rhs > 0 && ValOk(r.value, |marks|) && (exact ==> IsRemainder(marks, r.value, lhs, base, rhs))
      ensures |sites| <= |old(sites)| + 1
      ensures r.Some? && !update ==> ValSliced(Exts(marks), rhs, r.value)
      ensures old(exact) && !update && (rhs > 0 ==> I.Divides(rhs, base)) ==>
        forall g: int :: Sliced(Exts(marks), g, lhs) && (rhs > 0 ==> I.Divides(rhs, g)) ==> exact
      ensures RemainderStep(lhs, rhs).Some? && (!update || (base == 0 && lhs.extent % rhs == 0)) ==>
        r == Some(One(RemainderStep(lhs, rhs).value)) && requiresPadding == old(requiresPadding)
    {
      if rhs <= 0 {
        return None;
      }
      if rhs == 1 {
        return Some(Num(0));
      }
      var c := ClearScaleMod(lhs, base, rhs);
      if c.None? {
        return None;
      }
      match c.value
      case Quotient(split, b) =>
        DivideOutMeans(marks, lhs, base, rhs);
        r := Some(Num(0));
      case Reduced(split, b, q) =>
        if q <= 0 {
          return None;
        }
        if update && base == 0 && lhs.extent % rhs == 0 { NothingToPad(lhs, 0, rhs, update); }
        r := ReduceReduced(split, b, q, lhs, base, rhs);
    }

    method ReduceReduced(
      split: Split, b: int, q: int, ghost lhs: Split, ghost base: int, ghost rhs: int) returns (r: Option<IterVal>)
      requires Valid() && lhs.Valid() && lhs.mark < |marks| && rhs > 1 && q > 0
      requires ClearScaleMod(lhs, base, rhs) == Some(Reduced(split, b, q))
      modifies this`requiresPadding, this`exact, this`sites
      ensures Valid() && (exact ==> old(exact)) && PadStep(update, old(requiresPadding), requiresPadding)
      ensures r.Some? && ValOk(r.value, |marks|) && (exact ==> IsRemainder(marks, r.value, lhs, base, rhs))
      ensures |sites| == |old(sites)| + 1
      ensures !update ==> ValSliced(Exts(marks), rhs, r.value)
      ensures old(exact) && !update && I.Divides(rhs, base) ==>
        forall g: int :: Sliced(Exts(marks), g, lhs) && I.Divides(rhs, g) ==> exact
      ensures !PadDividend(split, b, q, update).needed ==>
        r == Some(One(RemainderSplit(split, q))) && requiresPadding == old(requiresPadding)
    {
      var p := PadDividend(split, b, q, update);
      PaddedOk(split, b, q, update);
      ghost var site := Site(split, b, q, false, marks[split.mark].extent);
      if Right(site) { RemainderIsRight(marks, lhs, base, rhs); }
      if !update { RemainderSliced(marks, lhs, base, rhs); }
      Meet(site, p.needed);
      r := Some(One(RemainderSplit(p.split, q)));
    }

    /** The dividend as one split plus a base. */
    method PreprocessDividend(a: IterVal) returns (r: Option<Sum>)
      requires Valid() && ValOk(a, |marks|)
      modifies this`marks, this`fuseMap
      ensures Valid() && Extends(old(marks), marks)
      ensures r.Some? ==> |r.value.args| == 1 && IsDividend(marks, r.value.args[0], r.value.base, a)
      ensures r.Some? ==> forall g: int :: ValSliced(Exts(old(marks)), g, a) ==> Sliced(Exts(marks), g, r.value.args[0])
      ensures a.One? ==> r == Some(Sum([a.split], 0)) && marks == old(marks) && fuseMap == old(fuseMap)
    {
      match a {
        case Num(_) => return None;
        case One(s) => r := Some(Sum([s], 0));
        case Many(sum) =>
          if |sum.args| == 1 {
            r := Some(sum);
          } else {
            r := Fuse(sum);
          }
      }
      if r.Some? && |r.value.args| != 1 {
        return None;
      }
      if r.Some? { OneArg(marks, r.value, a); }
    }

    method Divide(a: IterVal, b: IterVal, ghost e: Expr, ghost f: Expr) returns (r: Option<IterVal>)
      requires Valid() && ValOk(a, |marks|) && ValOk(b, |marks|)
      requires exact ==> Means(marks, a, e) && Means(marks, b, f)
      modifies this
      ensures Valid() && Extends(old(marks), marks) && (exact ==> old(exact))
      ensures PadStep(update, old(requiresPadding), requiresPadding)
      ensures update == old(update)
      ensures r.Some? ==> ValOk(r.value, |marks|) && (exact ==> Means(marks, r.value, FDiv(e, f)))
      ensures |sites| <= |old(sites)| + 1
      ensures Unpadded() && old(exact) && EvenHere(FDiv(e, f)) ==> exact
      ensures Unpadded() && exact && r.Some? && ValSliced(Exts(old(marks)), Grain(e), a) ==>
        ValSliced(Exts(marks), Grain(FDiv(e, f)), r.value)
      ensures a.One? && b.Num? && QuotientStep(a.split, b.c).Some? ==>
        && r == Some(One(QuotientStep(a.split, b.c).value)) && marks == old(marks) && fuseMap == old(fuseMap)
        && requiresPadding == old(requiresPadding)
    {
      if !b.Num? || b.c == 0 {
        return None;
      }
      if a.Num? {
        if exact { ConstantDivision(marks, a, b, e, f); }
        return Some(Num(I.FloorDiv(a.c, b.c)));
      }
      var dividend := PreprocessDividend(a);
      if dividend.None? {
        return None;
      }
      ghost var marks1 := marks;
      if exact {
        MeansLater(old(marks), marks1, a, e);
        MeansLater(old(marks), marks1, b, f);
      }
      r := DivideDividend(dividend.value.args[0], dividend.value.base, b.c, a, b, e, f);
      ExtendsTrans(old(marks), marks1, marks);
    }

    method DivideDividend(
      lhs: Split, base: int, c: int, ghost a: IterVal, ghost b: IterVal, ghost e: Expr, ghost f: Expr)
      returns (r: Option<IterVal>)
      requires Valid() && IsDividend(marks, lhs, base, a) && b == Num(c)
      requires exact ==> Means(marks, a, e) && Means(marks, b, f)
      modifies this`marks, this`requiresPadding, this`exact, this`sites
      ensures Valid() && Extends(old(marks), marks) && (exact ==> old(exact))
      ensures PadStep(update, old(requiresPadding), requiresPadding)
      ensures r.Some? ==> ValOk(r.value, |marks|) && (exact ==> Means(marks, r.value, FDiv(e, f)))
      ensures |sites| <= |old(sites)| + 1
      ensures Unpadded() && old(exact) && EvenHere(FDiv(e, f)) ==> exact
      ensures Unpadded() && exact && r.Some? && Sliced(Exts(old(marks)), Grain(e), lhs) ==>
        ValSliced(Exts(marks), Grain(FDiv(e, f)), r.value)
      ensures base == 0 && QuotientStep(lhs, c).Some? ==>
        && r == Some(One(QuotientStep(lhs, c).value)) && marks == old(marks)
        && requiresPadding == old(requiresPadding)
    {
      ghost var marks1 := marks;
      if exact && bijective { OffsetIsBase(marks, lhs, base, a, b, e, f); }
      r := SplitFloorDivConst(lhs, base, c);
      if r.Some? && exact { QuotientIsMeant(marks1, marks, r.value, a, b, e, f, lhs, base); }
    }

    method Remainder(a: IterVal, b: IterVal, ghost e: Expr, ghost f: Expr) returns (r: Option<IterVal>)
      requires Valid() && ValOk(a, |marks|) && ValOk(b, |marks|)
      requires exact ==> Means(marks, a, e) && Means(marks, b, f)
      modifies this
      ensures Valid() && Extends(old(marks), marks) && (exact ==> old(exact))
      ensures PadStep(update, old(requiresPadding), requiresPadding)
      ensures update == old(update)
      ensures r.Some? ==> ValOk(r.value, |marks|) && (exact ==> Means(marks, r.value, FMod(e, f)))
      ensures |sites| <= |old(sites)| + 1
      ensures Unpadded() && old(exact) && EvenHere(FMod(e, f)) && ValSliced(Exts(old(marks)), Grain(e), a) ==> exact
      ensures Unpadded() && exact && r.Some? ==> ValSliced(Exts(marks), Grain(FMod(e, f)), r.value)
      ensures
        a.One? && b.Num? && RemainderStep(a.split, b.c).Some? && (!update || a.split.extent % b.c == 0) ==>
        && r == Some(One(RemainderStep(a.split, b.c).value)) && marks == old(marks) && fuseMap == old(fuseMap)
        && requiresPadding == old(requiresPadding)
    {
      if !b.Num? || b.c == 0 {
        return None;
      }
      if a.Num? {
        if exact { ConstantDivision(marks, a, b, e, f); }
        return Some(Num(I.FloorMod(a.c, b.c)));
      }
      var dividend := PreprocessDividend(a);
      if dividend.None? {
        return None;
      }
      if exact {
        MeansLater(old(marks), marks, a, e);
        MeansLater(old(marks), marks, b, f);
      }
      r := ReduceDividend(dividend.value.args[0], dividend.value.base, b.c, a, b, e, f);
    }

    method ReduceDividend(
      lhs: Split, base: int, c: int, ghost a: IterVal, ghost b: IterVal, ghost e: Expr, ghost f: Expr)
      returns (r: Option<IterVal>)
      requires Valid() && IsDividend(marks, lhs, base, a) && b == Num(c)
      requires exact ==> Means(marks, a, e) && Means(marks, b, f)
      modifies this`requiresPadding, this`exact, this`sites
      ensures Valid() && (exact ==> old(exact)) && PadStep(update, old(requiresPadding), requiresPadding)
      ensures r.Some? ==> ValOk(r.value, |marks|) && (exact ==> Means(marks, r.value, FMod(e, f)))
      ensures |sites| <= |old(sites)| + 1
      ensures Unpadded() && old(exact) && EvenHere(FMod(e, f)) && Sliced(Exts(marks), Grain(e), lhs) ==> exact
      ensures Unpadded() && exact && r.Some? ==> ValSliced(Exts(marks), Grain(FMod(e, f)), r.value)
      ensures RemainderStep(lhs, c).Some? && (!update || (base == 0 && lhs.extent % c == 0)) ==>
        r == Some(One(RemainderStep(lhs, c).value)) && requiresPadding == old(requiresPadding)
    {
      if exact && bijective { OffsetIsBase(marks, lhs, base, a, b, e, f); }
      r := SplitFloorModConst(lhs, base, c);
      if r.Some? && exact { RemainderIsMeant(marks, r.value, a, b, e, f, lhs, base); }
    }

    /** The visitors, by the shape of the expression; nothing is returned where an error is logged. */
    method DirectMutate(e: Expr) returns (r: Option<IterVal>)
      requires Valid()
      modifies this
      ensures Valid() && Extends(old(marks), marks) && (exact ==> old(exact))
      ensures PadStep(update, old(requiresPadding), requiresPadding)
      ensures update == old(update)
      ensures r.Some? ==> ValOk(r.value, |marks|) && (exact ==> Means(marks, r.value, e))
      ensures |sites| <= |old(sites)| + Divisions(e)
      ensures Unpadded() && old(exact) && Even(e) ==> exact
      ensures Unpadded() && exact && r.Some? ==> ValSliced(Exts(marks), Grain(e), r.value)
      ensures ValOf(vars, e).Some? && (!update || EvenSteps(vars, e)) ==>
        && r == ValOf(vars, e) && marks == old(marks) && fuseMap == old(fuseMap)
        && requiresPadding == old(requiresPadding)
      decreases e
    {
      match e
      case Const(c) => r := Some(Num(c));
      case Var(v) =>
        if v in vars {
          r := Some(vars[v]);
        } else {
          r := None;
        }
      case Add(x, y) => r := Combine(x, y, e);
      case Sub(x, y) => r := Combine(x, y, e);
      case Mul(x, y) => r := Combine(x, y, e);
      case FDiv(x, y) => r := Combine(x, y, e);
      case FMod(x, y) => r := Combine(x, y, e);
      case _ => r := None;
    }

    /** Both operands, the second rewritten after the first. */
    method Operands(x: Expr, y: Expr, ghost e: Expr) returns (a: Option<IterVal>, b: Option<IterVal>)
      requires Valid() && x < e && y < e
      modifies this
      ensures Valid() && Extends(old(marks), marks) && (exact ==> old(exact))
      ensures PadStep(update, old(requiresPadding), requiresPadding)
      ensures update == old(update)
      ensures a.Some? ==> ValOk(a.value, |marks|) && (exact ==> Means(marks, a.value, x))
      ensures b.Some? ==> ValOk(b.value, |marks|) && (exact ==> Means(marks, b.value, y))
      ensures |sites| <= |old(sites)| + Divisions(x) + Divisions(y)
      ensures Unpadded() && old(exact) && Even(x) && Even(y) ==> exact
      ensures Unpadded() && exact && a.Some? ==> ValSliced(Exts(marks), Grain(x), a.value)
      ensures Unpadded() && exact && b.Some? ==> ValSliced(Exts(marks), Grain(y), b.value)
      ensures
        ValOf(vars, x).Some? && ValOf(vars, y).Some? && (!update || (EvenSteps(vars, x) && EvenSteps(vars, y))) ==>
        && a == ValOf(vars, x) && b == ValOf(vars, y) && marks == old(marks) && fuseMap == old(fuseMap)
        && requiresPadding == old(requiresPadding)
      decreases e, 0
    {
      a := DirectMutate(x);
      ghost var marks1 := marks;
      b := DirectMutate(y);
      ExtendsTrans(old(marks), marks1, marks);
      if exact && a.Some? {
        MeansLater(marks1, marks, a.value, x);
        if Unpadded() { SlicedLater(marks1, marks, Grain(x), a.value); }
      }
    }

    method Combine(x: Expr, y: Expr, e: Expr) returns (r: Option<IterVal>)
      requires Valid() && (e == Add(x, y) || e == Sub(x, y) || e == Mul(x, y) || e == FDiv(x, y) || e == FMod(x, y))
      modifies this
      ensures Valid() && Extends(old(marks), marks) && (exact ==> old(exact))
      ensures PadStep(update, old(requiresPadding), requiresPadding)
      ensures update == old(update)
      ensures r.Some? ==> ValOk(r.value, |marks|) && (exact ==> Means(marks, r.value, e))
      ensures |sites| <= |old(sites)| + Divisions(e)
      ensures Unpadded() && old(exact) && Even(e) ==> exact
      ensures Unpadded() && exact && r.Some? ==> ValSliced(Exts(marks), Grain(e), r.value)
      ensures ValOf(vars, e).Some? && (!update || EvenSteps(vars, e)) ==>
        && r == ValOf(vars, e) && marks == old(marks) && fuseMap == old(fuseMap)
        && requiresPadding == old(requiresPadding)
      decreases e, 1
    {
      OperationParts(vars, x, y, e);
      var a, b := Operands(x, y, e);
      if a.None? || b.None? {
        return None;
      }
      ghost var marks1 := marks;
      r := Operate(a.value, b.value, x, y, e);
      ExtendsTrans(old(marks), marks1, marks);
    }

    method Operate(a: IterVal, b: IterVal, ghost x: Expr, ghost y: Expr, e: Expr) returns (r: Option<IterVal>)
      requires Valid() && ValOk(a, |marks|) && ValOk(b, |marks|)
      requires exact ==> Means(marks, a, x) && Means(marks, b, y)
      requires e == Add(x, y) || e == Sub(x, y) || e == Mul(x, y) || e == FDiv(x, y) || e == FMod(x, y)
      requires Unpadded() && exact ==> ValSliced(Exts(marks), Grain(x), a) && ValSliced(Exts(marks), Grain(y), b)
      modifies this
      ensures Valid() && Extends(old(marks), marks) && (exact ==> old(exact))
      ensures PadStep(update, old(requiresPadding), requiresPadding)
      ensures update == old(update)
      ensures r.Some? ==> ValOk(r.value, |marks|) && (exact ==> Means(marks, r.value, e))
      ensures |sites| <= |old(sites)| + if e.FDiv? || e.FMod? then 1 else 0
      ensures Unpadded() && old(exact) && EvenHere(e) ==> exact
      ensures Unpadded() && exact && r.Some? ==> ValSliced(Exts(marks), Grain(e), r.value)
      ensures StepVal(e, a, b).Some? && (!update || EvenStep(e, a, b)) ==>
        && r == StepVal(e, a, b) && marks == old(marks) && fuseMap == old(fuseMap)
        && requiresPadding == old(requiresPadding)
    {
      match e
      case Add(_, _) =>
        var s := AddVals(a, b, 1, |marks|);
        if exact { SumMeans(marks, a, b, s, x, y); }
        if Unpadded() && exact { CommonGrain(Exts(marks), Grain(x), a, Grain(y), b); }
        r := Some(s);
      case Sub(_, _) =>
        var s := AddVals(a, b, -1, |marks|);
        if exact { DifferenceMeans(marks, a, b, s, x, y); }
        if Unpadded() && exact { CommonGrain(Exts(marks), Grain(x), a, Grain(y), b); }
        r := Some(s);
      case Mul(_, _) =>
        r := MulVals(a, b, |marks|);
        if r.Some? && exact { ProductMeans(marks, a, b, r.value, x, y); }
        if r.Some? && Unpadded() && exact { ProductGrain(marks, a, b, r.value, x, y); }
      case FDiv(_, _) => r := Divide(a, b, x, y);
      case FMod(_, _) => r := Remainder(a, b, x, y);
    }

    /** The expression as one split plus a base; right unless a division was not. */
    method Rewrite(e: Expr) returns (r: Option<Sum>)
      requires Valid()
      modifies this
      ensures Valid() && Extends(old(marks), marks) && (exact ==> old(exact))
      ensures PadStep(update, old(requiresPadding), requiresPadding)
      ensures update == old(update)
      ensures r.Some? ==>
        ArgsOk(r.value.args, |marks|) && |r.value.args| <= 1 && (exact ==> Means(marks, Many(r.value), e))
      ensures |sites| <= |old(sites)| + Divisions(e)
      ensures Unpadded() && old(exact) && Even(e) ==> exact
      ensures bijective && r.Some? && ValOf(vars, e).Some? && (!update || EvenSteps(vars, e)) ==>
        var args := ToSum(ValOf(vars, e).value).args;
        args != [] && MarksDiffer(args) && Wide(args) ==> Stacks(args)
      ensures ValOf(vars, e).Some? && (!update || EvenSteps(vars, e)) ==>
        && FreshStack(ToSum(ValOf(vars, e).value), old(marks), old(fuseMap), r, marks, fuseMap)
        && requiresPadding == old(requiresPadding)
    {
      var v := DirectMutate(e);
      if v.None? {
        return None;
      }
      var sum := ToSum(v.value);
      ghost var marks1 := marks;
      if exact { AsSumMeans(marks, v.value, e); }
      if |sum.args| < 1 {
        return Some(sum);
      }
      r := Fuse(sum);
      ExtendsTrans(old(marks), marks1, marks);
      if r.Some? && exact {
        MeansLater(marks1, marks, Many(sum), e);
        SameMeans(marks, Many(r.value), Many(sum), e);
      }
    }

    /** The first pass: when it leaves no padding required, its result is final and right. */
    method RewriteAndUpdatePadding(e: Expr) returns (r: Option<Sum>)
      requires Valid() && !update && (!requiresPadding ==> exact)
      modifies this
      ensures Valid() && Extends(old(marks), marks) && !update && (!requiresPadding ==> exact)
      ensures old(requiresPadding) ==> requiresPadding
      ensures r.Some? ==> ArgsOk(r.value.args, |marks|) && |r.value.args| <= 1
      ensures exact ==> old(exact) && (r.Some? ==> Means(marks, Many(r.value), e))
      ensures |sites| <= |old(sites)| + Divisions(e)
      ensures ValOf(vars, e).Some? && EvenSteps(vars, e) ==>
        && FreshStack(ToSum(ValOf(vars, e).value), old(marks), old(fuseMap), r, marks, fuseMap)
        && requiresPadding == old(requiresPadding)
    {
      update := true;
      r := Rewrite(e);
      update := false;
    }
  }

  // ----- the zero valuation -----

  lemma {:induction false} ZeroTerms(args: seq<Split>, x: Vals)
    requires forall k :: 0 <= k < |x| ==> x[k] == 0
    ensures TermSum(args, x) == 0
  {
    if args != [] {
      ZeroTerms(args[1..], x);
      ZeroTerm(args[0], x);
    }
  }

  lemma {:induction false} ZeroTerm(s: Split, x: Vals)
    requires forall k :: 0 <= k < |x| ==> x[k] == 0
    ensures Term(s, x) == 0
  {
    if s.Valid() {
      DivUnique(0, s.lower, 0, 0);
      DivUnique(0, s.extent, 0, 0);
      assert At(x, s.mark) == 0;
    }
  }

  /** Where every loop variable is zero, so is every mark. */
  lemma {:induction false} ZeroValues(marks: seq<Mark>)
    requires ExactMarks(marks)
    ensures forall k :: 0 <= k < |marks| ==> Values(marks, map[])[k] == 0
  {
    if marks != [] {
      var n := |marks| - 1;
      forall k | 0 <= k < n ensures ExactMark(marks[..n][k]) { assert ExactMark(marks[k]); }
      ZeroValues(marks[..n]);
      assert ExactMark(marks[n]);
      if marks[n].source.Fused? { ZeroTerms(marks[n].source.sum.args, Values(marks[..n], map[])); }
    }
  }

  /** The base of a dividend is the offset of the expression, and a constant divisor is its own. */
  lemma {:induction false} OffsetIsBase(
    marks: seq<Mark>, lhs: Split, base: int, a: IterVal, b: IterVal, e: Expr, f: Expr)
    requires MarksOk(marks) && ExactMarks(marks) && IsDividend(marks, lhs, base, a) && Means(marks, a, e)
    requires Means(marks, b, f) && b.Num?
    ensures base == Offset(e) && b.c == Offset(f)
  {
    var env: Env := map[];
    assert InputsFit(marks, env);
    ZeroValues(marks);
    ZeroTerm(lhs, Values(marks, env));
  }

  lemma {:induction false} ConstIsOffset(marks: seq<Mark>, b: IterVal, f: Expr)
    requires MarksOk(marks) && Means(marks, b, f) && b.Num?
    ensures b.c == Offset(f)
  {
    var env: Env := map[];
    assert InputsFit(marks, env);
    assert ValAt(b, Values(marks, env)) == Eval(f, env);
  }

  lemma {:induction false} CommonGrain(ext: seq<int>, g: int, a: IterVal, h: int, b: IterVal)
    requires ValSliced(ext, g, a) && ValSliced(ext, h, b)
    ensures ValSliced(ext, I.Gcd(g, h), a) && ValSliced(ext, I.Gcd(g, h), b)
  {
    I.GcdSpec(g, h, 0);
    ValSlicedLess(ext, g, I.Gcd(g, h), a);
    ValSlicedLess(ext, h, I.Gcd(g, h), b);
  }

  lemma {:induction false} ProductGrain(marks: seq<Mark>, a: IterVal, b: IterVal, r: IterVal, x: Expr, y: Expr)
    requires MarksOk(marks) && Means(marks, a, x) && Means(marks, b, y) && (a.Num? || b.Num?)
    requires ValSliced(Exts(marks), Grain(x), a) && ValSliced(Exts(marks), Grain(y), b)
    requires a.Num? ==> forall ext: seq<int>, g: int :: ValSliced(ext, g, b) ==> ValSliced(ext, g * a.c, r)
    requires b.Num? ==> forall ext: seq<int>, g: int :: ValSliced(ext, g, a) ==> ValSliced(ext, g * b.c, r)
    ensures ValSliced(Exts(marks), Grain(Mul(x, y)), r)
  {
    var ext, g, h := Exts(marks), Grain(x) * Offset(y), Grain(y) * Offset(x);
    I.GcdSpec(g, h, 0);
    if a.Num? {
      ConstIsOffset(marks, a, x);
      assert ValSliced(ext, h, r);
      ValSlicedLess(ext, h, I.Gcd(g, h), r);
    } else {
      ConstIsOffset(marks, b, y);
      assert ValSliced(ext, g, r);
      ValSlicedLess(ext, g, I.Gcd(g, h), r);
    }
  }

  // ----- slices of quotients and remainders -----

  /** Whatever slices the dividend, divided by rhs, slices the quotient. */
  ghost predicate QuotientSliced(marks: seq<Mark>, marks': seq<Mark>, lhs: Split, rhs: int, r: IterVal) {
    rhs > 0 && forall g: int :: Sliced(Exts(marks), g, lhs) ==> ValSliced(Exts(marks'), GrainQuotient(g, rhs), r)
  }

  lemma {:induction false} WholeSliced(marks: seq<Mark>, lhs: Split, base: int)
    ensures QuotientSliced(marks, marks, lhs, 1, WithBase(lhs, base))
  {
    forall g: int | Sliced(Exts(marks), g, lhs)
      ensures ValSliced(Exts(marks), GrainQuotient(g, 1), WithBase(lhs, base))
    {
      DivUnique(g, 1, g, 0);
    }
  }

  lemma {:induction false} OutrightSliced(marks: seq<Mark>, lhs: Split, base: int, rhs: int)
    requires rhs > 1 && CanProveDivisible(lhs.scale, rhs)
    ensures QuotientSliced(marks, marks, lhs, rhs,
      WithBase(lhs.(scale := I.FloorDiv(lhs.scale, rhs)), I.FloorDiv(base, rhs)))
  {
    var c := I.FloorDiv(lhs.scale, rhs);
    I.ExactDiv(rhs, lhs.scale);
    forall g: int | Sliced(Exts(marks), g, lhs)
      ensures ValSliced(Exts(marks), GrainQuotient(g, rhs), WithBase(lhs.(scale := c), I.FloorDiv(base, rhs)))
    {
      SlicedOutright(Exts(marks), g, lhs, c, rhs);
    }
  }

  /** What is left of base and divisor once the scale is cleared. */
  lemma {:induction false} EvenBase(scale: int, base: int, rhs: int, b: int, q: int)
    requires rhs > 0 && q > 0 && I.Divides(rhs, base)
    requires scale == 1 ==> b == base && q == rhs
    requires scale != 1 ==> scale != 0 && I.Divides(scale, rhs) && I.Divides(scale, base)
    requires scale != 1 ==> b == I.FloorDiv(base, scale) && q == I.FloorDiv(rhs, scale)
    ensures b % q == 0
  {
    var t :| base == rhs * t;
    if scale == 1 {
      Commute(rhs, t);
      DivUnique(b, q, t, 0);
    } else {
      I.ExactDiv(scale, rhs);
      I.ExactDiv(scale, base);
      PositiveFactor(scale, q);
      assert scale * b == (scale * q) * t == scale * (q * t);
      SameCofactor(scale, b, q * t);
      Commute(q, t);
      DivUnique(b, q, t, 0);
    }
  }

  lemma {:induction false} FoldSliced(marks: seq<Mark>, lhs: Split, base: int, rhs: int, d: Divided)
    requires MarksOk(marks) && lhs.Valid() && lhs.mark < |marks| && rhs > 1
    requires ClearScaleDiv(lhs, base, rhs).Some? && ClearScaleDiv(lhs, base, rhs).value.Reduced?
    requires var c := ClearScaleDiv(lhs, base, rhs).value;
      c.rhs > 0 && d == DivideUnit(c.split, c.base % c.rhs, c.base, c.rhs, marks[lhs.mark].extent, |marks|)
    ensures QuotientSliced(marks, marks + NewMarks(d), lhs, rhs, WithBase(d.split, d.base))
  {
    var c := ClearScaleDiv(lhs, base, rhs).value;
    var s, q, marks' := c.split, c.rhs, marks + NewMarks(d);
    if lhs.scale != 1 {
      I.ExactDiv(lhs.scale, rhs);
      PositiveFactor(lhs.scale, q);
    }
    assert rhs == lhs.scale * q && lhs.scale > 0;
    forall g: int | Sliced(Exts(marks), g, lhs) ensures Sliced(Exts(marks'), GrainQuotient(g, rhs), d.split) {
      if CanProveDivisible(s.extent, q) {
        I.ExactDiv(q, s.extent);
        SlicedFold(Exts(marks), g, lhs, q, I.FloorDiv(s.extent, q));
        assert marks' == marks;
      } else {
        CeilUncut(s.extent, q);
      }
    }
  }

  lemma {:induction false} CeilUncut(e: int, q: int)
    requires q > 0
    ensures e <= q * CeilDiv(e, q)
  {
    var c := CeilDiv(e, q);
    assert e + q - 1 == q * c + (e + q - 1) % q;
  }

  lemma {:induction false} UncutCeil(e: int, lower: int, extent: int)
    requires lower > 0 && e <= lower * extent
    ensures CeilDiv(e, lower) <= extent
  {
    var c := CeilDiv(e, lower);
    assert e + lower - 1 == lower * c + (e + lower - 1) % lower;
    if c > extent { MulMono(lower, extent + 1, c); }
  }

  lemma {:induction false} RemainderSliced(marks: seq<Mark>, lhs: Split, base: int, rhs: int)
    requires lhs.Valid() && lhs.mark < |marks| && rhs > 1
    requires ClearScaleMod(lhs, base, rhs).Some? && ClearScaleMod(lhs, base, rhs).value.Reduced?
    requires ClearScaleMod(lhs, base, rhs).value.rhs > 0
    ensures var c := ClearScaleMod(lhs, base, rhs).value;
      && Sliced(Exts(marks), rhs, RemainderSplit(c.split, c.rhs))
      && (I.Divides(rhs, base) ==> forall g: int :: Sliced(Exts(marks), g, lhs) && I.Divides(rhs, g) ==>
            RemainderSite(c.split, c.base, c.rhs, marks[lhs.mark].extent))
  {
    var c := ClearScaleMod(lhs, base, rhs).value;
    var q := c.rhs;
    if lhs.scale != 1 {
      I.ExactDiv(lhs.scale, rhs);
      PositiveFactor(lhs.scale, q);
    }
    assert rhs == lhs.scale * q && lhs.scale > 0;
    assert I.Divides(rhs, lhs.scale * q) by { assert rhs == rhs * 1; }
    if I.Divides(rhs, base) {
      EvenBase(lhs.scale, base, rhs, c.base, q);
      forall g: int | Sliced(Exts(marks), g, lhs) && I.Divides(rhs, g)
        ensures RemainderSite(c.split, c.base, c.rhs, marks[lhs.mark].extent)
      {
        if marks[lhs.mark].extent <= lhs.lower * lhs.extent {
          UncutCeil(marks[lhs.mark].extent, lhs.lower, lhs.extent);
        } else {
          SlicedEven(Exts(marks), g, lhs, q);
        }
      }
    }
  }

  lemma {:induction false} SumMeans(marks: seq<Mark>, a: IterVal, b: IterVal, r: IterVal, x: Expr, y: Expr)
    requires Means(marks, a, x) && Means(marks, b, y) && forall v: Vals :: ValAt(r, v) == ValAt(a, v) + 1 * ValAt(b, v)
    ensures Means(marks, r, Add(x, y))
  {
    forall env | InputsFit(marks, env) ensures ValAt(r, Values(marks, env)) == Eval(Add(x, y), env) {
      var v := Values(marks, env);
      assert ValAt(a, v) == Eval(x, env) && ValAt(b, v) == Eval(y, env);
    }
  }

  lemma {:induction false} DifferenceMeans(marks: seq<Mark>, a: IterVal, b: IterVal, r: IterVal, x: Expr, y: Expr)
    requires Means(marks, a, x) && Means(marks, b, y) && forall v: Vals :: ValAt(r, v) == ValAt(a, v) + -1 * ValAt(b, v)
    ensures Means(marks, r, Sub(x, y))
  {
    forall env | InputsFit(marks, env) ensures ValAt(r, Values(marks, env)) == Eval(Sub(x, y), env) {
      var v := Values(marks, env);
      assert ValAt(a, v) == Eval(x, env) && ValAt(b, v) == Eval(y, env);
    }
  }

  lemma {:induction false} ProductMeans(marks: seq<Mark>, a: IterVal, b: IterVal, r: IterVal, x: Expr, y: Expr)
    requires Means(marks, a, x) && Means(marks, b, y) && forall v: Vals :: ValAt(r, v) == ValAt(a, v) * ValAt(b, v)
    ensures Means(marks, r, Mul(x, y))
  {
    forall env | InputsFit(marks, env) ensures ValAt(r, Values(marks, env)) == Eval(Mul(x, y), env) {
      var v := Values(marks, env);
      assert ValAt(a, v) == Eval(x, env) && ValAt(b, v) == Eval(y, env);
    }
  }

  lemma {:induction false} AsSumMeans(marks: seq<Mark>, a: IterVal, e: Expr)
    requires Means(marks, a, e)
    ensures Means(marks, Many(ToSum(a)), e)
  {
    forall env | InputsFit(marks, env) ensures ValAt(Many(ToSum(a)), Values(marks, env)) == Eval(e, env) {
      ToSumValue(a, Values(marks, env));
    }
  }

  lemma {:induction false} SameMeans(marks: seq<Mark>, a: IterVal, b: IterVal, e: Expr)
    requires SameValue(marks, a, b) && Means(marks, b, e)
    ensures Means(marks, a, e)
  {
  }

  // ----- back to expressions -----

  /** The digit of source, in the cheapest form that is right for a source below bound. */
  function SplitForm(source: Expr, s: Split, bound: int): Expr {
    if s.extent == bound && s.lower == 1 then MkMul(source, Const(s.scale))
    else if bound == s.lower * s.extent then
      if s.extent == 1 && bound != 1 then Const(0)
      else MkMul(FDiv(source, Const(s.lower)), Const(s.scale))
    else MkMul(FDiv(FMod(source, Const(s.extent * s.lower)), Const(s.lower)), Const(s.scale))
  }

  lemma {:induction false} SplitFormValue(source: Expr, s: Split, bound: int, env: Env)
    requires s.Valid() && 0 <= Eval(source, env) < bound
    ensures Eval(SplitForm(source, s, bound), env) == s.scale * s.Digit(Eval(source, env))
  {
    var x := Eval(source, env);
    DigitForms(x, s.lower, s.extent, bound);
    if s.extent == bound && s.lower == 1 {
      Commute(s.scale, x);
    } else if bound == s.lower * s.extent {
      ScaledQuotient(source, s.lower, s.scale, env);
    } else {
      ScaledDigit(source, s, env);
    }
  }

  lemma {:induction false} ScaledDigit(source: Expr, s: Split, env: Env)
    requires s.Valid() && s.extent * s.lower > 0
    requires s.Digit(Eval(source, env)) == Eval(source, env) % (s.extent * s.lower) / s.lower
    ensures Eval(MkMul(FDiv(FMod(source, Const(s.extent * s.lower)), Const(s.lower)), Const(s.scale)), env) ==
      s.scale * s.Digit(Eval(source, env))
  {
    var span := s.extent * s.lower;
    ModValue(source, span, env);
    ScaledQuotient(FMod(source, Const(span)), s.lower, s.scale, env);
  }

  lemma {:induction false} ScaledQuotient(e: Expr, lower: int, scale: int, env: Env)
    requires lower > 0
    ensures Eval(MkMul(FDiv(e, Const(lower)), Const(scale)), env) == scale * (Eval(e, env) / lower)
  {
    assert Eval(FDiv(e, Const(lower)), env) == Eval(e, env) / lower;
    Commute(scale, Eval(e, env) / lower);
  }

  lemma {:induction false} ModValue(e: Expr, m: int, env: Env)
    requires m > 0
    ensures Eval(FMod(e, Const(m)), env) == Eval(e, env) % m
  {
  }

  /** The expression a mark stands for. */
  function ConvertMark(marks: seq<Mark>, k: nat): Expr
    requires MarksOk(marks) && k < |marks|
    decreases 2 * k + 1, 0
  {
    match marks[k].source
    case Input(v) => Var(v)
    case Fused(sum) => MkAdd(ConvertArgs(marks, sum.args, k), Const(sum.base))
  }

  function ConvertSplit(marks: seq<Mark>, s: Split): Expr
    requires MarksOk(marks) && s.Valid() && s.mark < |marks|
    decreases 2 * s.mark + 1, 1
  {
    SplitForm(ConvertMark(marks, s.mark), s, marks[s.mark].extent)
  }

  function ConvertArgs(marks: seq<Mark>, args: seq<Split>, bound: nat): Expr
    requires MarksOk(marks) && bound <= |marks| && ArgsOk(args, bound)
    decreases 2 * bound, |args|
  {
    if args == [] then Const(0)
    else
      var n := |args| - 1;
      MkAdd(ConvertArgs(marks, args[..n], bound), ConvertSplit(marks, args[n]))
  }

  lemma {:induction false} ConvertMarkValue(marks: seq<Mark>, k: nat, env: Env)
    requires MarksOk(marks) && k < |marks| && AllFit(marks, env)
    ensures Eval(ConvertMark(marks, k), env) == Values(marks, env)[k]
    decreases 2 * k + 1, 0
  {
    MarkValue(marks, k, env);
    match marks[k].source
    case Input(_) =>
    case Fused(sum) => ConvertArgsValue(marks, sum.args, k, env);
  }

  /** Conversion gives a split's value back, whichever form it takes. */
  lemma {:induction false} ConvertSplitValue(marks: seq<Mark>, s: Split, env: Env)
    requires MarksOk(marks) && s.Valid() && s.mark < |marks| && AllFit(marks, env)
    ensures Eval(ConvertSplit(marks, s), env) == Term(s, Values(marks, env))
    decreases 2 * s.mark + 1, 1
  {
    ConvertMarkValue(marks, s.mark, env);
    SplitFormValue(ConvertMark(marks, s.mark), s, marks[s.mark].extent, env);
  }

  /** The digit of an in-range value, as each conversion form computes it. */
  lemma {:induction false} DigitForms(v: int, lower: int, extent: int, bound: int)
    requires lower > 0 && extent > 0 && 0 <= v < bound
    ensures extent == bound && lower == 1 ==> (v / lower) % extent == v
    ensures bound == lower * extent ==> (v / lower) % extent == v / lower
    ensures bound == lower * extent && extent == 1 ==> (v / lower) % extent == 0
    ensures extent * lower > 0 && (v / lower) % extent == (v % (extent * lower)) / lower
  {
    MulPos(extent, lower);
    Commute(extent, lower);
    SplitDivMod(v, lower, extent);
    Commute(lower, (v / lower) % extent);
    DivUnique(v % (lower * extent), lower, (v / lower) % extent, v % lower);
    if extent == bound && lower == 1 {
      DivUnique(v, 1, v, 0);
      DivUnique(v, extent, 0, v);
    }
    if bound == lower * extent { DivUnique(v, bound, 0, v); }
  }

  lemma {:induction false} ConvertArgsValue(marks: seq<Mark>, args: seq<Split>, bound: nat, env: Env)
    requires MarksOk(marks) && bound <= |marks| && ArgsOk(args, bound) && AllFit(marks, env)
    ensures Eval(ConvertArgs(marks, args, bound), env) == TermSum(args, Values(marks, env))
    decreases 2 * bound, |args|
  {
    if args != [] {
      var n := |args| - 1;
      ConvertArgsValue(marks, args[..n], bound, env);
      ConvertSplitValue(marks, args[n], env);
      TermSumAppend(args[..n], args[n], Values(marks, env));
      assert args == args[..n] + [args[n]];
    }
  }

  /** IterMapToExprNormalizer on a sum. */
  function ConvertSum(marks: seq<Mark>, sum: Sum): Expr
    requires MarksOk(marks) && ArgsOk(sum.args, |marks|)
  {
    MkAdd(ConvertArgs(marks, sum.args, |marks|), Const(sum.base))
  }

  /** Whatever a sum means, the converted expression means too. */
  lemma {:induction false} RoundTrip(marks: seq<Mark>, sum: Sum, e: Expr, env: Env)
    requires MarksOk(marks) && Ranged(marks) && ArgsOk(sum.args, |marks|) && Means(marks, Many(sum), e)
    requires InputsFit(marks, env)
    ensures Eval(ConvertSum(marks, sum), env) == Eval(e, env)
  {
    assert AllFit(marks, env);
    ConvertArgsValue(marks, sum.args, |marks|, env);
    assert ValAt(Many(sum), Values(marks, env)) == Eval(e, env);
  }

  /** The split plus the base is a. */
  ghost predicate IsDividend(marks: seq<Mark>, lhs: Split, base: int, a: IterVal) {
    && lhs.Valid() && lhs.mark < |marks|
    && forall env :: InputsFit(marks, env) ==> Term(lhs, Values(marks, env)) + base == ValAt(a, Values(marks, env))
  }

  lemma {:induction false} OneArg(marks: seq<Mark>, sum: Sum, a: IterVal)
    requires |sum.args| == 1 && ArgsOk(sum.args, |marks|)
    requires SameValue(marks, Many(sum), a) || Many(sum) == a || (a.One? && sum == Sum([a.split], 0))
    ensures IsDividend(marks, sum.args[0], sum.base, a)
  {
    forall env | InputsFit(marks, env)
      ensures Term(sum.args[0], Values(marks, env)) + sum.base == ValAt(a, Values(marks, env))
    {
      var x := Values(marks, env);
      assert sum.args[1..] == [];
      assert TermSum(sum.args, x) == Term(sum.args[0], x) + TermSum([], x);
      if SameValue(marks, Many(sum), a) { assert ValAt(Many(sum), x) == ValAt(a, x); }
    }
  }

  lemma {:induction false} ExtendsTrans(a: seq<Mark>, b: seq<Mark>, c: seq<Mark>)
    requires Extends(a, b) && Extends(b, c)
    ensures Extends(a, c)
  {
    forall k | |a| <= k < |c| ensures c[k].source.Fused? { if k < |b| { assert c[k] == b[k]; } }
  }

  lemma {:induction false} ConstantDivision(marks: seq<Mark>, a: IterVal, b: IterVal, e: Expr, f: Expr)
    requires a.Num? && b.Num? && b.c != 0 && Means(marks, a, e) && Means(marks, b, f)
    ensures Means(marks, Num(I.FloorDiv(a.c, b.c)), FDiv(e, f)) && Means(marks, Num(I.FloorMod(a.c, b.c)), FMod(e, f))
  {
    forall env | InputsFit(marks, env)
      ensures I.FloorDiv(a.c, b.c) == Eval(FDiv(e, f), env) && I.FloorMod(a.c, b.c) == Eval(FMod(e, f), env)
    {
      assert ValAt(a, Values(marks, env)) == Eval(e, env) && ValAt(b, Values(marks, env)) == Eval(f, env);
    }
  }

  lemma {:induction false} QuotientIsMeant(
    marks: seq<Mark>, marks': seq<Mark>, r: IterVal, a: IterVal, b: IterVal, e: Expr, f: Expr,
                                           lhs: Split, base: int)
    requires Extends(marks, marks') && IsDividend(marks, lhs, base, a) && Means(marks, a, e) && Means(marks, b, f)
    requires b.Num? && b.c > 0 && IsQuotient(marks', r, lhs, base, b.c)
    ensures Means(marks', r, FDiv(e, f))
  {
    forall env | InputsFit(marks', env)
      ensures ValAt(r, Values(marks', env)) == Eval(FDiv(e, f), env)
    {
      ExtendsFit(marks, marks', env);
      ValPrefix(One(lhs), marks, marks', env);
      var x, x' := Values(marks, env), Values(marks', env);
      assert Term(lhs, x) + base == ValAt(a, x) == Eval(e, env) && ValAt(b, x) == Eval(f, env);
      assert ValAt(r, x') == (Term(lhs, x') + base) / b.c;
    }
  }

  lemma {:induction false} RemainderIsMeant(
    marks: seq<Mark>, r: IterVal, a: IterVal, b: IterVal, e: Expr, f: Expr, lhs: Split, base: int)
    requires IsDividend(marks, lhs, base, a) && Means(marks, a, e) && Means(marks, b, f)
    requires b.Num? && b.c > 0 && IsRemainder(marks, r, lhs, base, b.c)
    ensures Means(marks, r, FMod(e, f))
  {
    forall env | InputsFit(marks, env)
      ensures ValAt(r, Values(marks, env)) == Eval(FMod(e, f), env)
    {
      var x := Values(marks, env);
      assert Term(lhs, x) + base == ValAt(a, x) == Eval(e, env) && ValAt(b, x) == Eval(f, env);
      assert ValAt(r, x) == (Term(lhs, x) + base) % b.c;
    }
  }

  /** Padding, once required, stays so; only the first pass asks for it. */
  predicate PadStep(update: bool, before: bool, after: bool) {
    (before ==> after) && (!update ==> after == before)
  }

  /** r is the quotient of the split plus base, for all loop variables in range. */
  ghost predicate IsQuotient(marks: seq<Mark>, r: IterVal, lhs: Split, base: int, rhs: int)
    requires rhs > 0
  {
    forall env :: InputsFit(marks, env) ==>
      ValAt(r, Values(marks, env)) == (Term(lhs, Values(marks, env)) + base) / rhs
  }

  ghost predicate IsRemainder(marks: seq<Mark>, r: IterVal, lhs: Split, base: int, rhs: int)
    requires rhs > 0
  {
    forall env :: InputsFit(marks, env) ==>
      ValAt(r, Values(marks, env)) == (Term(lhs, Values(marks, env)) + base) % rhs
  }

  lemma {:induction false} DivideByOne(marks: seq<Mark>, lhs: Split, base: int)
    ensures IsQuotient(marks, WithBase(lhs, base), lhs, base, 1)
  {
    forall env | InputsFit(marks, env)
      ensures ValAt(WithBase(lhs, base), Values(marks, env)) == (Term(lhs, Values(marks, env)) + base) / 1
    {
      WithBaseValue(lhs, base, Values(marks, env));
    }
  }

  lemma {:induction false} DivideOutMeans(marks: seq<Mark>, lhs: Split, base: int, rhs: int)
    requires lhs.Valid() && rhs > 1 && CanProveDivisible(lhs.scale, rhs) && CanProveDivisible(base, rhs)
    ensures IsQuotient(marks,
      WithBase(lhs.(scale := I.FloorDiv(lhs.scale, rhs)), I.FloorDiv(base, rhs)), lhs, base, rhs)
    ensures IsRemainder(marks, Num(0), lhs, base, rhs)
  {
    var s, b := lhs.(scale := I.FloorDiv(lhs.scale, rhs)), I.FloorDiv(base, rhs);
    forall env | InputsFit(marks, env)
      ensures ValAt(WithBase(s, b), Values(marks, env)) == (Term(lhs, Values(marks, env)) + base) / rhs
      ensures (Term(lhs, Values(marks, env)) + base) % rhs == 0
    {
      var x := Values(marks, env);
      WithBaseValue(s, b, x);
      DivideOut(lhs.Digit(At(x, lhs.mark)), lhs.scale, base, rhs);
    }
  }

  lemma {:induction false} PaddedOk(s: Split, base: int, rhs: int, update: bool)
    requires s.Valid() && rhs > 0
    ensures var p := PadDividend(s, base, rhs, update);
      && p.split.Valid() && p.split.mark == s.mark && p.split.scale == s.scale
      && (!p.needed ==> p.split == s && p.leftPad == base % rhs)
      && (update && !p.needed ==> base % rhs == 0 && s.extent % rhs == 0)
  {
    if update && !PadDividend(s, base, rhs, update).needed { NoPadding(s, base, rhs); }
  }

  /** The quotient is right when the cleared dividend's is. */
  lemma {:induction false} QuotientRight(marks: seq<Mark>, lhs: Split, base: int, rhs: int, d: Divided)
    requires MarksOk(marks) && Ranged(marks) && lhs.Valid() && lhs.mark < |marks| && rhs > 1
    requires ClearScaleDiv(lhs, base, rhs).Some? && ClearScaleDiv(lhs, base, rhs).value.Reduced?
    requires var c := ClearScaleDiv(lhs, base, rhs).value;
      && c.rhs > 0 && QuotientSite(c.split, c.base, c.rhs, marks[lhs.mark].extent)
      && d == DivideUnit(c.split, c.base % c.rhs, c.base, c.rhs, marks[lhs.mark].extent, |marks|)
    ensures IsQuotient(marks + NewMarks(d), WithBase(d.split, d.base), lhs, base, rhs)
  {
    var c := ClearScaleDiv(lhs, base, rhs).value;
    var marks' := marks + NewMarks(d);
    QuotientMarks(marks, c.split, c.base % c.rhs, c.base, c.rhs);
    forall env | InputsFit(marks', env)
      ensures ValAt(WithBase(d.split, d.base), Values(marks', env)) == (Term(lhs, Values(marks', env)) + base) / rhs
    {
      ExtendsFit(marks, marks', env);
      ValPrefix(One(lhs), marks, marks', env);
      QuotientMeans(marks, c.split, c.base, c.rhs, env);
      var digit := lhs.Digit(At(Values(marks, env), lhs.mark));
      if lhs.scale != 1 { CancelCommon(digit, lhs.scale, base, rhs); }
    }
  }

  lemma {:induction false} RemainderIsRight(marks: seq<Mark>, lhs: Split, base: int, rhs: int)
    requires MarksOk(marks) && Ranged(marks) && lhs.Valid() && lhs.mark < |marks| && rhs > 1
    requires ClearScaleMod(lhs, base, rhs).Some? && ClearScaleMod(lhs, base, rhs).value.Reduced?
    requires var c := ClearScaleMod(lhs, base, rhs).value;
      c.rhs > 0 && RemainderSite(c.split, c.base, c.rhs, marks[lhs.mark].extent)
    ensures var c := ClearScaleMod(lhs, base, rhs).value;
      IsRemainder(marks, One(RemainderSplit(c.split, c.rhs)), lhs, base, rhs)
  {
    var c := ClearScaleMod(lhs, base, rhs).value;
    forall env | InputsFit(marks, env)
      ensures ValAt(One(RemainderSplit(c.split, c.rhs)), Values(marks, env)) ==
        (Term(lhs, Values(marks, env)) + base) % rhs
    {
      RemainderMeans(marks, c.split, c.base, c.rhs, env);
      var digit := lhs.Digit(At(Values(marks, env), lhs.mark));
      if lhs.scale != 1 { CancelCommon(digit, lhs.scale, base, rhs); }
    }
  }
}
