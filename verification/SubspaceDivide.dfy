// Dividing the bindings of a map into an outer part that reads no sub-iterator and an inner part
// that reads nothing else: binding == outer * innerExtent + inner.
module SubspaceDivide {
  import opened Expr
  import opened Radix
  import opened SplitCover
  import opened FuseDigits
  import opened SplitSum
  import opened FuseIters
  import opened IterMap
  import opened InverseMap
  import opened IterMapInverse
  import opened MappingCheck
  import opened IndexMap
  import opened EvenDivisions
  import opened StackMap
  import D = IterMapDetect
  import R = IterRewriter
  import I = IntOperator

  // ----- which loop variables a value reads -----

  /** Every loop variable below mark k is a sub-iterator (inner), or none is. */
  ghost predicate PureMark(marks: seq<Mark>, k: nat, sub: set<VarName>, inner: bool)
    requires R.MarksOk(marks) && k < |marks|
    decreases k
  {
    match marks[k].source
    case Input(v) => (v in sub) == inner
    case Fused(sum) =>
      assert ArgsOk(sum.args, k);
      forall i :: 0 <= i < |sum.args| ==> PureMark(marks, sum.args[i].mark, sub, inner)
  }

  ghost predicate PureArgs(marks: seq<Mark>, args: seq<Split>, sub: set<VarName>, inner: bool)
    requires R.MarksOk(marks) && ArgsOk(args, |marks|)
  {
    forall i :: 0 <= i < |args| ==> PureMark(marks, args[i].mark, sub, inner)
  }

  ghost predicate PureVal(marks: seq<Mark>, r: R.IterVal, sub: set<VarName>, inner: bool)
    requires R.MarksOk(marks) && R.ValOk(r, |marks|)
  {
    match r
    case Num(_) => true
    case One(s) => PureMark(marks, s.mark, sub, inner)
    case Many(sum) => PureArgs(marks, sum.args, sub, inner)
  }

  lemma {:induction false} PureLater(marks: seq<Mark>, marks': seq<Mark>, k: nat, sub: set<VarName>, inner: bool)
    requires R.MarksOk(marks) && R.MarksOk(marks') && marks <= marks' && k < |marks|
    ensures PureMark(marks, k, sub, inner) == PureMark(marks', k, sub, inner)
    decreases k
  {
    assert marks'[k] == marks[k];
    match marks[k].source
    case Input(_) =>
    case Fused(sum) =>
      assert ArgsOk(sum.args, k);
      forall i | 0 <= i < |sum.args|
        ensures PureMark(marks, sum.args[i].mark, sub, inner) == PureMark(marks', sum.args[i].mark, sub, inner)
      {
        PureLater(marks, marks', sum.args[i].mark, sub, inner);
      }
  }

  lemma {:induction false} PureValLater(
    marks: seq<Mark>, marks': seq<Mark>, r: R.IterVal, sub: set<VarName>, inner: bool)
    requires R.MarksOk(marks) && R.MarksOk(marks') && marks <= marks' && R.ValOk(r, |marks|)
    requires PureVal(marks, r, sub, inner)
    ensures PureVal(marks', r, sub, inner)
  {
    match r
    case Num(_) =>
    case One(s) => PureLater(marks, marks', s.mark, sub, inner);
    case Many(sum) =>
      forall i | 0 <= i < |sum.args| ensures PureMark(marks', sum.args[i].mark, sub, inner) {
        PureLater(marks, marks', sum.args[i].mark, sub, inner);
      }
  }

  // ----- divisions -----

  datatype Kind = InnerKind | OuterKind | Mixed

  datatype Division = Division(outer: R.IterVal, outerExtent: int, inner: R.IterVal, innerExtent: int, kind: Kind)

  const NOTHING: R.IterVal := R.Many(Sum([], 0))

  function AllInner(v: R.IterVal, extent: int): Division { Division(NOTHING, 1, v, extent, InnerKind) }

  function AllOuter(v: R.IterVal, extent: int): Division { Division(v, extent, NOTHING, 1, OuterKind) }

  /** A split's digit, without its scale; a sum's value. */
  function Unscaled(r: R.IterVal, x: Vals): int {
    match r
    case Num(c) => c
    case One(s) => if s.Valid() then s.Digit(At(x, s.mark)) else 0
    case Many(sum) => TermSum(sum.args, x) + sum.base
  }

  /** At the values x, w is outer * innerExtent + inner with both in range. */
  predicate DividesAt(d: Division, w: R.IterVal, x: Vals) {
    && Unscaled(w, x) == Unscaled(d.outer, x) * d.innerExtent + Unscaled(d.inner, x)
    && 0 <= Unscaled(d.outer, x) < d.outerExtent && 0 <= Unscaled(d.inner, x) < d.innerExtent
  }

  ghost predicate DivisionOk(marks: seq<Mark>, sub: set<VarName>, d: Division, extent: int)
    requires R.MarksOk(marks)
  {
    && R.ValOk(d.outer, |marks|) && R.ValOk(d.inner, |marks|) && d.outerExtent > 0 && d.innerExtent > 0
    && !d.outer.Num? && !d.inner.Num?
    && PureVal(marks, d.outer, sub, false) && PureVal(marks, d.inner, sub, true)
    && d.outerExtent * d.innerExtent == extent
    && (d.kind == InnerKind ==> d.outer == NOTHING && d.outerExtent == 1)
    && (d.kind == OuterKind ==> d.inner == NOTHING && d.innerExtent == 1)
    && (d.outer.One? ==> d.outer.split.extent == d.outerExtent) &&
      (d.inner.One? ==> d.inner.split.extent == d.innerExtent)
  }

  /** d divides w, whatever the loop variables. */
  ghost predicate Divided(marks: seq<Mark>, sub: set<VarName>, d: Division, w: R.IterVal, extent: int)
    requires R.MarksOk(marks)
  {
    && DivisionOk(marks, sub, d, extent)
    && forall env :: R.InputsFit(marks, env) ==> DividesAt(d, w, R.Values(marks, env))
  }

  lemma {:induction false} UnscaledPrefix(r: R.IterVal, marks: seq<Mark>, marks': seq<Mark>, env: Env)
    requires marks <= marks' && R.ValOk(r, |marks|)
    ensures Unscaled(r, R.Values(marks', env)) == Unscaled(r, R.Values(marks, env))
  {
    R.ValuesPrefix(marks', env, |marks|);
    assert marks'[..|marks|] == marks;
    if r.Many? { R.TermSumPrefix(r.sum.args, R.Values(marks', env), |marks|); }
  }

  lemma {:induction false} DividedLater(
    marks: seq<Mark>, marks': seq<Mark>, sub: set<VarName>, d: Division, w: R.IterVal, extent: int)
    requires R.MarksOk(marks) && R.MarksOk(marks') && R.Extends(marks, marks') && R.ValOk(w, |marks|)
    requires Divided(marks, sub, d, w, extent)
    ensures Divided(marks', sub, d, w, extent)
  {
    PureValLater(marks, marks', d.outer, sub, false);
    PureValLater(marks, marks', d.inner, sub, true);
    forall env | R.InputsFit(marks', env) ensures DividesAt(d, w, R.Values(marks', env)) {
      R.ExtendsFit(marks, marks', env);
      UnscaledPrefix(w, marks, marks', env);
      UnscaledPrefix(d.outer, marks, marks', env);
      UnscaledPrefix(d.inner, marks, marks', env);
      assert DividesAt(d, w, R.Values(marks, env));
    }
  }

  /** A mark for a sum that stays below the extent. */
  lemma {:induction false} NewMark(marks: seq<Mark>, sum: Sum, extent: int)
    requires R.MarksOk(marks) && R.Ranged(marks) && extent > 0 && ArgsOk(sum.args, |marks|)
    requires forall env :: R.InputsFit(marks, env) ==> 0 <= Unscaled(R.Many(sum), R.Values(marks, env)) < extent
    ensures var marks' := marks + [Mark(Fused(sum), extent)];
      && R.MarksOk(marks') && R.Ranged(marks') && R.Extends(marks, marks')
      && forall env :: R.Values(marks', env) == R.Values(marks, env) + [Unscaled(R.Many(sum), R.Values(marks, env))]
  {
    var marks' := marks + [Mark(Fused(sum), extent)];
    assert marks'[..|marks|] == marks;
    forall k | 0 <= k < |marks'|
      ensures marks'[k].extent > 0 && (marks'[k].source.Fused? ==> ArgsOk(marks'[k].source.sum.args, k))
    {
      if k < |marks| { assert marks'[k] == marks[k]; }
    }
    assert forall env :: R.Values(marks', env) == R.Values(marks, env) + [Unscaled(R.Many(sum), R.Values(marks, env))];
    forall env | R.InputsFit(marks', env) ensures R.AllFit(marks', env) {
      R.ExtendsFit(marks, marks', env);
      assert R.AllFit(marks, env);
      forall k | 0 <= k < |marks'| ensures 0 <= R.Values(marks', env)[k] < marks'[k].extent {
        if k < |marks| { assert R.Values(marks', env)[k] == R.Values(marks, env)[k] && marks'[k] == marks[k]; }
      }
    }
  }

  // ----- splitting a divided mark -----

  /** v == y * e + x: digits below e are digits of x, digits above are digits of y. */
  lemma {:induction false} InnerDigit(v: int, y: int, e: int, x: int, lower: int, extent: int)
    requires v == y * e + x && 0 <= x < e && lower > 0 && extent > 0 && I.Divides(lower * extent, e)
    ensures (x / lower) % extent == (v / lower) % extent
  {
    var k :| e == (lower * extent) * k;
    Rearrange(y, lower, extent, k);
    AddMultiple(x, lower, (y * k) * extent);
    AddMultiple(x / lower, extent, y * k);
  }

  lemma Rearrange(y: int, l: int, n: int, k: int)
    ensures y * ((l * n) * k) == ((y * k) * n) * l
  {
    assert (l * n) * k == l * (n * k);
    assert y * (l * (n * k)) == (y * (n * k)) * l;
    assert y * (n * k) == (y * k) * n;
  }

  lemma {:induction false} OuterDigit(v: int, y: int, e: int, x: int, lower: int, extent: int)
    requires v == y * e + x && 0 <= x < e && lower > 0 && extent > 0
    ensures e * lower > 0 && (v / (e * lower)) % extent == (y / lower) % extent
  {
    SplitDivMod(v, e, lower);
    DivUnique(v, e, y, x);
  }

  // ----- a sum of outer args followed by inner args -----

  function DigitsAt(args: seq<Split>, x: Vals): (u: seq<int>)
    requires AllValid(args)
    ensures |u| == |args| && forall i :: 0 <= i < |args| ==> u[i] == args[i].Digit(At(x, args[i].mark))
  {
    seq(|args|, i requires 0 <= i < |args| => args[i].Digit(At(x, args[i].mark)))
  }

  /** Each scale is the number of combinations of the args after it. */
  function Rescale(args: seq<Split>): seq<Split> {
    if args == [] then [] else [args[0].(scale := Weight(args[1..]))] + Rescale(args[1..])
  }

  lemma {:induction false} RescaleOk(args: seq<Split>, bound: nat)
    requires ArgsOk(args, bound)
    ensures ArgsOk(Rescale(args), bound) && |Rescale(args)| == |args|
    ensures forall i :: 0 <= i < |args| ==> Rescale(args)[i].mark == args[i].mark
  {
    if args != [] {
      RescaleOk(args[1..], bound);
      var r := Rescale(args);
      assert r[1..] == Rescale(args[1..]);
      assert forall i :: 0 < i < |args| ==> r[i] == r[1..][i - 1] && args[i] == args[1..][i - 1];
    }
  }

  lemma {:induction false} RescaleValue(args: seq<Split>, x: Vals)
    requires AllValid(args)
    ensures TermSum(Rescale(args), x) == Number(args, DigitsAt(args, x))
    ensures 0 <= Number(args, DigitsAt(args, x)) < Weight(args)
  {
    if args != [] {
      RescaleValue(args[1..], x);
      assert DigitsAt(args, x)[1..] == DigitsAt(args[1..], x);
      assert Rescale(args)[1..] == Rescale(args[1..]);
      Commute(args[0].Digit(At(x, args[0].mark)), Weight(args[1..]));
    }
    NumberBound(args, DigitsAt(args, x));
  }

  /** MarkFromArgsAndBase: the loop over the args from the innermost outwards. */
  method MarkFromArgs(args: seq<Split>) returns (r: seq<Split>, extent: int)
    ensures r == Rescale(args) && extent == Weight(args)
  {
    r, extent := [], 1;
    for i := |args| downto 0
      invariant r == Rescale(args[i..]) && extent == Weight(args[i..])
    {
      assert args[i..][1..] == args[i + 1..];
      r := [args[i].(scale := extent)] + r;
      extent := extent * args[i].extent;
      assert extent == args[i].extent * Weight(args[i + 1..]);
    }
    assert args[0..] == args;
  }

  lemma {:induction false} WeightConcat(a: seq<Split>, b: seq<Split>)
    ensures Weight(a + b) == Weight(a) * Weight(b)
  {
    if a == [] {
      assert a + b == b;
    } else {
      assert (a + b)[1..] == a[1..] + b;
      WeightConcat(a[1..], b);
    }
  }

  lemma {:induction false} NumberConcat(a: seq<Split>, u: seq<int>, b: seq<Split>, v: seq<int>)
    requires |u| == |a| && |v| == |b|
    ensures Number(a + b, u + v) == Number(a, u) * Weight(b) + Number(b, v)
  {
    if a == [] {
      assert a + b == b && u + v == v;
    } else {
      assert (a + b)[1..] == a[1..] + b && (u + v)[1..] == u[1..] + v;
      NumberConcat(a[1..], u[1..], b, v);
      WeightConcat(a[1..], b);
      Collect3(u[0], Weight(a[1..]), Weight(b), Number(a[1..], u[1..]));
    }
  }

  lemma Collect3(d: int, w: int, e: int, n: int)
    ensures d * (w * e) + n * e == (d * w + n) * e
  {
  }

  /** Like in everything but mark, lower factor and scale: the same digit of the same extent. */
  ghost predicate SameDigit(marks: seq<Mark>, s: Split, t: Split) {
    && s.Valid() && t.Valid() && s.extent == t.extent
    && forall env :: R.InputsFit(marks, env) ==>
      var x := R.Values(marks, env); Unscaled(R.One(s), x) == Unscaled(R.One(t), x)
  }

  ghost predicate SameDigits(marks: seq<Mark>, a: seq<Split>, b: seq<Split>) {
    |a| == |b| && forall i :: 0 <= i < |a| ==> SameDigit(marks, a[i], b[i])
  }

  lemma {:induction false} SameWeight(a: seq<Split>, b: seq<Split>, u: seq<int>)
    requires |a| == |b| == |u| && forall i :: 0 <= i < |a| ==> a[i].extent == b[i].extent
    ensures Weight(a) == Weight(b) && Number(a, u) == Number(b, u)
  {
    if a != [] { SameWeight(a[1..], b[1..], u[1..]); }
  }

  /** The digits of an exact sum, cut into outer and inner args, divide it. */
  lemma {:induction false} CutSum(marks: seq<Mark>, args: seq<Split>, outer: seq<Split>, inner: seq<Split>, env: Env)
    requires AllValid(args) && AllValid(outer) && AllValid(inner) && ExactArgs(args) && args != []
    requires SameDigits(marks, outer + inner, args) && R.InputsFit(marks, env)
    ensures var x := R.Values(marks, env);
      && TermSum(args, x) == TermSum(Rescale(outer), x) * Weight(inner) + TermSum(Rescale(inner), x)
      && 0 <= TermSum(Rescale(outer), x) < Weight(outer) && 0 <= TermSum(Rescale(inner), x) < Weight(inner)
    ensures Weight(args) == Weight(outer) * Weight(inner)
  {
    var x := R.Values(marks, env);
    RescaleValue(outer, x);
    RescaleValue(inner, x);
    var u, v := DigitsAt(outer, x), DigitsAt(inner, x);
    NumberConcat(outer, u, inner, v);
    WeightConcat(outer, inner);
    forall i | 0 <= i < |args|
      ensures (u + v)[i] == DigitsAt(args, x)[i] && (outer + inner)[i].extent == args[i].extent
    {
      assert SameDigit(marks, (outer + inner)[i], args[i]);
    }
    assert u + v == DigitsAt(args, x);
    SameWeight(outer + inner, args, u + v);
    TermSumTotal(args, x);
    TotalIsScaledNumber(args, DigitsAt(args, x));
  }

  lemma {:induction false} TermSumTotal(args: seq<Split>, x: Vals)
    requires AllValid(args)
    ensures TermSum(args, x) == Total(args, DigitsAt(args, x))
  {
    if args != [] {
      TermSumTotal(args[1..], x);
      assert DigitsAt(args, x)[1..] == DigitsAt(args[1..], x);
    }
  }

  /** The args seen so far, replaced by outer and inner ones with the same digits. */
  ghost predicate Cut(marks: seq<Mark>, sub: set<VarName>, args: seq<Split>, outer: seq<Split>, inner: seq<Split>)
    requires R.MarksOk(marks)
  {
    && ArgsOk(outer, |marks|) && ArgsOk(inner, |marks|) && SameDigits(marks, outer + inner, args)
    && PureArgs(marks, outer, sub, false) && PureArgs(marks, inner, sub, true)
  }

  lemma {:induction false} SameDigitLater(marks: seq<Mark>, marks': seq<Mark>, s: Split, t: Split)
    requires R.Extends(marks, marks') && SameDigit(marks, s, t) && s.mark < |marks| && t.mark < |marks|
    ensures SameDigit(marks', s, t)
  {
    forall env | R.InputsFit(marks', env)
      ensures Unscaled(R.One(s), R.Values(marks', env)) == Unscaled(R.One(t), R.Values(marks', env))
    {
      R.ExtendsFit(marks, marks', env);
      UnscaledPrefix(R.One(s), marks, marks', env);
      UnscaledPrefix(R.One(t), marks, marks', env);
    }
  }

  lemma {:induction false} CutLater(
    marks: seq<Mark>, marks': seq<Mark>, sub: set<VarName>, args: seq<Split>, outer: seq<Split>, inner: seq<Split>)
    requires R.MarksOk(marks) && R.MarksOk(marks') && R.Extends(marks, marks') && ArgsOk(args, |marks|)
    requires Cut(marks, sub, args, outer, inner)
    ensures Cut(marks', sub, args, outer, inner)
  {
    PureValLater(marks, marks', R.Many(Sum(outer, 0)), sub, false);
    PureValLater(marks, marks', R.Many(Sum(inner, 0)), sub, true);
    forall i | 0 <= i < |args| ensures SameDigit(marks', (outer + inner)[i], args[i]) {
      SameDigitLater(marks, marks', (outer + inner)[i], args[i]);
    }
  }

  lemma {:induction false} CutMore(
    marks: seq<Mark>, sub: set<VarName>, args: seq<Split>, outer: seq<Split>, inner: seq<Split>,
                                   s: Split, t: Split, isInner: bool)
    requires R.MarksOk(marks) && Cut(marks, sub, args, outer, inner) && SameDigit(marks, t, s) && t.mark < |marks|
    requires PureMark(marks, t.mark, sub, isInner) && (isInner ==> outer == [])
    ensures isInner ==> Cut(marks, sub, [s] + args, outer, [t] + inner)
    ensures !isInner ==> Cut(marks, sub, [s] + args, [t] + outer, inner)
  {
    var before := outer + inner;
    if isInner {
      assert outer + ([t] + inner) == [t] + before;
    } else {
      assert ([t] + outer) + inner == [t] + before;
    }
    forall i | 0 <= i < |args| + 1 ensures SameDigit(marks, ([t] + before)[i], ([s] + args)[i]) {
      if i > 0 { assert ([t] + before)[i] == before[i - 1] && ([s] + args)[i] == args[i - 1]; }
    }
  }

  /** The outer and inner sums divide the sum of all the args. */
  lemma {:induction false} CutDivides(
    marks: seq<Mark>, sub: set<VarName>, args: seq<Split>, outer: seq<Split>, inner: seq<Split>)
    requires R.MarksOk(marks) && ArgsOk(args, |marks|) && ExactArgs(args) && args != []
    requires Cut(marks, sub, args, outer, inner)
    ensures var d := Division(R.Many(Sum(Rescale(outer), 0)), Weight(outer), R.Many(Sum(Rescale(inner), 0)),
      Weight(inner), Mixed);
      Divided(marks, sub, d, R.Many(Sum(args, 0)), Weight(args))
  {
    var d := Division(R.Many(Sum(Rescale(outer), 0)), Weight(outer), R.Many(Sum(Rescale(inner), 0)),
      Weight(inner), Mixed);
    RescaleOk(outer, |marks|);
    RescaleOk(inner, |marks|);
    WeightPositive(outer);
    WeightPositive(inner);
    forall env | R.InputsFit(marks, env) ensures DividesAt(d, R.Many(Sum(args, 0)), R.Values(marks, env)) {
      CutSum(marks, args, outer, inner, env);
    }
    WeightConcat(outer, inner);
    forall i | 0 <= i < |args| ensures (outer + inner)[i].extent == args[i].extent {
      assert SameDigit(marks, (outer + inner)[i], args[i]);
    }
    SameWeight(outer + inner, args, seq(|args|, i => 0));
  }

  // ----- the divider -----

  /** An exactly fused map that passes the bijective check, with its splits collected. */
  ghost predicate Ready(g: Graph, c: Collected) {
    WellFormed(g) && ExactlyFused(g) && AllPass(g, true) && Complete(g, c)
  }

  ghost predicate Recorded(g: Graph, marks: seq<Mark>, sub: set<VarName>, table: map<Node, Division>)
    requires WellFormed(g) && R.MarksOk(marks)
  {
    forall n :: n in table ==> LiveSplit(g, n) && SplitDivided(g, marks, sub, table[n], n)
  }

  ghost predicate SplitDivided(g: Graph, marks: seq<Mark>, sub: set<VarName>, d: Division, n: Node)
    requires R.MarksOk(marks) && ValidNode(g, n) && n.SplitNode?
  {
    Divided(marks, sub, d, R.One(SplitAt(g, n)), SplitAt(g, n).extent) && UnitOr(d, SplitAt(g, n).scale)
  }

  /** Splits on either side have scale one or the given scale. */
  predicate UnitOr(d: Division, scale: int) {
    && (d.outer.One? ==> d.outer.split.scale == 1 || d.outer.split.scale == scale)
    && (d.inner.One? ==> d.inner.split.scale == 1 || d.inner.split.scale == scale)
  }

  lemma {:induction false} RecordedLater(
    g: Graph, marks: seq<Mark>, marks': seq<Mark>, sub: set<VarName>, table: map<Node, Division>)
    requires WellFormed(g) && R.MarksOk(marks) && R.MarksOk(marks') && R.Extends(g.marks, marks)
    requires R.Extends(marks, marks')
    requires Recorded(g, marks, sub, table)
    ensures Recorded(g, marks', sub, table)
  {
    forall n | n in table
      ensures LiveSplit(g, n) && SplitDivided(g, marks', sub, table[n], n)
    {
      ValidSplit(g, n);
      DividedLater(marks, marks', sub, table[n], R.One(SplitAt(g, n)), SplitAt(g, n).extent);
    }
  }

  /** The only split of a mark is the mark. */
  lemma {:induction false} OnlySplit(g: Graph, c: Collected, n: Node)
    requires Ready(g, c) && LiveSplit(g, n) && |SplitsOf(g, c.met, SplitAt(g, n).mark)| == 1
    ensures SplitAt(g, n).lower == 1 && SplitAt(g, n).mark < |g.marks|
    ensures SplitAt(g, n).extent == g.marks[SplitAt(g, n).mark].extent
  {
    ValidSplit(g, n);
    var k := SplitAt(g, n).mark;
    assert Splits(g, n, k);
    assert MarkPasses(g, k, true);
    var p :| LivePlaces(g, k, p, true);
    SplitsOfSpec(g, c.met, k);
    var s := SplitsOf(g, c.met, k);
    forall m ensures m in p <==> m in s {
      if m in p { assert LiveSplit(g, m); }
    }
    SameLength(s, p);
    assert p[0] in p;
    assert n in s && p[0] in s;
    assert p == [n];
    var t := NodeSplits(g, p);
    assert t[1..] == [];
    assert Chain(t[1..], t[0].lower * t[0].extent, g.marks[k].extent);
  }

  /** The chosen splits end at places that divide e. */
  ghost predicate InnerPlaces(splits: seq<Split>, inner: seq<nat>, e: int) {
    forall i :: 0 <= i < |inner| ==>
      inner[i] < |splits| && I.Divides(splits[inner[i]].lower * splits[inner[i]].extent, e)
  }

  /** The chosen splits start at multiples of e. */
  ghost predicate OuterPlaces(splits: seq<Split>, outer: seq<nat>, e: int) {
    forall i :: 0 <= i < |outer| ==> outer[i] < |splits| && I.Divides(e, splits[outer[i]].lower)
  }

  /** The splits from place one to the inner extent, and those from there on, each in order of place. */
  method FindBoundary(splits: seq<Split>, e: int, isOuter: bool) returns (ok: bool, inner: seq<nat>, outer: seq<nat>)
    requires AllValid(splits) && e > 0 && (isOuter ==> e == 1)
    ensures ok ==> forall j :: 0 <= j < |splits| ==> j in inner || j in outer
    ensures ok ==> InnerPlaces(splits, inner, e) && OuterPlaces(splits, outer, e)
    ensures ok && outer != [] ==> splits[outer[0]].lower == e
  {
    inner, outer := [], [];
    var boundary, expected := isOuter, 1;
    var used := NoneUsed(|splits|);
    AllFree(used);
    assert I.Divides(e, e) by { assert e == e * 1; }
    for i := 0 to |splits|
      invariant |used| == |splits| && Free(used) == |splits| - i
      invariant forall j :: 0 <= j < |splits| && used[j] ==> j in inner || j in outer
      invariant InnerPlaces(splits, inner, if boundary then e else expected) && OuterPlaces(splits, outer, e)
      invariant outer != [] ==> boundary && splits[outer[0]].lower == e
      invariant boundary ==> I.Divides(e, expected) && (outer == [] ==> expected == e)
    {
      var j := FindExact(splits, used, expected);
      if j == |splits| {
        ok := false;
        return;
      }
      UseFree(used, j);
      used := used[j := true];
      var next := expected * splits[j].extent;
      assert I.Divides(expected, next);
      if boundary {
        outer := outer + [j];
        I.DividesTrans(e, expected, next);
      } else {
        ghost var before := inner;
        inner := inner + [j];
        assert I.Divides(next, next) by { assert next == next * 1; }
        forall t | 0 <= t < |inner|
          ensures I.Divides(splits[inner[t]].lower * splits[inner[t]].extent, next)
        {
          if t < |before| {
            assert inner[t] == before[t];
            I.DividesTrans(splits[inner[t]].lower * splits[inner[t]].extent, expected, next);
          }
        }
      }
      expected := next;
      if expected == e {
        boundary := true;
      }
    }
    NoneFree(used);
    ok := boundary;
  }

  // ----- recording the splits of a mark -----

  /** A split of an input goes wholly to one side. */
  lemma {:induction false} InputSplit(marks: seq<Mark>, sub: set<VarName>, s: Split, v: VarName)
    requires R.MarksOk(marks) && s.Valid() && s.mark < |marks| && marks[s.mark].source == Input(v)
    ensures Divided(marks, sub, if v in sub then AllInner(R.One(s), s.extent)
      else AllOuter(R.One(s), s.extent), R.One(s), s.extent)
  {
    forall env ensures Unscaled(NOTHING, R.Values(marks, env)) == 0 {
    }
  }

  /** The division of mark k, and marks for its two parts. */
  ghost predicate Parted(marks: seq<Mark>, sub: set<VarName>, k: nat, d: Division, outerMark: nat, innerMark: nat)
    requires R.MarksOk(marks)
  {
    && k < |marks| && outerMark < |marks| && innerMark < |marks| && marks[k].source.Fused?
    && Divided(marks, sub, d, R.Many(marks[k].source.sum), marks[k].extent) && d.outer.Many? && d.inner.Many?
    && marks[outerMark] == Mark(Fused(d.outer.sum), d.outerExtent) &&
      marks[innerMark] == Mark(Fused(d.inner.sum), d.innerExtent)
  }

  lemma {:induction false} PartedValue(
    marks: seq<Mark>, sub: set<VarName>, k: nat, d: Division, outerMark: nat, innerMark: nat, env: Env)
    requires R.MarksOk(marks) && Parted(marks, sub, k, d, outerMark, innerMark) && R.InputsFit(marks, env)
    ensures var x := R.Values(marks, env);
      x[k] == x[outerMark] * d.innerExtent + x[innerMark] && 0 <= x[innerMark] < d.innerExtent
  {
    R.MarkValue(marks, k, env);
    R.MarkValue(marks, outerMark, env);
    R.MarkValue(marks, innerMark, env);
    assert DividesAt(d, R.Many(marks[k].source.sum), R.Values(marks, env));
  }

  lemma {:induction false} InnerSplit(
    marks: seq<Mark>, sub: set<VarName>, d: Division, outerMark: nat, innerMark: nat, s: Split)
    requires R.MarksOk(marks) && s.Valid() && Parted(marks, sub, s.mark, d, outerMark, innerMark)
    requires I.Divides(s.lower * s.extent, d.innerExtent)
    ensures Divided(marks, sub, AllInner(R.One(s.(mark := innerMark)), s.extent), R.One(s), s.extent)
  {
    var t := s.(mark := innerMark);
    forall env | R.InputsFit(marks, env)
      ensures DividesAt(AllInner(R.One(t), s.extent), R.One(s), R.Values(marks, env))
    {
      var x := R.Values(marks, env);
      PartedValue(marks, sub, s.mark, d, outerMark, innerMark, env);
      InnerDigit(x[s.mark], x[outerMark], d.innerExtent, x[innerMark], s.lower, s.extent);
      assert Unscaled(NOTHING, x) == 0;
    }
  }

  lemma {:induction false} OuterSplit(
    marks: seq<Mark>, sub: set<VarName>, d: Division, outerMark: nat, innerMark: nat, s: Split, t: Split)
    requires R.MarksOk(marks) && s.Valid() && Parted(marks, sub, s.mark, d, outerMark, innerMark)
    requires I.Divides(d.innerExtent, s.lower)
    requires t == s.(mark := outerMark, lower := I.FloorDiv(s.lower, d.innerExtent))
    ensures t.Valid() && Divided(marks, sub, AllOuter(R.One(t), s.extent), R.One(s), s.extent)
  {
    I.ExactDiv(d.innerExtent, s.lower);
    MulPositiveFactor(d.innerExtent, t.lower);
    forall env | R.InputsFit(marks, env)
      ensures DividesAt(AllOuter(R.One(t), s.extent), R.One(s), R.Values(marks, env))
    {
      var x := R.Values(marks, env);
      PartedValue(marks, sub, s.mark, d, outerMark, innerMark, env);
      OuterDigit(x[s.mark], x[outerMark], d.innerExtent, x[innerMark], t.lower, s.extent);
      assert Unscaled(NOTHING, x) == 0;
    }
  }

  /** Fused iterators read inputs only, and are read by one split each; a binding is one of them, unscaled. */
  ghost predicate Flat(g: Graph)
    requires WellFormed(g)
  {
    && (forall k, i :: 0 <= k < |g.marks| && g.marks[k].source.Fused? && 0 <= i < |g.marks[k].source.sum.args| ==>
          ReadsInput(g, SplitNode(Inner(k), i)))
    && (forall k, p, q :: 0 <= k < |g.marks| && g.marks[k].source.Fused? && Splits(g, p, k) && Splits(g, q, k) ==>
          p == q)
    && (forall i :: 0 <= i < |g.outputs| ==> |g.outputs[i].args| == 1 && g.outputs[i].args[0].scale == 1)
  }

  predicate ReadsInput(g: Graph, n: Node) {
    && n.SplitNode? && ValidNode(g, n) && SplitAt(g, n).mark < |g.marks|
    && g.marks[SplitAt(g, n).mark].source.Input?
  }

  /** The split reads a sub-iterator. */
  predicate IsInner(g: Graph, sub: set<VarName>, n: Node)
    requires ReadsInput(g, n)
  {
    g.marks[SplitAt(g, n).mark].source.v in sub
  }

  function InputDivision(g: Graph, sub: set<VarName>, n: Node): Division
    requires ReadsInput(g, n)
  {
    var s := SplitAt(g, n);
    if IsInner(g, sub, n) then AllInner(R.One(s), s.extent) else AllOuter(R.One(s), s.extent)
  }

  /** No arg from position `from` on that reads a sub-iterator lies outside one that does not. */
  ghost predicate InnerLast(g: Graph, sub: set<VarName>, k: nat, from: nat)
    requires k < |g.marks| && g.marks[k].source.Fused?
    requires forall i :: 0 <= i < |g.marks[k].source.sum.args| ==> ReadsInput(g, SplitNode(Inner(k), i))
  {
    forall i, j :: from <= i < j < |g.marks[k].source.sum.args| && IsInner(g, sub, SplitNode(Inner(k), i)) ==>
      IsInner(g, sub, SplitNode(Inner(k), j))
  }

  ghost predicate AllInnerFrom(g: Graph, sub: set<VarName>, k: nat, from: nat)
    requires k < |g.marks| && g.marks[k].source.Fused?
    requires forall i :: 0 <= i < |g.marks[k].source.sum.args| ==> ReadsInput(g, SplitNode(Inner(k), i))
  {
    forall i :: from <= i < |g.marks[k].source.sum.args| ==> IsInner(g, sub, SplitNode(Inner(k), i))
  }

  /** The divided splits of a flat map are those of inputs. */
  ghost predicate FlatRecorded(g: Graph, sub: set<VarName>, table: map<Node, Division>)
    requires WellFormed(g)
  {
    Flat(g) ==> forall n :: n in table ==> ReadsInput(g, n) && table[n] == InputDivision(g, sub, n)
  }

  /** A split of a flat map can be divided. */
  ghost predicate Cuttable(g: Graph, sub: set<VarName>, n: Node)
    requires WellFormed(g) && Flat(g) && n.SplitNode? && ValidNode(g, n) && SplitAt(g, n).mark < |g.marks|
  {
    g.marks[SplitAt(g, n).mark].source.Fused? ==> InnerLast(g, sub, SplitAt(g, n).mark, 0)
  }

  lemma {:induction false} SingleNode(g: Graph, c: Collected, n: Node)
    requires Ready(g, c) && LiveSplit(g, n) && Flat(g) && g.marks[SplitAt(g, n).mark].source.Fused?
    ensures |SplitsOf(g, c.met, SplitAt(g, n).mark)| == 1
  {
    var k := SplitAt(g, n).mark;
    var nodes := SplitsOf(g, c.met, k);
    NodesOf(g, c, n);
    SplitsOfSpec(g, c.met, k);
    NoRepeatPairs(nodes);
    forall i | 0 <= i < |nodes| ensures nodes[i] == n { assert nodes[i] in nodes; }
  }

  class SubspaceDivider {
    const g: Graph
    const c: Collected
    const sub: set<VarName>
    var marks: seq<Mark>
    var splitMap: map<Node, Division>

    ghost predicate Valid()
      reads this
    {
      && Ready(g, c) && R.MarksOk(marks) && R.Ranged(marks) && R.Extends(g.marks, marks)
      && Recorded(g, marks, sub, splitMap) && FlatRecorded(g, sub, splitMap)
    }

    constructor (g: Graph, c: Collected, sub: set<VarName>)
      requires Ready(g, c)
      ensures Valid() && this.g == g && this.c == c && this.sub == sub && marks == g.marks
    {
      this.g, this.c, this.sub := g, c, sub;
      marks, splitMap := g.marks, map[];
      new;
      MarksReady(g);
    }

    method AddMark(sum: Sum, extent: int) returns (k: nat)
      requires Valid() && extent > 0 && ArgsOk(sum.args, |marks|)
      requires forall env :: R.InputsFit(marks, env) ==> 0 <= Unscaled(R.Many(sum), R.Values(marks, env)) < extent
      modifies this`marks
      ensures Valid() && R.Extends(old(marks), marks) && marks == old(marks) + [Mark(Fused(sum), extent)]
      ensures k == |old(marks)|
    {
      NewMark(marks, sum, extent);
      ghost var marks' := marks + [Mark(Fused(sum), extent)];
      RecordedLater(g, marks, marks', sub, splitMap);
      R.ExtendsTrans(g.marks, marks, marks');
      k := |marks|;
      marks := marks + [Mark(Fused(sum), extent)];
    }

    /** The non-empty side of a one-sided division as a split with the same digit as w. */
    method AsSplit(v: R.IterVal, extent: int, ghost w: Split, ghost isInner: bool) returns (t: Split)
      requires Valid() && R.ValOk(v, |marks|) && PureVal(marks, v, sub, isInner) && w.Valid() && w.mark < |marks|
      requires w.extent == extent
      requires !v.Num? && (v.One? ==> v.split.extent == extent)
      requires forall env :: R.InputsFit(marks, env) ==>
        Unscaled(R.One(w), R.Values(marks, env)) == Unscaled(v, R.Values(marks, env))
      modifies this`marks
      ensures Valid() && R.Extends(old(marks), marks)
      ensures t.Valid() && t.mark < |marks| && SameDigit(marks, t, w) && PureMark(marks, t.mark, sub, isInner)
    {
      match v
      case One(s) => t := s;
      case Many(sum) =>
        forall env | R.InputsFit(marks, env)
          ensures 0 <= Unscaled(v, R.Values(marks, env)) < extent
        {
          assert Unscaled(R.One(w), R.Values(marks, env)) == Unscaled(v, R.Values(marks, env));
        }
        ghost var marks0 := marks;
        var k := AddMark(sum, extent);
        t := Split(k, 1, extent, 1);
        WholeIsSame(marks0, marks, sum, extent, w);
        PureValLater(marks0, marks, v, sub, isInner);
    }

    /** The division of one split, from the record or by dividing its mark. */
    method DivideIterSplitExpr(n: Node) returns (r: Option<Division>)
      requires Valid() && LiveSplit(g, n)
      modifies this
      ensures Valid() && R.Extends(old(marks), marks)
      ensures r.Some? ==> SplitDivided(g, marks, sub, r.value, n)
      ensures Flat(g) ==> (r.Some? <==> Cuttable(g, sub, n))
      ensures Flat(g) && ReadsInput(g, n) ==> r == Some(InputDivision(g, sub, n))
      decreases Rank(g, n), 1
    {
      ValidSplit(g, n);
      if n in splitMap {
        return Some(splitMap[n]);
      }
      var k := SplitAt(g, n).mark;
      var nodes := SplitsOf(g, c.met, k);
      NodesOf(g, c, n);
      match g.marks[k].source {
        case Input(v) => RecordInput(nodes, v);
        case Fused(sum) =>
          assert Child(g, n, SumNode(Inner(k)));
          LiveChild(g, n, SumNode(Inner(k)));
          RankFalls(g, n, SumNode(Inner(k)));
          var d := DivideIterSumExpr(k);
          if d.None? {
            return None;
          }
          if Flat(g) { SingleNode(g, c, n); }
          if |nodes| == 1 {
            OnlySplit(g, c, n);
            WholeDivision(marks, sub, d.value, k, SplitAt(g, n));
            return d;
          }
          if !d.value.outer.Many? || !d.value.inner.Many? {
            return None;
          }
          var ok := RecordParts(nodes, k, d.value);
          if !ok {
            return None;
          }
      }
      r := Some(splitMap[n]);
    }

    method RecordInput(nodes: seq<Node>, v: VarName)
      requires Valid()
      requires forall n :: n in nodes ==>
        LiveSplit(g, n) && SplitAt(g, n).mark < |g.marks| && g.marks[SplitAt(g, n).mark].source == Input(v)
      modifies this`splitMap
      ensures Valid() && forall n :: n in nodes ==> n in splitMap
    {
      for i := 0 to |nodes|
        invariant Valid() && forall j :: 0 <= j < i ==> nodes[j] in splitMap
      {
        assert nodes[i] in nodes;
        var s := SplitAt(g, nodes[i]);
        ValidSplit(g, nodes[i]);
        assert marks[s.mark] == g.marks[s.mark];
        InputSplit(marks, sub, s, v);
        splitMap := splitMap[nodes[i] := InputDivision(g, sub, nodes[i])];
      }
    }

    /** Marks for the two parts of mark k. */
    method AddParts(k: nat, d: Division) returns (outerMark: nat, innerMark: nat)
      requires Valid() && k < |g.marks| && g.marks[k].source.Fused? && d.outer.Many? && d.inner.Many?
      requires Divided(marks, sub, d, R.Many(g.marks[k].source.sum), g.marks[k].extent)
      modifies this`marks
      ensures Valid() && R.Extends(old(marks), marks) && Parted(marks, sub, k, d, outerMark, innerMark)
    {
      ghost var marks0 := marks;
      assert marks[k] == g.marks[k];
      PartsInRange(marks, sub, k, d);
      outerMark := AddMark(d.outer.sum, d.outerExtent);
      ghost var marks1 := marks;
      PartsStay(marks0, marks1, sub, k, d);
      innerMark := AddMark(d.inner.sum, d.innerExtent);
      R.ExtendsTrans(marks0, marks1, marks);
      assert ArgsOk(g.marks[k].source.sum.args, |marks1|) by { ExactHere(g, k); }
      DividedLater(marks1, marks, sub, d, R.Many(g.marks[k].source.sum), g.marks[k].extent);
      assert marks[k] == g.marks[k] && marks[outerMark] == marks1[outerMark];
    }

    /** The splits below the boundary read the inner part, the others the outer part. */
    method RecordParts(nodes: seq<Node>, k: nat, d: Division) returns (ok: bool)
      requires Valid() && k < |g.marks| && g.marks[k].source.Fused? && d.outer.Many? && d.inner.Many?
      requires Divided(marks, sub, d, R.Many(g.marks[k].source.sum), g.marks[k].extent)
      requires SplitsAll(g, nodes, k) && !Flat(g)
      modifies this
      ensures Valid() && R.Extends(old(marks), marks)
      ensures ok ==> forall n :: n in nodes ==> n in splitMap
    {
      var outerMark, innerMark := AddParts(k, d);
      AllNodesValid(g, nodes, k);
      var splits := NodeSplits(g, nodes);
      var inner, outer;
      ok, inner, outer := FindBoundary(splits, d.innerExtent, d.kind == OuterKind);
      if !ok {
        return;
      }
      PickedReady(g, nodes, k, inner, outer, d.innerExtent);
      PickedAll(nodes, inner, outer);
      var innerNodes, outerNodes := Picked(nodes, inner), Picked(nodes, outer);
      InnerAllDivided(g, marks, sub, innerNodes, k, d, outerMark, innerMark);
      RecordAll(innerNodes, InnerParts(g, innerNodes, innerMark), []);
      if outerNodes != [] {
        OuterAllDivided(g, marks, sub, outerNodes, k, d, outerMark, innerMark);
        RecordAll(outerNodes, OuterParts(g, outerNodes, outerMark, SplitAt(g, outerNodes[0]).lower), innerNodes);
      }
    }

    method RecordAll(nodes: seq<Node>, parts: seq<Division>, ghost done: seq<Node>)
      requires Valid() && AllDivided(g, marks, sub, nodes, parts) && !Flat(g) && forall n :: n in done ==> n in splitMap
      modifies this`splitMap
      ensures Valid() && (forall n :: n in done ==> n in splitMap) && forall n :: n in nodes ==> n in splitMap
    {
      for i := 0 to |nodes|
        invariant Valid() && (forall n :: n in done ==> n in splitMap) && forall j :: 0 <= j < i ==>
          nodes[j] in splitMap
      {
        splitMap := splitMap[nodes[i] := parts[i]];
      }
    }

    /** The division of the sum a mark stands for. */
    method DivideIterSumExpr(k: nat) returns (r: Option<Division>)
      requires Valid() && k < |g.marks| && g.marks[k].source.Fused? && Live(g, SumNode(Inner(k)))
      modifies this
      ensures Valid() && R.Extends(old(marks), marks)
      ensures r.Some? ==>
        Divided(marks, sub, r.value, R.Many(g.marks[k].source.sum), g.marks[k].extent) && UnitOr(r.value, 1)
      ensures Flat(g) ==> (r.Some? <==> InnerLast(g, sub, k, 0))
      decreases Rank(g, SumNode(Inner(k))), 2
    {
      var sum := g.marks[k].source.sum;
      ExactHere(g, k);
      if |sum.args| == 1 {
        RankFalls(g, SumNode(Inner(k)), SplitNode(Inner(k), 0));
        LiveChild(g, SumNode(Inner(k)), SplitNode(Inner(k), 0));
        r := DivideIterSplitExpr(SplitNode(Inner(k), 0));
        if r.Some? { LoneDivision(marks, sub, r.value, sum); }
        return;
      }
      var ok, outer, inner := CutArgs(k);
      if !ok {
        return None;
      }
      ArgsBelow(g, marks, k, 0);
      assert sum.args[0..] == sum.args;
      CutDivides(marks, sub, sum.args, outer, inner);
      var outerArgs, outerExtent := MarkFromArgs(outer);
      var innerArgs, innerExtent := MarkFromArgs(inner);
      r := Some(Division(R.Many(Sum(outerArgs, 0)), outerExtent, R.Many(Sum(innerArgs, sum.base)), innerExtent, Mixed));
    }

    /** The args from the innermost outwards: inner ones, then outer ones. */
    method CutArgs(k: nat) returns (ok: bool, outer: seq<Split>, inner: seq<Split>)
      requires Valid() && k < |g.marks| && g.marks[k].source.Fused? && Live(g, SumNode(Inner(k)))
      modifies this
      ensures Valid() && R.Extends(old(marks), marks)
      ensures ok ==> Cut(marks, sub, g.marks[k].source.sum.args, outer, inner)
      ensures Flat(g) ==> (ok <==> InnerLast(g, sub, k, 0))
      decreases Rank(g, SumNode(Inner(k))), 1
    {
      var args := g.marks[k].source.sum.args;
      ok, outer, inner := false, [], [];
      var onInner := true;
      CutNothing(marks, sub);
      assert args[|args|..] == [];
      for i := |args| downto 0
        invariant Valid() && R.Extends(old(marks), marks) && (onInner ==> outer == [])
        invariant Cut(marks, sub, args[i..], outer, inner)
        invariant Flat(g) ==> InnerLast(g, sub, k, i) && (onInner <==> AllInnerFrom(g, sub, k, i))
      {
        ghost var marks0 := marks;
        var t, isInner := DivideArg(k, i, onInner);
        R.ExtendsTrans(old(marks), marks0, marks);
        if t.None? {
          return;
        }
        ArgsBelow(g, marks0, k, i + 1);
        CutLater(marks0, marks, sub, args[i + 1..], outer, inner);
        CutMore(marks, sub, args[i + 1..], outer, inner, args[i], t.value, isInner);
        assert args[i..] == [args[i]] + args[i + 1..];
        if isInner {
          inner := [t.value] + inner;
        } else {
          outer, onInner := [t.value] + outer, false;
        }
      }
      assert args[0..] == args;
      ok := true;
    }

    /** One arg, as a split of one side; an inner one must not lie outside an outer one. */
    method DivideArg(k: nat, i: nat, onInner: bool) returns (t: Option<Split>, isInner: bool)
      requires Valid() && k < |g.marks| && g.marks[k].source.Fused? && Live(g, SumNode(Inner(k)))
      requires i < |g.marks[k].source.sum.args|
      modifies this
      ensures Valid() && R.Extends(old(marks), marks)
      ensures t.Some? ==> t.value.mark < |marks| && SameDigit(marks, t.value, g.marks[k].source.sum.args[i])
      ensures t.Some? ==> PureMark(marks, t.value.mark, sub, isInner) && (isInner ==> onInner)
      ensures Flat(g) ==> (t.Some? <==> IsInner(g, sub, SplitNode(Inner(k), i)) ==> onInner)
      ensures Flat(g) && t.Some? ==> isInner == IsInner(g, sub, SplitNode(Inner(k), i))
      decreases Rank(g, SumNode(Inner(k))), 0
    {
      var n := SplitNode(Inner(k), i);
      RankFalls(g, SumNode(Inner(k)), n);
      LiveChild(g, SumNode(Inner(k)), n);
      ValidSplit(g, n);
      isInner := false;
      var d := DivideIterSplitExpr(n);
      if d.None? {
        return None, false;
      }
      ghost var marks0 := marks;
      OneSided(marks, sub, d.value, SplitAt(g, n));
      match d.value.kind {
        case InnerKind =>
          if !onInner {
            return None, false;
          }
          var s := AsSplit(d.value.inner, d.value.innerExtent, SplitAt(g, n), true);
          t, isInner := Some(s), true;
        case OuterKind =>
          var s := AsSplit(d.value.outer, d.value.outerExtent, SplitAt(g, n), false);
          t := Some(s);
        case Mixed => t := None;
      }
      R.ExtendsTrans(old(marks), marks0, marks);
    }

    /** The division of a binding; its base goes to the inner part. */
    method DivideBinding(i: nat) returns (r: Option<Division>)
      requires Valid() && i < |g.outputs|
      modifies this
      ensures Valid() && R.Extends(old(marks), marks)
      ensures r.Some? ==> BindingDivided(marks, sub, r.value, g.outputs[i])
      ensures Flat(g) ==> (r.Some? <==> Cuttable(g, sub, SplitNode(Out(i), 0)))
    {
      var sum := g.outputs[i];
      if |sum.args| == 0 {
        r := Some(Division(NOTHING, 1, R.Many(Sum([], sum.base)), 1, Mixed));
        return;
      }
      if |sum.args| > 1 || sum.args[0].scale != 1 {
        return None;
      }
      var n := SplitNode(Out(i), 0);
      assert Live(g, SumNode(Out(i)));
      assert Live(g, n);
      r := DivideIterSplitExpr(n);
      if r.Some? {
        AddBaseDivides(marks, sub, r.value, sum);
        r := Some(AddBase(r.value, sum.base));
      }
    }
  }

  function AddBase(d: Division, base: int): Division {
    if base == 0 then d
    else match d.inner
      case One(s) => d.(inner := R.Many(Sum([s], base)))
      case Many(sum) => d.(inner := R.Many(Sum(sum.args, sum.base + base)))
      case Num(c) => d
  }

  /** binding == outer * innerExtent + inner, inner reaching from the base up. */
  ghost predicate BindingDivided(marks: seq<Mark>, sub: set<VarName>, d: Division, sum: Sum)
    requires R.MarksOk(marks)
  {
    && R.ValOk(d.outer, |marks|) && R.ValOk(d.inner, |marks|) && ArgsOk(sum.args, |marks|)
    && PureVal(marks, d.outer, sub, false) && PureVal(marks, d.inner, sub, true)
    && forall env :: R.InputsFit(marks, env) ==> BindingAt(d, sum, R.Values(marks, env))
  }

  predicate BindingAt(d: Division, sum: Sum, x: Vals) {
    && R.ValAt(R.Many(sum), x) == R.ValAt(d.outer, x) * d.innerExtent + R.ValAt(d.inner, x)
    && 0 <= R.ValAt(d.outer, x) < d.outerExtent && 0 <= R.ValAt(d.inner, x) - sum.base < d.innerExtent
  }

  lemma {:induction false} AddBaseDivides(marks: seq<Mark>, sub: set<VarName>, d: Division, sum: Sum)
    requires R.MarksOk(marks) && |sum.args| == 1 && sum.args[0].Valid() && sum.args[0].mark < |marks|
    requires sum.args[0].scale == 1
    requires Divided(marks, sub, d, R.One(sum.args[0]), sum.args[0].extent) && UnitOr(d, 1) && !d.inner.Num?
    ensures BindingDivided(marks, sub, AddBase(d, sum.base), sum)
  {
    var e := AddBase(d, sum.base);
    forall env | R.InputsFit(marks, env) ensures BindingAt(e, sum, R.Values(marks, env)) {
      var x := R.Values(marks, env);
      assert sum.args[1..] == [];
      assert TermSum(sum.args, x) == Term(sum.args[0], x) + TermSum([], x);
      assert DividesAt(d, R.One(sum.args[0]), x);
      if d.inner.One? { assert TermSum([d.inner.split], x) == Term(d.inner.split, x) + TermSum([], x); }
    }
  }

  /** Every binding divided, or nothing. */
  method SubspaceDivide(g: Graph, sub: set<VarName>) returns (r: Option<seq<Division>>, marks: seq<Mark>)
    requires WellFormed(g) && ExactlyFused(g) && AllPass(g, true)
    ensures R.MarksOk(marks) && R.Extends(g.marks, marks)
    ensures r.Some? ==> |r.value| == |g.outputs|
    ensures r.Some? ==> forall i :: 0 <= i < |g.outputs| ==> BindingDivided(marks, sub, r.value[i], g.outputs[i])
    ensures Flat(g) ==> (r.Some? <==> forall i :: 0 <= i < |g.outputs| ==> Cuttable(g, sub, SplitNode(Out(i), 0)))
  {
    var c := MappingCheck.Collect(g);
    var divider := new SubspaceDivider(g, c, sub);
    var results: seq<Division> := [];
    for i := 0 to |g.outputs|
      invariant divider.Valid() && divider.g == g && divider.sub == sub && |results| == i
      invariant forall j :: 0 <= j < i ==> BindingDivided(divider.marks, sub, results[j], g.outputs[j])
      invariant Flat(g) ==> forall j :: 0 <= j < i ==> Cuttable(g, sub, SplitNode(Out(j), 0))
    {
      ghost var marks0 := divider.marks;
      var d := divider.DivideBinding(i);
      if d.None? {
        return None, divider.marks;
      }
      forall j | 0 <= j < i ensures BindingDivided(divider.marks, sub, results[j], g.outputs[j]) {
        BindingLater(marks0, divider.marks, sub, results[j], g.outputs[j]);
      }
      results := results + [d.value];
    }
    r, marks := Some(results), divider.marks;
  }

  lemma {:induction false} BindingLater(marks: seq<Mark>, marks': seq<Mark>, sub: set<VarName>, d: Division, sum: Sum)
    requires R.MarksOk(marks) && R.MarksOk(marks') && R.Extends(marks, marks') && BindingDivided(marks, sub, d, sum)
    ensures BindingDivided(marks', sub, d, sum)
  {
    PureValLater(marks, marks', d.outer, sub, false);
    PureValLater(marks, marks', d.inner, sub, true);
    forall env | R.InputsFit(marks', env) ensures BindingAt(d, sum, R.Values(marks', env)) {
      R.ExtendsFit(marks, marks', env);
      R.ValPrefix(R.Many(sum), marks, marks', env);
      R.ValPrefix(d.outer, marks, marks', env);
      R.ValPrefix(d.inner, marks, marks', env);
      assert BindingAt(d, sum, R.Values(marks, env));
    }
  }

  /** The nodes are live splits of mark k. */
  ghost predicate SplitsAll(g: Graph, nodes: seq<Node>, k: nat)
    requires WellFormed(g)
  {
    forall n :: n in nodes ==> LiveSplit(g, n) && SplitAt(g, n).mark == k
  }

  ghost predicate SplitOf(g: Graph, n: Node, k: nat)
    requires WellFormed(g)
  {
    LiveSplit(g, n) && SplitAt(g, n).mark == k && SplitAt(g, n).Valid()
  }

  ghost predicate AllInnerReady(g: Graph, nodes: seq<Node>, k: nat, e: int)
    requires WellFormed(g)
  {
    forall i :: 0 <= i < |nodes| ==>
      SplitOf(g, nodes[i], k) && I.Divides(SplitAt(g, nodes[i]).lower * SplitAt(g, nodes[i]).extent, e)
  }

  ghost predicate AllOuterReady(g: Graph, nodes: seq<Node>, k: nat, e: int)
    requires WellFormed(g)
  {
    forall i :: 0 <= i < |nodes| ==> SplitOf(g, nodes[i], k) && I.Divides(e, SplitAt(g, nodes[i]).lower)
  }

  /** The splits of the nodes, each reading the inner part only. */
  function InnerParts(g: Graph, nodes: seq<Node>, innerMark: nat): (r: seq<Division>)
    requires forall n :: n in nodes ==> ValidNode(g, n) && n.SplitNode?
    ensures |r| == |nodes|
  {
    seq(|nodes|, i requires 0 <= i < |nodes| => assert nodes[i] in nodes; var s := SplitAt(g, nodes[i]);
      AllInner(R.One(s.(mark := innerMark)), s.extent))
  }

  /** The splits of the nodes, each reading the outer part only, which starts at lowest. */
  function OuterParts(g: Graph, nodes: seq<Node>, outerMark: nat, lowest: int): (r: seq<Division>)
    requires lowest != 0 && forall n :: n in nodes ==> ValidNode(g, n) && n.SplitNode?
    ensures |r| == |nodes|
  {
    seq(|nodes|, i requires 0 <= i < |nodes| =>
      assert nodes[i] in nodes; var s := SplitAt(g, nodes[i]);
        AllOuter(R.One(s.(mark := outerMark, lower := I.FloorDiv(s.lower, lowest))), s.extent))
  }

  ghost predicate AllDivided(g: Graph, marks: seq<Mark>, sub: set<VarName>, nodes: seq<Node>, parts: seq<Division>)
    requires WellFormed(g) && R.MarksOk(marks)
  {
    |parts| == |nodes| &&
      forall i :: 0 <= i < |nodes| ==> LiveSplit(g, nodes[i]) && SplitDivided(g, marks, sub, parts[i], nodes[i])
  }

  lemma {:induction false} InnerAllDivided(
    g: Graph, marks: seq<Mark>, sub: set<VarName>, nodes: seq<Node>, k: nat, d: Division, outerMark: nat,
    innerMark: nat)
    requires WellFormed(g) && R.MarksOk(marks)
    requires AllInnerReady(g, nodes, k, d.innerExtent) && Parted(marks, sub, k, d, outerMark, innerMark)
    ensures (forall n :: n in nodes ==> ValidNode(g, n) && n.SplitNode?)
    ensures AllDivided(g, marks, sub, nodes, InnerParts(g, nodes, innerMark))
  {
    forall i | 0 <= i < |nodes| ensures SplitDivided(g, marks, sub, InnerParts(g, nodes, innerMark)[i], nodes[i]) {
      InnerSplit(marks, sub, d, outerMark, innerMark, SplitAt(g, nodes[i]));
    }
  }

  lemma {:induction false} OuterAllDivided(
    g: Graph, marks: seq<Mark>, sub: set<VarName>, nodes: seq<Node>, k: nat, d: Division, outerMark: nat,
    innerMark: nat)
    requires WellFormed(g) && R.MarksOk(marks) && d.innerExtent != 0
    requires AllOuterReady(g, nodes, k, d.innerExtent) && Parted(marks, sub, k, d, outerMark, innerMark)
    ensures (forall n :: n in nodes ==> ValidNode(g, n) && n.SplitNode?)
    ensures AllDivided(g, marks, sub, nodes, OuterParts(g, nodes, outerMark, d.innerExtent))
  {
    forall i | 0 <= i < |nodes|
      ensures SplitDivided(g, marks, sub, OuterParts(g, nodes, outerMark, d.innerExtent)[i], nodes[i])
    {
      var s := SplitAt(g, nodes[i]);
      OuterSplit(marks, sub, d, outerMark, innerMark, s,
        s.(mark := outerMark, lower := I.FloorDiv(s.lower, d.innerExtent)));
    }
  }

  /** The nodes at the given places. */
  function Picked(nodes: seq<Node>, at: seq<nat>): (r: seq<Node>)
    requires forall i :: 0 <= i < |at| ==> at[i] < |nodes|
    ensures |r| == |at| && forall i :: 0 <= i < |at| ==> r[i] == nodes[at[i]]
  {
    seq(|at|, i requires 0 <= i < |at| => nodes[at[i]])
  }

  lemma {:induction false} PickedReady(g: Graph, nodes: seq<Node>, k: nat, inner: seq<nat>, outer: seq<nat>, e: int)
    requires WellFormed(g) && SplitsAll(g, nodes, k)
    requires AllValid(NodeSplits(g, nodes)) && InnerPlaces(NodeSplits(g, nodes), inner, e)
    requires OuterPlaces(NodeSplits(g, nodes), outer, e)
    ensures AllInnerReady(g, Picked(nodes, inner), k, e) && AllOuterReady(g, Picked(nodes, outer), k, e)
  {
    var splits := NodeSplits(g, nodes);
    forall i | 0 <= i < |nodes| ensures SplitOf(g, nodes[i], k) { assert splits[i].Valid(); }
  }

  lemma {:induction false} PickedAll(nodes: seq<Node>, inner: seq<nat>, outer: seq<nat>)
    requires (forall i :: 0 <= i < |inner| ==> inner[i] < |nodes|)
    requires (forall i :: 0 <= i < |outer| ==> outer[i] < |nodes|)
    requires forall j :: 0 <= j < |nodes| ==> j in inner || j in outer
    ensures forall n :: n in nodes ==> n in Picked(nodes, inner) || n in Picked(nodes, outer)
  {
    forall n | n in nodes ensures n in Picked(nodes, inner) || n in Picked(nodes, outer) {
      var j :| 0 <= j < |nodes| && nodes[j] == n;
      if j in inner {
        var t :| 0 <= t < |inner| && inner[t] == j;
        assert Picked(nodes, inner)[t] == n;
      } else {
        var t :| 0 <= t < |outer| && outer[t] == j;
        assert Picked(nodes, outer)[t] == n;
      }
    }
  }

  lemma {:induction false} AllNodesValid(g: Graph, nodes: seq<Node>, k: nat)
    requires WellFormed(g) && SplitsAll(g, nodes, k)
    ensures AllValid(NodeSplits(g, nodes)) && forall i :: 0 <= i < |nodes| ==>
      LiveSplit(g, nodes[i]) && SplitAt(g, nodes[i]).mark == k
  {
    forall i | 0 <= i < |nodes| ensures NodeSplits(g, nodes)[i].Valid() { ValidSplit(g, nodes[i]); }
  }

  lemma {:induction false} NodesOf(g: Graph, c: Collected, n: Node)
    requires WellFormed(g) && Complete(g, c) && LiveSplit(g, n)
    ensures var nodes := SplitsOf(g, c.met, SplitAt(g, n).mark);
      n in nodes && forall m :: m in nodes ==> LiveSplit(g, m) && SplitAt(g, m).mark == SplitAt(g, n).mark
  {
    SplitsOfSpec(g, c.met, SplitAt(g, n).mark);
  }

  /** A split that covers its mark is divided as the mark is. */
  lemma {:induction false} WholeDivision(marks: seq<Mark>, sub: set<VarName>, d: Division, k: nat, s: Split)
    requires R.MarksOk(marks) && R.Ranged(marks) && k < |marks| && marks[k].source.Fused? && s.mark == k
    requires s.lower == 1 && s.extent == marks[k].extent
    requires Divided(marks, sub, d, R.Many(marks[k].source.sum), marks[k].extent)
    ensures Divided(marks, sub, d, R.One(s), s.extent)
  {
    forall env | R.InputsFit(marks, env) ensures DividesAt(d, R.One(s), R.Values(marks, env)) {
      assert R.AllFit(marks, env);
      R.WholeMark(marks, k, 1, env);
      R.MarkValue(marks, k, env);
      assert DividesAt(d, R.Many(marks[k].source.sum), R.Values(marks, env));
    }
  }

  lemma {:induction false} PartsInRange(marks: seq<Mark>, sub: set<VarName>, k: nat, d: Division)
    requires R.MarksOk(marks) && k < |marks| && marks[k].source.Fused? && d.outer.Many? && d.inner.Many?
    requires Divided(marks, sub, d, R.Many(marks[k].source.sum), marks[k].extent)
    ensures forall env :: R.InputsFit(marks, env) ==> 0 <= Unscaled(d.outer, R.Values(marks, env)) < d.outerExtent
    ensures forall env :: R.InputsFit(marks, env) ==> 0 <= Unscaled(d.inner, R.Values(marks, env)) < d.innerExtent
  {
    forall env | R.InputsFit(marks, env)
      ensures 0 <= Unscaled(d.outer, R.Values(marks, env)) < d.outerExtent
      ensures 0 <= Unscaled(d.inner, R.Values(marks, env)) < d.innerExtent
    {
      assert DividesAt(d, R.Many(marks[k].source.sum), R.Values(marks, env));
    }
  }

  lemma {:induction false} PartsStay(marks: seq<Mark>, marks': seq<Mark>, sub: set<VarName>, k: nat, d: Division)
    requires R.MarksOk(marks) && R.MarksOk(marks') && R.Extends(marks, marks') && k < |marks| && marks[k].source.Fused?
    requires d.outer.Many? && d.inner.Many? && Divided(marks, sub, d, R.Many(marks[k].source.sum), marks[k].extent)
    ensures Divided(marks', sub, d, R.Many(marks[k].source.sum), marks[k].extent)
    ensures forall env :: R.InputsFit(marks', env) ==> 0 <= Unscaled(d.inner, R.Values(marks', env)) < d.innerExtent
  {
    assert ArgsOk(marks[k].source.sum.args, k);
    DividedLater(marks, marks', sub, d, R.Many(marks[k].source.sum), marks[k].extent);
    assert marks'[k] == marks[k];
    PartsInRange(marks', sub, k, d);
  }

  lemma {:induction false} ExactHere(g: Graph, k: nat)
    requires WellFormed(g) && ExactlyFused(g) && k < |g.marks| && g.marks[k].source.Fused?
    ensures var sum := g.marks[k].source.sum;
      sum.base == 0 && sum.args != [] && ExactArgs(sum.args) && g.marks[k].extent == Weight(sum.args) &&
        ArgsOk(sum.args, k)
  {
    assert SumOk(g.marks[k].source.sum, k);
    assert ExactSum(g.marks[k].source.sum, g.marks[k].extent);
  }

  lemma {:induction false} ArgsBelow(g: Graph, marks: seq<Mark>, k: nat, i: nat)
    requires WellFormed(g) && ExactlyFused(g) && k < |g.marks| <= |marks| && g.marks[k].source.Fused?
    requires i <= |g.marks[k].source.sum.args|
    ensures ArgsOk(g.marks[k].source.sum.args[i..], |marks|)
  {
    ExactHere(g, k);
  }

  lemma {:induction false} LoneDivision(marks: seq<Mark>, sub: set<VarName>, d: Division, sum: Sum)
    requires R.MarksOk(marks) && |sum.args| == 1 && sum.args[0].Valid() && sum.args[0].scale == 1 && sum.base == 0
    requires Divided(marks, sub, d, R.One(sum.args[0]), sum.args[0].extent)
    ensures Divided(marks, sub, d, R.Many(sum), Weight(sum.args))
  {
    assert sum.args[1..] == [];
    assert Weight(sum.args) == sum.args[0].extent * Weight([]);
    forall env | R.InputsFit(marks, env) ensures DividesAt(d, R.Many(sum), R.Values(marks, env)) {
      var x := R.Values(marks, env);
      assert TermSum(sum.args, x) == Term(sum.args[0], x) + TermSum([], x);
      assert DividesAt(d, R.One(sum.args[0]), x);
    }
  }

  lemma {:induction false} CutNothing(marks: seq<Mark>, sub: set<VarName>)
    requires R.MarksOk(marks)
    ensures Cut(marks, sub, [], [], [])
  {
  }

  /** In a one-sided division the side that is there has the divided value. */
  lemma {:induction false} OneSided(marks: seq<Mark>, sub: set<VarName>, d: Division, s: Split)
    requires R.MarksOk(marks) && Divided(marks, sub, d, R.One(s), s.extent)
    ensures d.kind == InnerKind ==> d.innerExtent == s.extent && forall env :: R.InputsFit(marks, env) ==>
      Unscaled(R.One(s), R.Values(marks, env)) == Unscaled(d.inner, R.Values(marks, env))
    ensures d.kind == OuterKind ==> d.outerExtent == s.extent && forall env :: R.InputsFit(marks, env) ==>
      Unscaled(R.One(s), R.Values(marks, env)) == Unscaled(d.outer, R.Values(marks, env))
  {
    forall env | R.InputsFit(marks, env)
      ensures d.kind == InnerKind ==>
        Unscaled(R.One(s), R.Values(marks, env)) == Unscaled(d.inner, R.Values(marks, env))
      ensures d.kind == OuterKind ==>
        Unscaled(R.One(s), R.Values(marks, env)) == Unscaled(d.outer, R.Values(marks, env))
    {
      assert DividesAt(d, R.One(s), R.Values(marks, env));
    }
  }

  lemma {:induction false} WholeIsSame(marks: seq<Mark>, marks': seq<Mark>, sum: Sum, extent: int, w: Split)
    requires R.MarksOk(marks') && R.Ranged(marks') && marks' == marks + [Mark(Fused(sum), extent)]
    requires R.Extends(marks, marks')
    requires extent > 0 && ArgsOk(sum.args, |marks|) && w.Valid() && w.mark < |marks| && w.extent == extent
    requires forall env :: R.InputsFit(marks, env) ==>
      Unscaled(R.One(w), R.Values(marks, env)) == Unscaled(R.Many(sum), R.Values(marks, env))
    ensures SameDigit(marks', Split(|marks|, 1, extent, 1), w)
  {
    var t := Split(|marks|, 1, extent, 1);
    forall env | R.InputsFit(marks', env)
      ensures Unscaled(R.One(t), R.Values(marks', env)) == Unscaled(R.One(w), R.Values(marks', env))
    {
      R.ExtendsFit(marks, marks', env);
      assert R.AllFit(marks', env);
      R.WholeMark(marks', |marks|, 1, env);
      R.MarkValue(marks', |marks|, env);
      UnscaledPrefix(R.One(w), marks, marks', env);
      UnscaledPrefix(R.Many(sum), marks, marks', env);
    }
  }

  lemma {:induction false} MarksReady(g: Graph)
    requires WellFormed(g) && ExactlyFused(g)
    ensures R.MarksOk(g.marks) && R.Ranged(g.marks) && R.Extends(g.marks, g.marks)
  {
    D.MarksAgain(g);
    forall env | R.InputsFit(g.marks, env) ensures R.AllFit(g.marks, env) {
      FusedInRange(g, env);
      forall k | 0 <= k < |g.marks|
        ensures 0 <= R.Values(g.marks, env)[k] < g.marks[k].extent
      {
        D.MarkValIsValue(g, env, k);
      }
    }
  }

  /** The index is outer * innerExtent + inner, inner below innerExtent up to a constant. */
  ghost predicate IndexDivided(marks: seq<Mark>, d: Division, base: int, e: Expr, env: Env) {
    var x := R.Values(marks, env);
    && Eval(e, env) == R.ValAt(d.outer, x) * d.innerExtent + R.ValAt(d.inner, x)
    && 0 <= R.ValAt(d.outer, x) < d.outerExtent && 0 <= R.ValAt(d.inner, x) - base < d.innerExtent
  }

  lemma {:induction false} StacksFlat(inputs: seq<Mark>, ss: seq<Stack>)
    requires StacksOver(inputs, ss) && WellFormed(StackGraph(inputs, ss))
    requires forall i :: 0 <= i < |ss| ==> ss[i].f.scale == 1
    ensures Flat(StackGraph(inputs, ss))
  {
    var g, n := StackGraph(inputs, ss), |inputs|;
    forall k, i | 0 <= k < |g.marks| && g.marks[k].source.Fused? && 0 <= i < |g.marks[k].source.sum.args|
      ensures ReadsInput(g, SplitNode(Inner(k), i))
    {
      assert g.marks[k] == R.MarkOf(ss[k - n].f);
      assert DigitOver(inputs, ss[k - n].f.args[i]);
      assert g.marks[ss[k - n].f.args[i].mark] == inputs[ss[k - n].f.args[i].mark];
    }
    forall k, p, q | 0 <= k < |g.marks| && g.marks[k].source.Fused? && Splits(g, p, k) && Splits(g, q, k)
      ensures p == q
    {
      NodesAreDigits(inputs, ss, p, k);
      NodesAreDigits(inputs, ss, q, k);
    }
  }

  predicate ReadsSub(names: seq<VarName>, s: Split, sub: set<VarName>) {
    s.mark < |names| && names[s.mark] in sub
  }

  ghost predicate SubLast(names: seq<VarName>, args: seq<Split>, sub: set<VarName>) {
    forall p, q :: 0 <= p < q < |args| && ReadsSub(names, args[p], sub) ==> ReadsSub(names, args[q], sub)
  }

  /** In every index the digits of sub-iterators are the innermost ones. */
  ghost predicate SubInnermost(names: seq<VarName>, ss: seq<Stack>, sub: set<VarName>) {
    forall i :: 0 <= i < |ss| ==> SubLast(names, ss[i].f.args, sub)
  }

  lemma {:induction false} StackInner(names: seq<VarName>, extents: seq<int>, ss: seq<Stack>, sub: set<VarName>, i: nat,
                                      p: nat)
    requires |names| == |extents| && i < |ss| && p < |ss[i].f.args|
    requires StacksOver(R.InputMarks(names, extents), ss) && WellFormed(StackGraph(R.InputMarks(names, extents), ss))
    ensures var g, n := StackGraph(R.InputMarks(names, extents), ss), SplitNode(Inner(|names| + i), p);
      ReadsInput(g, n) && (IsInner(g, sub, n) <==> ReadsSub(names, ss[i].f.args[p], sub))
  {
    var inputs := R.InputMarks(names, extents);
    var g := StackGraph(inputs, ss);
    OutNode(inputs, ss, i);
    var s := ss[i].f.args[p];
    assert DigitOver(inputs, s);
    assert g.marks[s.mark] == inputs[s.mark] == Mark(Input(names[s.mark]), extents[s.mark]);
  }

  lemma {:induction false} CuttableOne(
    names: seq<VarName>, extents: seq<int>, ss: seq<Stack>, sub: set<VarName>, i: nat)
    requires |names| == |extents| && StacksOver(R.InputMarks(names, extents), ss) && i < |ss|
    requires WellFormed(StackGraph(R.InputMarks(names, extents), ss))
    requires Flat(StackGraph(R.InputMarks(names, extents), ss))
    ensures Cuttable(StackGraph(R.InputMarks(names, extents), ss), sub, SplitNode(Out(i), 0)) <==>
      SubLast(names, ss[i].f.args, sub)
  {
    var inputs := R.InputMarks(names, extents);
    var g, k, args := StackGraph(inputs, ss), |names| + i, ss[i].f.args;
    OutNode(inputs, ss, i);
    forall p | 0 <= p < |args|
      ensures ReadsInput(g, SplitNode(Inner(k), p))
      ensures IsInner(g, sub, SplitNode(Inner(k), p)) <==> ReadsSub(names, args[p], sub)
    {
      StackInner(names, extents, ss, sub, i, p);
    }
    assert Cuttable(g, sub, SplitNode(Out(i), 0)) <==> InnerLast(g, sub, k, 0);
  }

  lemma {:induction false} CuttableIff(names: seq<VarName>, extents: seq<int>, ss: seq<Stack>, sub: set<VarName>)
    requires |names| == |extents| && StacksOver(R.InputMarks(names, extents), ss)
    requires WellFormed(StackGraph(R.InputMarks(names, extents), ss))
    requires Flat(StackGraph(R.InputMarks(names, extents), ss))
    ensures (forall i :: 0 <= i < |ss| ==>
      Cuttable(StackGraph(R.InputMarks(names, extents), ss), sub, SplitNode(Out(i), 0))) <==>
      SubInnermost(names, ss, sub)
  {
    forall i | 0 <= i < |ss|
      ensures Cuttable(StackGraph(R.InputMarks(names, extents), ss), sub, SplitNode(Out(i), 0)) <==>
        SubLast(names, ss[i].f.args, sub)
    {
      CuttableOne(names, extents, ss, sub, i);
    }
  }

  lemma {:induction false} StacksCut(names: seq<VarName>, extents: seq<int>, indices: seq<Expr>, sub: set<VarName>)
    requires |names| == |extents| && D.Distinct(names) && forall i :: 0 <= i < |extents| ==> extents[i] > 0
    requires AreStacks(R.InputVals(names, extents), indices) && WellFormed(D.MapOfStacks(names, extents, indices))
    ensures var ss, g := StacksOf(R.InputVals(names, extents), indices), D.MapOfStacks(names, extents, indices);
      (forall i :: 0 <= i < |ss| ==> ss[i].f.scale == 1) ==>
        Flat(g) && ((forall i :: 0 <= i < |g.outputs| ==> Cuttable(g, sub, SplitNode(Out(i), 0))) <==>
          SubInnermost(names, ss, sub))
  {
    var ss := StacksOf(R.InputVals(names, extents), indices);
    StacksFit(names, extents, indices);
    if forall i :: 0 <= i < |ss| ==> ss[i].f.scale == 1 {
      StacksFlat(R.InputMarks(names, extents), ss);
      CuttableIff(names, extents, ss, sub);
    }
  }

  /** From index expressions: the outer parts read no sub-iterator, the inner parts nothing else. */
  method SubspaceDivideIndices(names: seq<VarName>, extents: seq<int>, indices: seq<Expr>, sub: set<VarName>)
    returns (r: Option<seq<Division>>, marks: seq<Mark>, bases: seq<int>, ghost sites: seq<R.Site>)
    requires |names| == |extents| && D.Distinct(names) && forall i :: 0 <= i < |extents| ==> extents[i] > 0
    ensures |sites| <= D.AllDivisions(indices)
    ensures r.Some? ==> |r.value| == |bases| == |indices| && R.MarksOk(marks) && forall i :: 0 <= i < |indices| ==>
      && R.ValOk(r.value[i].outer, |marks|) && R.ValOk(r.value[i].inner, |marks|)
      && PureVal(marks, r.value[i].outer, sub, false) && PureVal(marks, r.value[i].inner, sub, true)
    ensures r.Some? && (AllEven(indices) || R.AllRight(sites)) ==> forall i :: 0 <= i < |indices| ==>
      forall env :: D.InBounds(names, extents, env) ==> IndexDivided(marks, r.value[i], bases[i], indices[i], env)
    ensures AreStacks(R.InputVals(names, extents), indices) ==>
      var ss := StacksOf(R.InputVals(names, extents), indices);
      (forall i :: 0 <= i < |ss| ==> ss[i].f.scale == 1) ==>
        (r.Some? <==> TilesInputs(names, extents, indices, true) && SubInnermost(names, ss, sub))
  {
    var g;
    g, sites := D.DetectIterMap(names, extents, indices, true);
    if g.None? {
      return None, [], [], sites;
    }
    if AreStacks(R.InputVals(names, extents), indices) { StacksCut(names, extents, indices, sub); }
    r, marks := SubspaceDivide(g.value, sub);
    bases := seq(|g.value.outputs|, i requires 0 <= i < |g.value.outputs| => g.value.outputs[i].base);
    if r.Some? && R.AllRight(sites) {
      forall i, env | 0 <= i < |indices| && D.InBounds(names, extents, env)
        ensures IndexDivided(marks, r.value[i], bases[i], indices[i], env)
      {
        BindingIsIndex(names, extents, indices, g.value, marks, sub, r.value[i], i, env);
      }
    }
  }

  lemma {:induction false} BindingIsIndex(
    names: seq<VarName>, extents: seq<int>, indices: seq<Expr>, g: Graph, marks: seq<Mark>,
                                          sub: set<VarName>, d: Division, i: nat, env: Env)
    requires |names| == |extents| && WellFormed(g) && D.Represents(names, extents, indices, g) && i < |indices|
    requires R.MarksOk(marks) && R.Extends(R.InputMarks(names, extents), g.marks) && R.Extends(g.marks, marks)
    requires BindingDivided(marks, sub, d, g.outputs[i]) && D.InBounds(names, extents, env)
    ensures IndexDivided(marks, d, g.outputs[i].base, indices[i], env)
  {
    D.MarksAgain(g);
    R.ExtendsTrans(R.InputMarks(names, extents), g.marks, marks);
    D.BoundsFit(names, extents, marks, env);
    D.ArgsValIsTermSum(g, env, g.outputs[i].args, |g.marks|);
    R.ValPrefix(R.Many(g.outputs[i]), g.marks, marks, env);
    assert D.Follows(g, env, indices);
    assert BindingAt(d, g.outputs[i], R.Values(marks, env));
  }
}
