// When do the splits of one iterator cover it without overlap?
module SplitCover {
  import opened Radix
  import I = IntOperator

  /** The digit (x / lower) % extent of a marked iterator x, and the scale it enters a sum with. */
  datatype Split = Split(mark: nat, lower: int, extent: int, scale: int) {
    predicate Valid() { lower > 0 && extent > 0 }

    function Digit(x: int): int
      requires Valid()
    {
      (x / lower) % extent
    }
  }

  ghost predicate AllValid(s: seq<Split>) {
    forall i :: 0 <= i < |s| ==> s[i].Valid()
  }

  /** Innermost first, the splits start at place `from` and each continues where the one before ends. */
  predicate Chain(s: seq<Split>, from: int, to: int) {
    if s == [] then from == to
    else s[0].lower == from && Chain(s[1..], s[0].lower * s[0].extent, to)
  }

  /** As Chain, but places may be skipped. */
  ghost predicate SkipChain(s: seq<Split>, from: int, to: int) {
    if s == [] then I.Divides(from, to)
    else I.Divides(from, s[0].lower) && SkipChain(s[1..], s[0].lower * s[0].extent, to)
  }

  /** The value with the given digits at the splits' places. */
  function Assemble(s: seq<Split>, digits: seq<int>): int
    requires |s| == |digits|
  {
    if s == [] then 0 else digits[0] * s[0].lower + Assemble(s[1..], digits[1..])
  }

  function Digits(s: seq<Split>, x: int): (r: seq<int>)
    requires forall i :: 0 <= i < |s| ==> s[i].Valid()
    ensures |r| == |s|
    ensures forall i :: 0 <= i < |s| ==> r[i] == s[i].Digit(x)
  {
    seq(|s|, i requires 0 <= i < |s| => s[i].Digit(x))
  }

  /** The digits of x at chained places rebuild x modulo the last place. */
  lemma {:induction false} ChainRebuilds(s: seq<Split>, from: int, to: int, x: int)
    requires AllValid(s) && Chain(s, from, to) && from > 0
    ensures to > 0
    ensures x % from + Assemble(s, Digits(s, x)) == x % to
  {
    if s != [] {
      var next := s[0].lower * s[0].extent;
      SplitDivMod(x, from, s[0].extent);
      ChainRebuilds(s[1..], next, to, x);
      assert Digits(s, x)[1..] == Digits(s[1..], x);
      Commute(s[0].Digit(x), from);
    }
  }

  lemma Commute(a: int, b: int)
    ensures a * b == b * a
  {
  }

  /** A full chain: the digits determine every iterator value in [0, extent). */
  lemma {:induction false} CoverRebuilds(s: seq<Split>, extent: int, x: int)
    requires AllValid(s) && Chain(s, 1, extent) && 0 <= x < extent
    ensures Assemble(s, Digits(s, x)) == x
  {
    ChainRebuilds(s, 1, extent, x);
    DivUnique(x, extent, 0, x);
  }

  predicate DigitsInRange(s: seq<Split>, digits: seq<int>)
    requires |s| == |digits|
  {
    forall i :: 0 <= i < |s| ==> 0 <= digits[i] < s[i].extent
  }

  /** Any digits in range are assembled to a value that is a multiple of the first place, below the last. */
  lemma {:induction false} AssembleBound(s: seq<Split>, digits: seq<int>, from: int, to: int)
    requires AllValid(s) && |s| == |digits| && DigitsInRange(s, digits)
    requires SkipChain(s, from, to) && from > 0 && to > 0
    ensures I.Divides(from, Assemble(s, digits))
    ensures 0 <= Assemble(s, digits) <= to - from
  {
    if s == [] {
      assert 0 == from * 0;
      var k :| to == from * k;
      MulPositiveFactor(from, k);
    } else {
      var low, next := s[0].lower, s[0].lower * s[0].extent;
      var rest := Assemble(s[1..], digits[1..]);
      MulPos(low, s[0].extent);
      AssembleBound(s[1..], digits[1..], next, to);
      I.DividesMul(low, s[0].extent);
      I.DividesTrans(low, next, rest);
      I.DividesTrans(from, low, rest);
      I.DividesLinear(from, low, rest, digits[0], 1);
      DigitTop(low, s[0].extent, digits[0]);
      var k :| low == from * k;
      MulPositiveFactor(from, k);
    }
  }

  lemma MulPositiveFactor(a: int, k: int)
    requires a > 0 && a * k > 0
    ensures k > 0 && a * k >= a
  {
  }

  lemma DigitTop(low: int, e: int, d: int)
    requires low > 0 && 0 <= d < e
    ensures 0 <= d * low <= low * e - low
  {
    assert d * low <= (e - 1) * low;
  }

  /** Every combination of digits is attained: the splits are independent. */
  lemma {:induction false} AssembleDigits(s: seq<Split>, digits: seq<int>, from: int, to: int, x: int)
    requires AllValid(s) && |s| == |digits| && DigitsInRange(s, digits)
    requires SkipChain(s, from, to) && from > 0 && to > 0
    requires 0 <= x < from
    ensures Digits(s, x + Assemble(s, digits)) == digits
  {
    if s != [] {
      var low, e, d := s[0].lower, s[0].extent, digits[0];
      var rest := Assemble(s[1..], digits[1..]);
      MulPos(low, e);
      AssembleBound(s[1..], digits[1..], low * e, to);
      LowDigit(x, from, low, e, d, rest);
      AssembleDigits(s[1..], digits[1..], low * e, to, x + d * low);
      var y := x + Assemble(s, digits);
      assert y == (x + d * low) + rest;
      assert Digits(s, y)[1..] == Digits(s[1..], y);
      assert Digits(s, y) == [s[0].Digit(y)] + Digits(s, y)[1..];
      assert digits == [digits[0]] + digits[1..];
    }
  }

  lemma {:induction false} LowDigit(x: int, from: int, low: int, e: int, d: int, rest: int)
    requires 0 <= x < from && low > 0 && e > 0 && 0 <= d < e && low * e > 0
    requires I.Divides(from, low) && I.Divides(low * e, rest)
    ensures ((x + d * low + rest) / low) % e == d
    ensures 0 <= x + d * low < low * e
  {
    var k :| low == from * k;
    MulPositiveFactor(from, k);
    DigitTop(low, e, d);
    var m :| rest == (low * e) * m;
    Regroup(low, e, d, m);
    DivUnique(x + d * low + rest, low, d + e * m, x);
    Commute(e, m);
    DivUnique(d + e * m, e, m, d);
  }

  lemma Regroup(low: int, e: int, d: int, m: int)
    ensures d * low + (low * e) * m == (d + e * m) * low
  {
    assert (low * e) * m == (e * m) * low;
  }

  /** A chain is a skip chain, so the digits of a full chain are a bijection
      between [0, extent) and the product of the splits' ranges. */
  lemma {:induction false} ChainIsSkipChain(s: seq<Split>, from: int, to: int)
    requires AllValid(s) && Chain(s, from, to) && from > 0
    ensures SkipChain(s, from, to) && to > 0
  {
    if s == [] {
      assert to == from * 1;
    } else {
      assert s[0].lower == from * 1;
      MulPos(s[0].lower, s[0].extent);
      ChainIsSkipChain(s[1..], s[0].lower * s[0].extent, to);
    }
  }

  lemma {:induction false} CoverBijective(s: seq<Split>, extent: int, digits: seq<int>)
    requires AllValid(s) && Chain(s, 1, extent) && |digits| == |s| && DigitsInRange(s, digits)
    ensures 0 <= Assemble(s, digits) < extent
    ensures Digits(s, Assemble(s, digits)) == digits
  {
    ChainIsSkipChain(s, 1, extent);
    AssembleBound(s, digits, 1, extent);
    AssembleDigits(s, digits, 1, extent, 0);
  }

  // ----- the check -----

  function Reversed<T>(s: seq<T>): (r: seq<T>)
    ensures |r| == |s|
    ensures forall i :: 0 <= i < |s| ==> r[i] == s[|s| - 1 - i]
  {
    seq(|s|, i requires 0 <= i < |s| => s[|s| - 1 - i])
  }

  lemma {:induction false} ChainAppend(s: seq<Split>, t: Split, from: int, mid: int)
    requires Chain(s, from, mid) && t.lower == mid
    ensures Chain(s + [t], from, t.lower * t.extent)
  {
    if s == [] {
      assert (s + [t])[1..] == [];
    } else {
      assert (s + [t])[1..] == s[1..] + [t];
      ChainAppend(s[1..], t, s[0].lower * s[0].extent, mid);
    }
  }

  lemma {:induction false} SkipChainAppend(s: seq<Split>, t: Split, from: int, mid: int)
    requires SkipChain(s, from, mid) && I.Divides(mid, t.lower)
    ensures SkipChain(s + [t], from, t.lower * t.extent)
  {
    I.DividesMul(t.lower * t.extent, 1);
    if s == [] {
      assert (s + [t])[1..] == [];
      I.DividesTrans(from, mid, t.lower);
    } else {
      assert (s + [t])[1..] == s[1..] + [t];
      SkipChainAppend(s[1..], t, s[0].lower * s[0].extent, mid);
    }
  }

  lemma {:induction false} SkipChainTo(s: seq<Split>, from: int, mid: int, to: int)
    requires SkipChain(s, from, mid) && I.Divides(mid, to)
    ensures SkipChain(s, from, to)
  {
    if s == [] {
      I.DividesTrans(from, mid, to);
    } else {
      SkipChainTo(s[1..], s[0].lower * s[0].extent, mid, to);
    }
  }

  predicate CanProveDivisible(n: int, d: int)
    ensures CanProveDivisible(n, d) <==> d != 0 && I.Divides(d, n)
  {
    if d != 0 then I.ModZero(n, d); I.TruncMod(n, d) == 0 else false
  }

  /** p lists each of 0, ..., n-1 at most once. */
  predicate Injective(p: seq<nat>, n: nat) {
    && (forall i :: 0 <= i < |p| ==> p[i] < n)
    && (forall i, j :: 0 <= i < j < |p| ==> p[i] != p[j])
  }

  /** No other unused place divides the one found, apart from its equals. */
  ghost predicate LeastPlace(splits: seq<Split>, used: seq<bool>, n: nat, res: nat)
    requires |used| == |splits| && n <= |splits| && res < |splits|
  {
    forall i :: 0 <= i < n && !used[i] && I.Divides(splits[i].lower, splits[res].lower) ==>
      I.Abs(splits[i].lower) == I.Abs(splits[res].lower)
  }

  /** Every unused place among the first n is a multiple of the expected one. */
  ghost predicate AllMultiples(splits: seq<Split>, used: seq<bool>, n: nat, expected: int)
    requires |used| == |splits| && n <= |splits|
  {
    forall i :: 0 <= i < n && !used[i] ==> expected != 0 && I.Divides(expected, splits[i].lower)
  }

  /**
   * An unused split at a least place, by divisibility; found exactly when there is one and all are multiples of the
   * expected place.
   */
  method SearchSkipLowerFactor(splits: seq<Split>, used: seq<bool>, expected: int) returns (res: nat)
    requires |used| == |splits|
    ensures res <= |splits|
    ensures res < |splits| ==>
      !used[res] && I.Divides(expected, splits[res].lower) && LeastPlace(splits, used, |splits|, res)
    ensures res < |splits| <==>
      AllMultiples(splits, used, |splits|, expected) && exists i :: 0 <= i < |splits| && !used[i]
  {
    res := |splits|;
    for i := 0 to |splits|
      invariant res <= |splits| && (res == |splits| ==> forall j :: 0 <= j < i ==> used[j])
      invariant res < |splits| ==>
        !used[res] && I.Divides(expected, splits[res].lower) && LeastPlace(splits, used, i, res)
      invariant AllMultiples(splits, used, i, expected)
    {
      if !used[i] {
        if !CanProveDivisible(splits[i].lower, expected) {
          return |splits|;
        }
        if res == |splits| || CanProveDivisible(splits[res].lower, splits[i].lower) {
          if res < |splits| { LeastStep(splits, used, i, res); }
          res := i;
        }
      }
    }
  }

  lemma {:induction false} LeastStep(splits: seq<Split>, used: seq<bool>, i: nat, res: nat)
    requires |used| == |splits| && i < |splits| && res < |splits| && LeastPlace(splits, used, i, res)
    requires I.Divides(splits[i].lower, splits[res].lower)
    ensures LeastPlace(splits, used, i + 1, i)
  {
    var b, c := splits[i].lower, splits[res].lower;
    forall j | 0 <= j < i && !used[j] && I.Divides(splits[j].lower, b) ensures I.Abs(splits[j].lower) == I.Abs(b) {
      var a := splits[j].lower;
      I.DividesTrans(a, b, c);
      SignDivides(b, c, a);
      I.DividesAntisym(a, b);
    }
  }

  lemma {:induction false} SignDivides(b: int, c: int, a: int)
    requires I.Divides(b, c) && I.Abs(a) == I.Abs(c)
    ensures I.Divides(b, a)
  {
    var k :| c == b * k;
    assert c == a || a == b * (-k);
  }

  /** Places that divide one another in some order: then the least is the smallest. */
  lemma {:induction false} LeastIsSmallest(splits: seq<Split>, used: seq<bool>, res: nat, i: nat)
    requires |used| == |splits| && res < |splits| && AllValid(splits) && LeastPlace(splits, used, |splits|, res)
    requires i < |splits| && !used[i]
    requires I.Divides(splits[i].lower, splits[res].lower) || I.Divides(splits[res].lower, splits[i].lower)
    ensures splits[res].lower <= splits[i].lower
  {
    var a, b := splits[i].lower, splits[res].lower;
    if I.Divides(b, a) {
      var k :| a == b * k;
      PositiveMultiple(b, k);
    }
  }

  lemma PositiveMultiple(b: int, k: int)
    requires b > 0 && b * k > 0
    ensures b <= b * k
  {
  }

  method FindExact(splits: seq<Split>, used: seq<bool>, expected: int) returns (j: nat)
    requires |used| == |splits|
    ensures j <= |splits|
    ensures j < |splits| ==> !used[j] && splits[j].lower == expected
    ensures forall l :: 0 <= l < j ==> used[l] || splits[l].lower != expected
  {
    j := 0;
    while j < |splits|
      invariant j <= |splits|
      invariant forall l :: 0 <= l < j ==> used[l] || splits[l].lower != expected
    {
      if !used[j] && splits[j].lower == expected {
        return;
      }
      j := j + 1;
    }
  }

  /** The order the splits were taken in, innermost first: p[t] is the index of the t-th. */
  ghost predicate Taken(splits: seq<Split>, iters: seq<Split>, p: seq<nat>) {
    && |p| == |iters| && Injective(p, |splits|)
    && forall t :: 0 <= t < |p| ==> iters[t] == splits[p[t]]
  }

  function Pick(splits: seq<Split>, q: seq<nat>): (r: seq<Split>)
    requires Injective(q, |splits|)
    ensures |r| == |q| && forall t :: 0 <= t < |q| ==> r[t] == splits[q[t]]
  {
    seq(|q|, t requires 0 <= t < |q| => splits[q[t]])
  }

  /** q arranges all the splits into a full chain. */
  ghost predicate FullCover(splits: seq<Split>, extent: int, q: seq<nat>) {
    |q| == |splits| && Injective(q, |splits|) && Chain(Pick(splits, q), 1, extent)
  }

  /** Every split has more than one value. */
  ghost predicate Wide(splits: seq<Split>) {
    forall i :: 0 <= i < |splits| ==> splits[i].extent > 1
  }

  function Place(s: seq<Split>, from: int, i: nat): int
    requires i <= |s|
  {
    if i == 0 then from else s[i - 1].lower * s[i - 1].extent
  }

  lemma {:induction false} ChainPlace(s: seq<Split>, from: int, to: int, i: nat)
    requires Chain(s, from, to) && i <= |s|
    ensures i < |s| ==> s[i].lower == Place(s, from, i)
    ensures i == |s| ==> to == Place(s, from, i)
  {
    if i > 0 {
      ChainPlace(s[1..], s[0].lower * s[0].extent, to, i - 1);
    }
  }

  lemma {:induction false} ChainIncreases(s: seq<Split>, from: int, to: int, i: nat, j: nat)
    requires AllValid(s) && Chain(s, from, to) && i < j < |s|
    requires forall t :: 0 <= t < |s| ==> s[t].extent > 1
    ensures s[i].lower < s[j].lower
    decreases j
  {
    ChainPlace(s, from, to, j);
    MulGrows(s[j - 1].lower, s[j - 1].extent);
    if i < j - 1 { ChainIncreases(s, from, to, i, j - 1); }
  }

  lemma MulGrows(a: int, b: int)
    requires a > 0 && b > 1
    ensures a * b > a
  {
    assert a * b >= a * 2;
  }

  function SetOf(q: seq<nat>): set<nat> { set x | x in q }

  function UpTo(n: nat): (r: set<nat>)
    ensures forall x: nat :: x in r <==> x < n
  {
    if n == 0 then {} else UpTo(n - 1) + {n - 1}
  }

  lemma {:induction false} UpToSize(n: nat)
    ensures |UpTo(n)| == n
  {
    if n > 0 { UpToSize(n - 1); }
  }

  lemma {:induction false} SetOfSize(q: seq<nat>, n: nat)
    requires Injective(q, n)
    ensures |SetOf(q)| == |q|
  {
    if q != [] {
      SetOfSize(q[1..], n);
      assert q == [q[0]] + q[1..];
      assert SetOf(q) == SetOf(q[1..]) + {q[0]};
    }
  }

  lemma {:induction false} SubsetSize(a: set<nat>, b: set<nat>)
    requires a <= b
    ensures |a| <= |b|
  {
    if a != {} {
      var x :| x in a;
      SubsetSize(a - {x}, b - {x});
    }
  }

  /** n distinct numbers below n are all of them. */
  lemma {:induction false} InjectiveCovers(q: seq<nat>, n: nat, j: nat)
    requires Injective(q, n) && |q| == n && j < n
    ensures j in q
  {
    if j !in q {
      SetOfSize(q, n);
      UpToSize(n);
      SubsetSize(SetOf(q), UpTo(n) - {j});
    }
  }

  /** With all splits wide, what was taken so far starts every full chain. */
  ghost predicate Forced(splits: seq<Split>, extent: int, p: seq<nat>, expected: int) {
    Wide(splits) ==> forall q :: FullCover(splits, extent, q) ==> StartsWith(splits, q, p, expected)
  }

  ghost predicate StartsWith(splits: seq<Split>, q: seq<nat>, p: seq<nat>, expected: int)
    requires Injective(q, |splits|)
  {
    |p| <= |q| && p == q[..|p|] && expected == Place(Pick(splits, q), 1, |p|)
  }

  lemma {:induction false} NextForced(splits: seq<Split>, extent: int, q: seq<nat>, p: seq<nat>, expected: int)
    requires AllValid(splits) && Wide(splits) && FullCover(splits, extent, q)
    requires |p| < |splits| && StartsWith(splits, q, p, expected)
    ensures q[|p|] !in p && splits[q[|p|]].lower == expected
    ensures forall j :: 0 <= j < |splits| && j !in p && splits[j].lower == expected ==> j == q[|p|]
  {
    var c, i := Pick(splits, q), |p|;
    ChainPlace(c, 1, extent, i);
    forall j | 0 <= j < |splits| && j !in p && splits[j].lower == expected
      ensures j == q[i]
    {
      InjectiveCovers(q, |splits|, j);
      var t :| 0 <= t < |q| && q[t] == j;
      assert t >= i;
      if i < t { ChainIncreases(c, 1, extent, i, t); }
    }
  }

  lemma {:induction false} ForcedStep(splits: seq<Split>, extent: int, p: seq<nat>, expected: int, j: nat)
    requires AllValid(splits) && Forced(splits, extent, p, expected) && |p| < |splits|
    requires j < |splits| && j !in p && splits[j].lower == expected
    ensures Forced(splits, extent, p + [j], splits[j].lower * splits[j].extent)
  {
    forall q | Wide(splits) && FullCover(splits, extent, q)
      ensures StartsWith(splits, q, p + [j], splits[j].lower * splits[j].extent)
    {
      NextForced(splits, extent, q, p, expected);
    }
  }

  lemma {:induction false} ForcedStuck(splits: seq<Split>, extent: int, p: seq<nat>, expected: int)
    requires AllValid(splits) && Wide(splits) && Forced(splits, extent, p, expected) && |p| < |splits|
    requires forall l :: 0 <= l < |splits| ==> l in p || splits[l].lower != expected
    ensures forall q :: !FullCover(splits, extent, q)
  {
    forall q | FullCover(splits, extent, q)
      ensures false
    {
      NextForced(splits, extent, q, p, expected);
    }
  }

  lemma {:induction false} ForcedEnd(splits: seq<Split>, extent: int, p: seq<nat>, expected: int)
    requires Wide(splits) && Forced(splits, extent, p, expected) && |p| == |splits| && expected != extent
    ensures forall q :: !FullCover(splits, extent, q)
  {
    forall q | FullCover(splits, extent, q)
      ensures false
    {
      ChainPlace(Pick(splits, q), 1, extent, |splits|);
    }
  }

  // ----- the same when places may be skipped -----

  /** q arranges all the splits into a chain with places skipped. */
  ghost predicate SkipCover(splits: seq<Split>, extent: int, q: seq<nat>) {
    |q| == |splits| && Injective(q, |splits|) && SkipChain(Pick(splits, q), 1, extent)
  }

  /** In a chain with places skipped, what continues a split divides the places of all later ones. */
  lemma {:induction false} SkipDivides(s: seq<Split>, from: int, to: int, j: nat)
    requires AllValid(s) && SkipChain(s, from, to) && j <= |s|
    ensures I.Divides(from, if j < |s| then s[j].lower else to)
  {
    if s != [] && j > 0 {
      var next := s[0].lower * s[0].extent;
      SkipDivides(s[1..], next, to, j - 1);
      I.DividesMul(s[0].lower, s[0].extent);
      I.DividesTrans(s[0].lower, next, if j < |s| then s[j].lower else to);
      I.DividesTrans(from, s[0].lower, if j < |s| then s[j].lower else to);
    }
  }

  lemma {:induction false} SkipSuffix(s: seq<Split>, from: int, to: int, i: nat)
    requires SkipChain(s, from, to) && i <= |s|
    ensures SkipChain(s[i..], if i == 0 then from else s[i - 1].lower * s[i - 1].extent, to)
  {
    if i > 0 {
      SkipSuffix(s[1..], s[0].lower * s[0].extent, to, i - 1);
      assert s[1..][i - 1..] == s[i..];
    }
  }

  lemma {:induction false} SkipLater(s: seq<Split>, from: int, to: int, i: nat, j: nat)
    requires AllValid(s) && Wide(s) && SkipChain(s, from, to) && i < j < |s|
    ensures I.Divides(s[i].lower, s[j].lower) && s[i].lower < s[j].lower
  {
    SkipSuffix(s, from, to, i + 1);
    var next := s[i].lower * s[i].extent;
    SkipDivides(s[i + 1..], next, to, j - i - 1);
    assert s[i + 1..][j - i - 1] == s[j];
    I.DividesMul(s[i].lower, s[i].extent);
    I.DividesTrans(s[i].lower, next, s[j].lower);
    MulGrows(s[i].lower, s[i].extent);
    var k :| s[j].lower == next * k;
    PositiveMultiple(next, k);
  }

  /** With all splits wide, what was taken so far starts every such chain. */
  ghost predicate SkipForced(splits: seq<Split>, extent: int, p: seq<nat>, expected: int) {
    Wide(splits) ==> forall q :: SkipCover(splits, extent, q) ==> SkipStarts(splits, q, p, expected)
  }

  ghost predicate SkipStarts(splits: seq<Split>, q: seq<nat>, p: seq<nat>, expected: int)
    requires Injective(q, |splits|)
  {
    && |p| <= |q| && p == q[..|p|]
    && expected == if p == [] then 1 else splits[q[|p| - 1]].lower * splits[q[|p| - 1]].extent
  }

  lemma {:induction false} LaterInCover(splits: seq<Split>, extent: int, q: seq<nat>, i: nat, j: nat)
    requires AllValid(splits) && Wide(splits) && SkipCover(splits, extent, q) && i < |q|
    requires j < |splits| && forall l :: 0 <= l <= i ==> q[l] != j
    ensures splits[q[i]].lower < splits[j].lower && I.Divides(splits[q[i]].lower, splits[j].lower)
  {
    InjectiveCovers(q, |splits|, j);
    var t :| 0 <= t < |q| && q[t] == j;
    SkipLater(Pick(splits, q), 1, extent, i, t);
  }

  lemma {:induction false} SkipNext(splits: seq<Split>, extent: int, q: seq<nat>, p: seq<nat>, expected: int)
    requires AllValid(splits) && Wide(splits) && SkipCover(splits, extent, q)
    requires |p| < |splits| && SkipStarts(splits, q, p, expected)
    ensures q[|p|] !in p && I.Divides(expected, splits[q[|p|]].lower)
    ensures forall j :: 0 <= j < |splits| && j !in p && j != q[|p|] ==>
      splits[q[|p|]].lower < splits[j].lower && I.Divides(splits[q[|p|]].lower, splits[j].lower)
  {
    var c, i := Pick(splits, q), |p|;
    SkipSuffix(c, 1, extent, i);
    SkipDivides(c[i..], expected, extent, 0);
    forall j | 0 <= j < |splits| && j !in p && j != q[i]
      ensures splits[q[i]].lower < splits[j].lower && I.Divides(splits[q[i]].lower, splits[j].lower)
    {
      LaterInCover(splits, extent, q, i, j);
    }
  }

  /** The split taken next: at the expected place, or at a least one. */
  ghost predicate SkipChoice(splits: seq<Split>, used: seq<bool>, expected: int, j: nat)
    requires |used| == |splits|
  {
    j < |splits| && !used[j] && (splits[j].lower == expected || LeastPlace(splits, used, |splits|, j))
  }

  lemma {:induction false} ChoiceForced(
    splits: seq<Split>, extent: int, q: seq<nat>, p: seq<nat>, used: seq<bool>, expected: int, j: nat)
    requires AllValid(splits) && Wide(splits) && SkipCover(splits, extent, q) && |used| == |splits|
    requires |p| < |splits| && SkipStarts(splits, q, p, expected) && SkipChoice(splits, used, expected, j)
    requires expected > 0 && forall l :: 0 <= l < |splits| ==> (used[l] <==> l in p)
    ensures j == q[|p|]
  {
    SkipNext(splits, extent, q, p, expected);
    var t := q[|p|];
    if j != t {
      var k :| splits[t].lower == expected * k;
      PositiveMultiple(expected, k);
    }
  }

  lemma {:induction false} SkipStep(
    splits: seq<Split>, extent: int, p: seq<nat>, used: seq<bool>, expected: int, j: nat)
    requires AllValid(splits) && |used| == |splits| && |p| < |splits| && SkipForced(splits, extent, p, expected)
    requires SkipChoice(splits, used, expected, j)
    requires expected > 0 && forall l :: 0 <= l < |splits| ==> (used[l] <==> l in p)
    ensures SkipForced(splits, extent, p + [j], splits[j].lower * splits[j].extent)
  {
    forall q | Wide(splits) && SkipCover(splits, extent, q)
      ensures SkipStarts(splits, q, p + [j], splits[j].lower * splits[j].extent)
    {
      ChoiceForced(splits, extent, q, p, used, expected, j);
    }
  }

  lemma {:induction false} SkipStuck(splits: seq<Split>, extent: int, p: seq<nat>, used: seq<bool>, expected: int)
    requires AllValid(splits) && Wide(splits) && |used| == |splits| && |p| < |splits| && expected > 0
    requires SkipForced(splits, extent, p, expected) && forall l :: 0 <= l < |splits| ==> (used[l] <==> l in p)
    requires !(AllMultiples(splits, used, |splits|, expected) && exists i :: 0 <= i < |splits| && !used[i])
    ensures forall q :: !SkipCover(splits, extent, q)
  {
    forall q ensures !SkipCover(splits, extent, q) {
      if SkipCover(splits, extent, q) {
        SkipNext(splits, extent, q, p, expected);
        forall i | 0 <= i < |splits| && !used[i] ensures I.Divides(expected, splits[i].lower) {
          if i != q[|p|] { I.DividesTrans(expected, splits[q[|p|]].lower, splits[i].lower); }
        }
      }
    }
  }

  lemma {:induction false} SkipEnd(splits: seq<Split>, extent: int, p: seq<nat>, expected: int)
    requires AllValid(splits) && Wide(splits) && SkipForced(splits, extent, p, expected)
    requires |p| == |splits| && splits != []
    requires !I.Divides(expected, extent)
    ensures forall q :: !SkipCover(splits, extent, q)
  {
    forall q ensures !SkipCover(splits, extent, q) {
      if SkipCover(splits, extent, q) { SkipSuffix(Pick(splits, q), 1, extent, |splits|); }
    }
  }

  /** Outermost first, the splits of a mark without padding if they pass the check, otherwise nothing.
      Bijective asks for a full chain; otherwise places may be skipped. */
  method TryNormalizeSplits(splits: seq<Split>, extent: int, bijective: bool) returns (r: seq<Split>, ghost p: seq<nat>)
    requires AllValid(splits) && extent > 0
    ensures r != [] ==> |r| == |splits| && Taken(splits, Reversed(r), p)
    ensures r != [] && bijective ==> Chain(Reversed(r), 1, extent)
    ensures r != [] ==> SkipChain(Reversed(r), 1, extent)
    ensures r == [] && bijective && splits != [] && Wide(splits) ==> forall q :: !FullCover(splits, extent, q)
    ensures r == [] && !bijective && splits != [] && Wide(splits) ==> forall q :: !SkipCover(splits, extent, q)
  {
    var used := seq(|splits|, _ => false);
    var iters: seq<Split> := [];
    var expected := 1;
    p := [];
    assert expected == 1 * 1;
    for i := 0 to |splits|
      invariant |used| == |splits| && |iters| == i && Taken(splits, iters, p) && expected > 0
      invariant forall l :: 0 <= l < |splits| ==> (used[l] <==> l in p)
      invariant bijective ==> Chain(iters, 1, expected) && Forced(splits, extent, p, expected)
      invariant SkipChain(iters, 1, expected) && SkipForced(splits, extent, p, expected)
    {
      var j := FindExact(splits, used, expected);
      if j == |splits| {
        if bijective {
          if Wide(splits) { ForcedStuck(splits, extent, p, expected); }
          return [], p;
        }
        j := SearchSkipLowerFactor(splits, used, expected);
        if j == |splits| {
          if Wide(splits) { SkipStuck(splits, extent, p, used, expected); }
          return [], p;
        }
      } else {
        assert splits[j].lower == expected * 1;
        if bijective {
          ChainAppend(iters, splits[j], 1, expected);
          ForcedStep(splits, extent, p, expected, j);
        }
      }
      SkipChainAppend(iters, splits[j], 1, expected);
      SkipStep(splits, extent, p, used, expected, j);
      MulPos(splits[j].lower, splits[j].extent);
      used := used[j := true];
      iters := iters + [splits[j]];
      p := p + [j];
      expected := splits[j].lower * splits[j].extent;
    }
    var full := expected == extent;
    var divisor := full || CanProveDivisible(extent, expected);
    if bijective {
      if !full {
        if Wide(splits) { ForcedEnd(splits, extent, p, expected); }
        return [], p;
      }
    } else if !divisor {
      if splits != [] && Wide(splits) { SkipEnd(splits, extent, p, expected); }
      return [], p;
    }
    assert extent == extent * 1;
    SkipChainTo(iters, 1, expected, extent);
    r := Reversed(iters);
    assert Reversed(r) == iters;
  }
}
