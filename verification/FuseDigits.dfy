// Sums whose scales continue each other's extents are mixed-radix numbers:
// every summand's digit can be read back from the total.
module FuseDigits {
  import opened Radix
  import opened SplitCover
  import I = IntOperator

  /** Outermost first: each scale is the next one's scale times its extent. */
  predicate FusePattern(args: seq<Split>) {
    forall i :: 0 <= i < |args| - 1 ==> args[i].scale == args[i + 1].scale * args[i + 1].extent
  }

  /** The loop of the source over the args from the innermost outwards. */
  method CheckFusePattern(args: seq<Split>) returns (ok: bool)
    ensures ok <==> FusePattern(args)
  {
    if args == [] {
      return true;
    }
    var expected := args[|args| - 1].scale;
    var i := |args|;
    while i > 0
      invariant 0 <= i <= |args|
      invariant i == |args| ==> expected == args[|args| - 1].scale
      invariant i < |args| ==> expected == args[i].scale * args[i].extent
      invariant forall l :: i <= l < |args| - 1 ==> args[l].scale == args[l + 1].scale * args[l + 1].extent
    {
      if args[i - 1].scale != expected {
        return false;
      }
      expected := expected * args[i - 1].extent;
      i := i - 1;
    }
    ok := true;
  }

  /** The number of combinations of the args' digits. */
  function Weight(args: seq<Split>): int {
    if args == [] then 1 else args[0].extent * Weight(args[1..])
  }

  /** The mixed-radix number with digits u. */
  function Number(args: seq<Split>, u: seq<int>): int
    requires |u| == |args|
  {
    if args == [] then 0 else u[0] * Weight(args[1..]) + Number(args[1..], u[1..])
  }

  function Total(args: seq<Split>, u: seq<int>): int
    requires |u| == |args|
  {
    if args == [] then 0 else args[0].scale * u[0] + Total(args[1..], u[1..])
  }

  lemma {:induction false} WeightPositive(args: seq<Split>)
    requires AllValid(args)
    ensures Weight(args) > 0
  {
    if args != [] {
      WeightPositive(args[1..]);
      MulPos(args[0].extent, Weight(args[1..]));
    }
  }

  lemma {:induction false} NumberBound(args: seq<Split>, u: seq<int>)
    requires AllValid(args) && |u| == |args| && DigitsInRange(args, u)
    ensures 0 <= Number(args, u) < Weight(args)
  {
    if args != [] {
      NumberBound(args[1..], u[1..]);
      DigitBound(Weight(args[1..]), args[0].extent, Number(args[1..], u[1..]), u[0]);
    }
  }

  lemma {:induction false} PatternScale(args: seq<Split>)
    requires FusePattern(args) && args != []
    ensures args[0].scale == args[|args| - 1].scale * Weight(args[1..])
  {
    if |args| > 1 {
      PatternScale(args[1..]);
      var c, e, w := args[|args| - 1].scale, args[1].extent, Weight(args[1..][1..]);
      assert (c * w) * e == c * (e * w);
    } else {
      assert args[1..] == [];
    }
  }

  lemma {:induction false} TotalIsScaledNumber(args: seq<Split>, u: seq<int>)
    requires FusePattern(args) && args != [] && |u| == |args|
    ensures Total(args, u) == args[|args| - 1].scale * Number(args, u)
  {
    var c := args[|args| - 1].scale;
    PatternScale(args);
    var w, rest := Weight(args[1..]), Number(args[1..], u[1..]);
    if |args| > 1 {
      TotalIsScaledNumber(args[1..], u[1..]);
    } else {
      assert args[1..] == [];
    }
    PullScale(c, w, u[0], rest);
  }

  lemma PullScale(c: int, w: int, d: int, rest: int)
    ensures (c * w) * d + c * rest == c * (d * w + rest)
  {
    assert (c * w) * d == c * (d * w);
  }

  /** Dropping the outer digits leaves the number modulo the weight that remains. */
  lemma {:induction false} NumberSuffix(args: seq<Split>, u: seq<int>, i: nat) returns (h: int)
    requires |u| == |args| && i <= |args|
    ensures Number(args, u) == h * Weight(args[i..]) + Number(args[i..], u[i..])
    ensures i == 0 ==> h == 0
  {
    if i == 0 {
      assert args[0..] == args && u[0..] == u;
      h := 0;
    } else {
      var h' := NumberSuffix(args[1..], u[1..], i - 1);
      assert args[1..][i - 1..] == args[i..] && u[1..][i - 1..] == u[i..];
      var m := WeightSuffix(args[1..], i - 1);
      h := u[0] * m + h';
      Collect(u[0], m, Weight(args[i..]), h');
    }
  }

  lemma Collect(d: int, m: int, w: int, h: int)
    ensures d * (m * w) + h * w == (d * m + h) * w
  {
    assert d * (m * w) == (d * m) * w;
  }

  lemma {:induction false} WeightSuffix(args: seq<Split>, i: nat) returns (m: int)
    requires i <= |args|
    ensures Weight(args) == m * Weight(args[i..])
  {
    if i == 0 {
      assert args[0..] == args;
      m := 1;
    } else {
      var m' := WeightSuffix(args[1..], i - 1);
      assert args[1..][i - 1..] == args[i..];
      m := args[0].extent * m';
      assert args[0].extent * (m' * Weight(args[i..])) == m * Weight(args[i..]);
    }
  }

  lemma {:induction false} FloorDivCancel(c: int, y: int, w: int)
    requires c != 0 && w > 0
    ensures c * w != 0 && I.FloorDiv(c * y, c * w) == y / w
  {
    var q, r := y / w, y % w;
    assert c * y == q * (c * w) + c * r by { assert c * (q * w + r) == q * (c * w) + c * r; }
    SignedBound(c, r, w);
    I.FloorUnique(c * y, c * w, q, c * r);
  }

  lemma SignedBound(c: int, r: int, w: int)
    requires c != 0 && 0 <= r < w
    ensures c > 0 ==> c * w > 0 && 0 <= c * r < c * w
    ensures c < 0 ==> c * w < 0 && c * w < c * r <= 0
  {
    if c > 0 { ScaledBound(r, w, c); } else { ScaledBound(r, w, -c); }
  }

  /** Digit i of a number whose digits are u, the outermost digit needing no remainder. */
  lemma {:induction false} NumberDigit(args: seq<Split>, u: seq<int>, i: nat)
    requires AllValid(args) && |u| == |args| && DigitsInRange(args, u) && i < |args|
    ensures Weight(args[i + 1..]) > 0
    ensures (Number(args, u) / Weight(args[i + 1..])) % args[i].extent == u[i]
    ensures i == 0 ==> Number(args, u) / Weight(args[i + 1..]) == u[i]
  {
    var h := NumberSuffix(args, u, i);
    var e, w := args[i].extent, Weight(args[i + 1..]);
    WeightPositive(args[i + 1..]);
    assert args[i..][0] == args[i] && u[i..][0] == u[i];
    assert args[i..][1..] == args[i + 1..] && u[i..][1..] == u[i + 1..];
    var rest := Number(args[i + 1..], u[i + 1..]);
    NumberBound(args[i + 1..], u[i + 1..]);
    assert Number(args, u) == h * (e * w) + (u[i] * w + rest);
    Collect2(h, e, w, u[i]);
    DivUnique(Number(args, u), w, h * e + u[i], rest);
    DivUnique(h * e + u[i], e, h, u[i]);
  }

  lemma Collect2(h: int, e: int, w: int, d: int)
    ensures h * (e * w) + d * w == (h * e + d) * w
  {
    assert h * (e * w) == (h * e) * w;
  }

  /** What back-propagation computes for the i-th summand of a fused sum is that summand's digit. */
  lemma {:induction false} TotalDigit(args: seq<Split>, u: seq<int>, i: nat)
    requires AllValid(args) && FusePattern(args) && |u| == |args| && DigitsInRange(args, u) && i < |args|
    requires args[|args| - 1].scale != 0
    ensures args[i].scale != 0
    ensures i == 0 ==> I.FloorDiv(Total(args, u), args[i].scale) == u[i]
    ensures I.FloorMod(I.FloorDiv(Total(args, u), args[i].scale), args[i].extent) == u[i]
  {
    var c := args[|args| - 1].scale;
    TotalIsScaledNumber(args, u);
    assert FusePattern(args[i..]) by {
      forall l | 0 <= l < |args[i..]| - 1
        ensures args[i..][l].scale == args[i..][l + 1].scale * args[i..][l + 1].extent
      {
        assert args[i..][l] == args[i + l] && args[i..][l + 1] == args[i + l + 1];
      }
    }
    PatternScale(args[i..]);
    assert args[i..][1..] == args[i + 1..];
    NumberDigit(args, u, i);
    FloorDivCancel(c, Number(args, u), Weight(args[i + 1..]));
  }
}
