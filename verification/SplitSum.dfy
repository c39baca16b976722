// Sums of splits as functions of the iterators they read, and the merging of consecutive
// splits of one iterator.
module SplitSum {
  import opened Radix
  import opened SplitCover

  /** The values of the marks. */
  type Vals = seq<int>

  function At(x: Vals, k: nat): int {
    if k < |x| then x[k] else 0
  }

  function Term(s: Split, x: Vals): int {
    if s.Valid() then s.scale * s.Digit(At(x, s.mark)) else 0
  }

  function TermSum(args: seq<Split>, x: Vals): int {
    if args == [] then 0 else Term(args[0], x) + TermSum(args[1..], x)
  }

  /** Well-formed splits of marks below the bound. */
  predicate ArgsOk(args: seq<Split>, bound: nat) {
    forall i :: 0 <= i < |args| ==> args[i].Valid() && args[i].mark < bound
  }

  /** The terms not used yet. */
  function Unused(args: seq<Split>, used: seq<bool>, x: Vals): int
    requires |used| == |args|
  {
    if args == [] then 0
    else (if used[0] then 0 else Term(args[0], x)) + Unused(args[1..], used[1..], x)
  }

  function Free(used: seq<bool>): nat {
    if used == [] then 0 else (if used[0] then 0 else 1) + Free(used[1..])
  }

  lemma {:induction false} UseOne(args: seq<Split>, used: seq<bool>, j: nat, x: Vals)
    requires |used| == |args| && j < |args| && !used[j]
    ensures Unused(args, used, x) == Term(args[j], x) + Unused(args, used[j := true], x)
  {
    var u := used[j := true];
    if j == 0 {
      assert u[1..] == used[1..];
    } else {
      assert u[1..] == used[1..][j - 1 := true];
      UseOne(args[1..], used[1..], j - 1, x);
    }
  }

  lemma {:induction false} UseFree(used: seq<bool>, j: nat)
    requires j < |used| && !used[j]
    ensures Free(used) == Free(used[j := true]) + 1
  {
    var u := used[j := true];
    if j == 0 {
      assert u[1..] == used[1..];
    } else {
      assert u[1..] == used[1..][j - 1 := true];
      UseFree(used[1..], j - 1);
    }
  }

  function NoneUsed(n: nat): (used: seq<bool>)
    ensures |used| == n && forall i :: 0 <= i < n ==> !used[i]
  {
    seq(n, i => false)
  }

  lemma {:induction false} AllUnused(args: seq<Split>, used: seq<bool>, x: Vals)
    requires |used| == |args| && forall i :: 0 <= i < |used| ==> !used[i]
    ensures Unused(args, used, x) == TermSum(args, x)
  {
    if args != [] { AllUnused(args[1..], used[1..], x); }
  }

  lemma {:induction false} AllUsed(args: seq<Split>, used: seq<bool>, x: Vals)
    requires |used| == |args| && forall i :: 0 <= i < |used| ==> used[i]
    ensures Unused(args, used, x) == 0
  {
    if args != [] { AllUsed(args[1..], used[1..], x); }
  }

  lemma {:induction false} NoneFree(used: seq<bool>)
    requires Free(used) == 0
    ensures forall i :: 0 <= i < |used| ==> used[i]
  {
    if used != [] {
      NoneFree(used[1..]);
      assert forall i :: 0 < i < |used| ==> used[i] == used[1..][i - 1];
    }
  }

  /** The args are the unused ones and what has been put out, whatever the iterators' values. */
  ghost predicate Conserves(args: seq<Split>, used: seq<bool>, out: seq<Split>)
    requires |used| == |args|
  {
    forall x: Vals :: Unused(args, used, x) + TermSum(out, x) == TermSum(args, x)
  }

  lemma {:induction false} ConservesStart(args: seq<Split>)
    ensures Conserves(args, NoneUsed(|args|), [])
  {
    forall x: Vals ensures Unused(args, NoneUsed(|args|), x) == TermSum(args, x) {
      AllUnused(args, NoneUsed(|args|), x);
    }
  }

  lemma {:induction false} ConservesMove(args: seq<Split>, used: seq<bool>, out: seq<Split>, j: nat)
    requires |used| == |args| && Conserves(args, used, out) && j < |args| && !used[j]
    ensures Conserves(args, used[j := true], [args[j]] + out)
  {
    forall x: Vals
      ensures Unused(args, used[j := true], x) + TermSum([args[j]] + out, x) == TermSum(args, x)
    {
      UseOne(args, used, j, x);
      assert ([args[j]] + out)[1..] == out;
    }
  }

  /** t is what the consecutive splits l (outer) and r (inner) of one mark merge into. */
  lemma {:induction false} MergeTerm(l: Split, r: Split, t: Split, x: Vals)
    requires l.Valid() && r.Valid() && l.mark == r.mark
    requires l.scale == r.extent * r.scale && l.lower == r.lower * r.extent
    requires t == r.(extent := l.extent * r.extent)
    ensures t.Valid() && Term(l, x) + Term(r, x) == Term(t, x)
  {
    var v := At(x, r.mark);
    var y := v / r.lower;
    MulPos(l.extent, r.extent);
    SplitDivMod(v, r.lower, r.extent);
    SplitDivMod(y, r.extent, l.extent);
    Commute(l.extent, r.extent);
    Distribute(r.scale, r.extent, (y / r.extent) % l.extent, y % r.extent);
  }

  lemma Distribute(t: int, s: int, hi: int, lo: int)
    ensures (s * t) * hi + t * lo == t * (lo + s * hi)
  {
  }

  lemma {:induction false} ConservesMerge(
    args: seq<Split>, used: seq<bool>, r: Split, out: seq<Split>, j: nat, t: Split)
    requires |used| == |args| && Conserves(args, used, [r] + out) && j < |args| && !used[j]
    requires args[j].Valid() && r.Valid() && args[j].mark == r.mark
    requires args[j].scale == r.extent * r.scale && args[j].lower == r.lower * r.extent
    requires t == r.(extent := args[j].extent * r.extent)
    ensures t.Valid() && Conserves(args, used[j := true], [t] + out)
  {
    forall x: Vals
      ensures t.Valid() && Unused(args, used[j := true], x) + TermSum([t] + out, x) == TermSum(args, x)
    {
      UseOne(args, used, j, x);
      MergeTerm(args[j], r, t, x);
      assert ([r] + out)[1..] == out && ([t] + out)[1..] == out;
      assert Unused(args, used, x) + TermSum([r] + out, x) == TermSum(args, x);
    }
  }
}
