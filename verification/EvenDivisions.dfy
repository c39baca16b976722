// When the divisions of an index expression need no padding: a condition on the expression alone.
module EvenDivisions {
  import opened Expr
  import opened SplitGrain
  import I = IntOperator

  /** The value where every loop variable is zero, which is the constant offset of an index. */
  function Offset(e: Expr): int { Eval(e, map[]) }

  /** A number that divides the span of every cut split in the rewritten form of e; zero if none is cut. */
  function Grain(e: Expr): int {
    match e
    case Add(a, b) => I.Gcd(Grain(a), Grain(b))
    case Sub(a, b) => I.Gcd(Grain(a), Grain(b))
    case Mul(a, b) => I.Gcd(Grain(a) * Offset(b), Grain(b) * Offset(a))
    case FDiv(a, b) => if Offset(b) > 0 then GrainQuotient(Grain(a), Offset(b)) else 1
    case FMod(a, b) => if Offset(b) > 0 then Offset(b) else 1
    case _ => 0
  }

  /** This division: the divisor divides the offset, and for a remainder the grain of the dividend. */
  ghost predicate EvenHere(e: Expr) {
    (e.FDiv? || e.FMod?) && Offset(e.b) > 0 ==>
      I.Divides(Offset(e.b), Offset(e.a)) && (e.FMod? ==> I.Divides(Offset(e.b), Grain(e.a)))
  }

  /** Every division in e is even. */
  ghost predicate Even(e: Expr) {
    match e
    case Add(a, b) => Even(a) && Even(b)
    case Sub(a, b) => Even(a) && Even(b)
    case Mul(a, b) => Even(a) && Even(b)
    case FDiv(a, b) => Even(a) && Even(b) && EvenHere(e)
    case FMod(a, b) => Even(a) && Even(b) && EvenHere(e)
    case _ => true
  }

  ghost predicate AllEven(es: seq<Expr>) {
    forall i :: 0 <= i < |es| ==> Even(es[i])
  }

  /** The everyday case: a variable split by a constant. */
  lemma {:induction false} SplitIsEven(v: VarName, c: int)
    requires c > 0
    ensures AllEven([FDiv(Var(v), Const(c)), FMod(Var(v), Const(c))])
  {
    assert I.Divides(c, 0) by { assert 0 == c * 0; }
    assert Even(Var(v)) && Even(Const(c)) && Offset(Const(c)) == c && Offset(Var(v)) == 0;
    assert Even(FDiv(Var(v), Const(c))) && Even(FMod(Var(v), Const(c)));
  }
}
