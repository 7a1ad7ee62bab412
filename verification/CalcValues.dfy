/** Expressions and their values: over all integers, and left to right in a long. */
module CalcValues {
  import opened Calc

  datatype E = Num(n: nat) | Neg(x: E) | Bin(op: char, l: E, r: E)

  predicate WellFormed(e: E) {
    match e
    case Num(_) => true
    case Neg(x) => WellFormed(x)
    case Bin(op, l, r) => (TermOp(op) || ExprOp(op)) && WellFormed(l) && WellFormed(r)
  }

  // ---- values over all integers ----

  /** The value under C's operators on unbounded integers; the flag is false if some divisor is zero. */
  function Eval(e: E): (r: (int, bool))
    requires WellFormed(e)
  {
    match e
    case Num(n) => (n, true)
    case Neg(x) => var a := Eval(x); if a.1 then (-a.0, true) else (0, false)
    case Bin(op, l, r) =>
      var a, b := Eval(l), Eval(r);
      if a.1 && b.1 && !(Divides(op) && b.0 == 0) then (Exact(op, a.0, b.0), true) else (0, false)
  }

  /** Every subterm's value, and every quotient a remainder goes through, is a long. */
  predicate InRange(e: E)
    requires WellFormed(e) && Eval(e).1
  {
    match e
    case Num(n) => Long(n)
    case Neg(x) => InRange(x) && Long(-Eval(x).0)
    case Bin(op, l, r) => InRange(l) && InRange(r) && !Wide(op, Eval(l).0, Eval(r).0)
  }

  // ---- what comes first, left to right: a value, a zero divisor or an overflow ----

  datatype Outcome = Val(v: int) | DivZero | Overflow

  function Checked(v: int): Outcome { if Long(v) then Val(v) else Overflow }

  function Combine(op: char, v: int, o: Outcome): Outcome
    requires TermOp(op) || ExprOp(op)
  {
    if !o.Val? then o
    else if Divides(op) && o.v == 0 then DivZero
    else if Wide(op, v, o.v) then Overflow
    else Val(Exact(op, v, o.v))
  }

  function Ev(e: E): (r: Outcome)
    requires WellFormed(e)
  {
    match e
    case Num(n) => Checked(n)
    case Neg(x) => var a := Ev(x); if a.Val? then Checked(-a.v) else a
    case Bin(op, l, r) => var a := Ev(l); if a.Val? then Combine(op, a.v, Ev(r)) else a
  }

  /** An expression has a value exactly when no divisor is zero and no value leaves the range; it is the exact one. */
  lemma {:induction false} EvIff(e: E)
    requires WellFormed(e)
    ensures Ev(e).Val? <==> Eval(e).1 && InRange(e)
    ensures Ev(e).Val? ==> Ev(e).v == Eval(e).0
    ensures Ev(e).DivZero? ==> !Eval(e).1
  {
    match e
    case Num(_) =>
    case Neg(x) => EvIff(x);
    case Bin(_, l, r) => EvIff(l); EvIff(r);
  }

  /** The range of a long ends at 2147483647 and at -2147483648. */
  lemma RangeEnds()
    ensures Ev(Num(2147483647)).Val? && Ev(Num(2147483648)).Overflow?
    ensures Ev(Bin('-', Neg(Num(2147483647)), Num(1))) == Val(-2147483648)
    ensures Ev(Bin('-', Neg(Num(2147483647)), Num(2))).Overflow?
  {}

  lemma EvalBin(op: char, l: E, r: E)
    requires (TermOp(op) || ExprOp(op)) && WellFormed(l) && WellFormed(r) && Eval(l).1 && Eval(r).1
    ensures Eval(Bin(op, l, r)).1 <==> !(Divides(op) && Eval(r).0 == 0)
    ensures !(Divides(op) && Eval(r).0 == 0) ==> Eval(Bin(op, l, r)).0 == Exact(op, Eval(l).0, Eval(r).0)
  {}

  /** q and m are quotient and remainder of a by b, rounded toward zero. */
  predicate Divided(a: int, b: int, q: int, m: int) {
    a == b * q + m && Abs(m) < Abs(b) && (m == 0 || (m > 0 <==> a > 0))
  }

  lemma ExactDivides(a: int, b: int)
    requires b != 0
    ensures Divided(a, b, Exact('/', a, b), Exact('%', a, b))
  {
    TowardZero(a, b);
  }

  lemma ExactIs(a: int, b: int)
    ensures Exact('+', a, b) == a + b && Exact('-', a, b) == a - b && Exact('*', a, b) == a * b
  {}

  lemma EvalNeg(x: E)
    requires WellFormed(x) && Eval(x).1
    ensures Eval(Neg(x)) == (0 - Eval(x).0, true)
  {}

  /** The value of each operator in terms of its operands' values. */
  lemma EvalIs(l: E, r: E)
    requires WellFormed(l) && WellFormed(r) && Eval(l).1 && Eval(r).1
    ensures Eval(Bin('+', l, r)) == (Eval(l).0 + Eval(r).0, true)
            && Eval(Bin('-', l, r)) == (Eval(l).0 - Eval(r).0, true)
    ensures Eval(Bin('*', l, r)) == (Eval(l).0 * Eval(r).0, true) && Eval(Neg(l)) == (0 - Eval(l).0, true)
    ensures Eval(Bin('/', l, r)).1 == Eval(Bin('%', l, r)).1 == (Eval(r).0 != 0)
    ensures Eval(r).0 != 0 ==> Divided(Eval(l).0, Eval(r).0, Eval(Bin('/', l, r)).0, Eval(Bin('%', l, r)).0)
  {
    hide Eval, Exact, Divided;
    ExactIs(Eval(l).0, Eval(r).0);
    EvalNeg(l);
    EvalBin('+', l, r);
    EvalBin('-', l, r);
    EvalBin('*', l, r);
    EvalBin('/', l, r);
    EvalBin('%', l, r);
    if Eval(r).0 != 0 { ExactDivides(Eval(l).0, Eval(r).0); }
  }
}
