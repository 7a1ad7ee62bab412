/** Expressions printed with the parentheses they need, and what evaluating the text gives. */
module CalcPrinter {
  import opened Calc
  import opened CalcValues
  import opened CalcTexts

  function DigitChar(d: nat): (c: char)
    requires d < 10
    ensures Digit(c) && DigitValue(c) == d
  {
    ('0' as int + d) as char
  }

  function Digits(n: nat): (s: string)
    ensures s != [] && AllDigits(s) && Spelled(s) == n
  {
    if n < 10 then
      SpelledSnoc([], DigitChar(n));
      [] + [DigitChar(n)]
    else
      SpelledSnoc(Digits(n / 10), DigitChar(n % 10));
      Digits(n / 10) + [DigitChar(n % 10)]
  }

  lemma SpelledSnoc(a: string, c: char)
    requires AllDigits(a) && Digit(c)
    ensures AllDigits(a + [c]) && Spelled(a + [c]) == 10 * Spelled(a) + DigitValue(c) && Spelled([]) == 0
  {
    assert (a + [c])[..|a|] == a;
  }

  /** How tightly an expression binds without parentheses. */
  function Binding(e: E): nat {
    match e case Num(_) => 3 case Neg(_) => 2 case Bin(op, _, _) => if ExprOp(op) then 0 else 1
  }

  /** The expression where binding at least k is needed: no blanks, and parentheses only if it binds less. */
  function Tree(e: E, k: nat): (s: Syn)
    requires WellFormed(e) && k <= 3
    ensures Ok(s) && Level(s) >= k && Meaning(s) == e
    ensures Binding(e) >= k ==> !s.Paren?
    decreases e, if Binding(e) < k then 1 else 0
  {
    if Binding(e) < k then Paren("", Tree(e, Binding(e)), "")
    else match e
      case Num(n) => Lit("", Digits(n))
      case Neg(x) => Minus("", Tree(x, 2))
      case Bin(op, l, r) =>
        if ExprOp(op) then Op(Tree(l, 0), "", op, Tree(r, 1)) else Op(Tree(l, 1), "", op, Tree(r, 2))
  }

  function Print(e: E): string
    requires WellFormed(e)
  {
    Text(Tree(e, 0))
  }

  /** Evaluating the text of any expression: its value and the whole text, or the failure that comes first. */
  lemma PrintedOutcome(e: E)
    requires WellFormed(e)
    ensures Meets(Ev(e), Expr(Print(e), 0, Fine()), |Print(e)|)
  {
    hide Expr, Tree, Text, Ev;
    TextOutcome(Tree(e, 0), "");
    assert Print(e) + "" == Print(e);
  }

  /** With no zero divisor and every value a long, the text evaluates to the value and sets no error. */
  lemma PrintedValue(e: E)
    requires WellFormed(e) && Eval(e).1 && InRange(e)
    ensures Expr(Print(e), 0, Fine()) == Result(Eval(e).0, |Print(e)|, Fine())
  {
    EvIff(e);
    PrintedOutcome(e);
  }

  /** With no zero divisor, the evaluator stays within a long exactly when every subterm's value is one. */
  lemma PrintedRangeIff(e: E)
    requires WellFormed(e) && Eval(e).1
    ensures !Expr(Print(e), 0, Fine()).f.over <==> InRange(e)
  {
    EvIff(e);
    PrintedOutcome(e);
  }

  /**
    The evaluator leaves the range exactly when an overflow comes first from
    left to right; otherwise the error flag is set exactly when some divisor is zero.
   */
  lemma PrintedErrorIff(e: E)
    requires WellFormed(e)
    ensures Expr(Print(e), 0, Fine()).f.over <==> Ev(e).Overflow?
    ensures !Ev(e).Overflow? ==> (Expr(Print(e), 0, Fine()).f.err <==> !Eval(e).1)
  {
    EvIff(e);
    PrintedOutcome(e);
  }

  /** 1/4294967296 has a value, but its divisor is no long. */
  lemma OverflowingText()
    ensures var e := Bin('/', Num(1), Num(0x1_0000_0000));
            WellFormed(e) && Eval(e) == (0, true) && !InRange(e) && Expr(Print(e), 0, Fine()).f.over
  {
    hide Expr, Print;
    var e := Bin('/', Num(1), Num(0x1_0000_0000));
    PrintedRangeIff(e);
  }
}
