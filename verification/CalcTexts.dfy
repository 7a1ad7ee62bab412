/**
  The texts of the calculator's grammar, with spaces and tabs in front of any
  token and any parentheses and signs, and the proof of what evaluating them gives.
 */
module CalcTexts {
  import opened Slices
  import opened Calc
  import opened CalcValues

  /** A text with its structure; w holds the blanks in front of a token. */
  datatype Syn =
    | Lit(w: string, d: string)
    | Minus(w: string, x: Syn)
    | Plus(w: string, x: Syn)
    | Paren(w: string, x: Syn, v: string)
    | Op(l: Syn, w: string, op: char, r: Syn)

  predicate Blank(c: char) { c == ' ' || c == '\t' }

  predicate Blanks(w: string) { forall i :: 0 <= i < |w| ==> Blank(w[i]) }

  predicate AllDigits(d: string) { forall i :: 0 <= i < |d| ==> Digit(d[i]) }

  /** How tightly a text binds: sums 0, products 1, signs 2, numbers and parentheses 3. */
  function Level(s: Syn): nat {
    match s
    case Lit(_, _) => 3
    case Paren(_, _, _) => 3
    case Minus(_, _) => 2
    case Plus(_, _) => 2
    case Op(_, _, op, _) => if ExprOp(op) then 0 else 1
  }

  /** The grammar: operators associate to the left, and signs bind tighter than any of them. */
  predicate Ok(s: Syn) {
    match s
    case Lit(w, d) => Blanks(w) && d != [] && AllDigits(d)
    case Minus(w, x) => Blanks(w) && Ok(x) && Level(x) >= 2
    case Plus(w, x) => Blanks(w) && Ok(x) && Level(x) >= 2
    case Paren(w, x, v) => Blanks(w) && Blanks(v) && Ok(x)
    case Op(l, w, op, r) =>
      && (TermOp(op) || ExprOp(op)) && Blanks(w) && Ok(l) && Ok(r)
      && (TermOp(op) ==> Level(l) >= 1 && Level(r) >= 2) && (ExprOp(op) ==> Level(r) >= 1)
  }

  function Text(s: Syn): (t: string)
  {
    match s
    case Lit(w, d) => w + d
    case Minus(w, x) => w + (['-'] + Text(x))
    case Plus(w, x) => w + (['+'] + Text(x))
    case Paren(w, x, v) => w + (['('] + (Text(x) + (v + [')'])))
    case Op(l, w, op, r) => Text(l) + (w + ([op] + Text(r)))
  }

  /** The number a digit string spells, leading zeros allowed. */
  function Spelled(d: string): nat
    requires AllDigits(d)
  {
    if d == [] then 0 else 10 * Spelled(d[..|d| - 1]) + DigitValue(d[|d| - 1])
  }

  /** What the text means. */
  function Meaning(s: Syn): (e: E)
    requires Ok(s)
    ensures WellFormed(e)
  {
    match s
    case Lit(_, d) => Num(Spelled(d))
    case Minus(_, x) => Neg(Meaning(x))
    case Plus(_, x) => Meaning(x)
    case Paren(_, x, _) => Meaning(x)
    case Op(l, _, op, r) => Bin(op, Meaning(l), Meaning(r))
  }

  // ---- blanks ----

  /** The next character that is not blank. */
  function Ahead(t: string, p: nat): char
    requires p <= |t|
  {
    At(t, SkipWs(t, p))
  }

  lemma {:induction false} SkipOver(t: string, p: nat, w: string)
    requires Stands(t, p, w) && Blanks(w)
    ensures SkipWs(t, p) == SkipWs(t, p + |w|)
    decreases w
  {
    if w != [] {
      StandsAt(t, p, w, 0);
      assert w == [w[0]] + w[1..];
      StandsParts(t, p, [w[0]], w[1..]);
      SkipOver(t, p + 1, w[1..]);
    }
  }

  lemma NoSkip(t: string, p: nat)
    requires p <= |t| && !Blank(At(t, p))
    ensures SkipWs(t, p) == p
  {}

  /** Blanks and then something else. */
  lemma SkipTo(t: string, p: nat, w: string)
    requires Stands(t, p, w) && Blanks(w) && !Blank(At(t, p + |w|))
    ensures SkipWs(t, p) == p + |w|
  {
    SkipOver(t, p, w);
    NoSkip(t, p + |w|);
  }

  lemma {:induction false} SkipTwice(t: string, p: nat)
    requires p <= |t|
    ensures SkipWs(t, SkipWs(t, p)) == SkipWs(t, p) && !Blank(At(t, SkipWs(t, p)))
    decreases |t| - p
  {
    if Blank(At(t, p)) { SkipTwice(t, p + 1); }
  }

  /** A token behind blanks, and what follows it. */
  lemma TokenStands(t: string, p: nat, w: string, c: char, rest: string)
    requires Stands(t, p, w + ([c] + rest)) && Blanks(w) && !Blank(c)
    ensures p + |w| < |t| && At(t, p + |w|) == c && SkipWs(t, p) == p + |w| && Stands(t, p + |w| + 1, rest)
    ensures Ahead(t, p) == c
  {
    StandsParts(t, p, w, [c] + rest);
    StandsParts(t, p + |w|, [c], rest);
    StandsAt(t, p + |w|, [c], 0);
    SkipTo(t, p, w);
  }

  // ---- numbers ----

  lemma {:induction false} DigitsRun(t: string, p: nat, d: string)
    requires Stands(t, p, d) && AllDigits(d) && d != []
    ensures Number(t, p, 0, Fine()) == Number(t, p + |d|, Spelled(d), Noted(Fine(), Spelled(d)))
    decreases d
  {
    var n := |d| - 1;
    var a := d[..n];
    assert d == a + [d[n]];
    StandsParts(t, p, a, [d[n]]);
    StandsAt(t, p, d, n);
    if n > 0 { DigitsRun(t, p, a); }
  }

  // ---- what each parsing function makes of a text ----

  /** The failure shows: the error flag alone for a zero divisor, over for an overflow. */
  ghost predicate Shows(o: Outcome, r: Result) {
    (o.DivZero? ==> r.f == Flags(true, false) && r.v == 0) && (o.Overflow? ==> r.f.over)
  }

  /** r is the outcome, read up to end. */
  ghost predicate Meets(o: Outcome, r: Result, end: nat) {
    Shows(o, r) && (o.Val? ==> r == Result(o.v, end, Fine()))
  }

  /** Where an operand's value goes on into the loop: x is the loop from there, or shows the failure. */
  ghost predicate Continues(o: Outcome, x: Result, loop: Result) {
    if o.Val? then x == loop else Shows(o, x)
  }

  function Rest(t: string, o: Outcome, q: nat): Result
    requires q <= |t|
  {
    if o.Val? then ExprLoop(t, o.v, q, Fine()) else Result(0, 0, Fine())
  }

  function TermRest(t: string, o: Outcome, q: nat): Result
    requires q <= |t|
  {
    if o.Val? then TermLoop(t, o.v, q, Fine()) else Result(0, 0, Fine())
  }

  /** What may follow an operand of a product. */
  predicate Ends(t: string, p: nat) { p <= |t| && !Digit(At(t, p)) }

  /** What may follow an operand of a sum. */
  predicate EndsTerm(t: string, p: nat) { Ends(t, p) && !TermOp(Ahead(t, p)) }

  /** In front of an operator behind blanks an operand has ended. */
  lemma OpAhead(t: string, p: nat, w: string, op: char, rest: string)
    requires Stands(t, p, w + ([op] + rest)) && Blanks(w) && (TermOp(op) || ExprOp(op) || op == ')')
    ensures p + |w| < |t| && At(t, p + |w|) == op && SkipWs(t, p) == p + |w| && Stands(t, p + |w| + 1, rest)
    ensures Ends(t, p) && (!TermOp(op) ==> EndsTerm(t, p)) && Ahead(t, p) == op
  {
    TokenStands(t, p, w, op, rest);
    if w != [] {
      StandsParts(t, p, w, [op] + rest);
      StandsAt(t, p, w, 0);
    }
  }

  lemma FactorNumber(t: string, p: nat, w: string, d: string)
    requires Stands(t, p, w + d) && Blanks(w) && d != [] && AllDigits(d) && Ends(t, p + |w + d|)
    ensures Meets(Checked(Spelled(d)), Factor(t, p, Fine()), p + |w + d|)
  {
    StandsParts(t, p, w, d);
    StandsAt(t, p + |w|, d, 0);
    SkipTo(t, p, w);
    DigitsRun(t, p + |w|, d);
  }

  lemma FactorParens(t: string, p: nat, o: Outcome, q: nat, end: nat)
    requires p <= |t| && q <= |t| && Ahead(t, p) == '(' && Ahead(t, q) == ')' && end == SkipWs(t, q) + 1
    requires SkipWs(t, p) < |t| && Continues(o, Expr(t, SkipWs(t, p) + 1, Fine()), Rest(t, o, q))
    ensures Meets(o, Factor(t, p, Fine()), end)
  {
    SkipTwice(t, q);
  }

  lemma {:induction false} FactorRun(t: string, p: nat, s: Syn)
    requires Ok(s) && Level(s) >= 3 && Stands(t, p, Text(s)) && Ends(t, p + |Text(s)|)
    ensures Meets(Ev(Meaning(s)), Factor(t, p, Fine()), p + |Text(s)|)
    decreases s, 0
  {
    hide Factor, Expr, ExprLoop, Ev, Meaning, Text, Stands, Blanks, SkipWs, At, Meets, Continues;
    if s.Paren? {
      var a := Text(s.x);
      ParenParts(s);
      TokenStands(t, p, s.w, '(', a + (s.v + ([')'] + [])));
      var q := p + |s.w| + 1;
      StandsParts(t, q, a, s.v + ([')'] + []));
      OpAhead(t, q + |a|, s.v, ')', []);
      ExprRun(t, q, s.x);
      FactorParens(t, p, Ev(Meaning(s.x)), q + |a|, p + |Text(s)|);
    } else {
      LitParts(s);
      FactorNumber(t, p, s.w, s.d);
    }
  }

  lemma LitParts(s: Syn)
    requires Ok(s) && s.Lit?
    ensures Blanks(s.w) && s.d != [] && AllDigits(s.d) && Text(s) == s.w + s.d
            && Ev(Meaning(s)) == Checked(Spelled(s.d))
  {}

  /** The parts of an operation: its text, what it means and how it comes out. */
  lemma OpParts(s: Syn)
    requires Ok(s) && s.Op?
    ensures (TermOp(s.op) || ExprOp(s.op)) && Blanks(s.w) && Ok(s.l) && Ok(s.r)
    ensures Text(s) == Text(s.l) + (s.w + ([s.op] + Text(s.r)))
    ensures |Text(s)| == |Text(s.l)| + |s.w| + 1 + |Text(s.r)|
    ensures var o := Ev(Meaning(s.l));
            Ev(Meaning(s)) == if o.Val? then Combine(s.op, o.v, Ev(Meaning(s.r))) else o
  {}

  lemma ParenParts(s: Syn)
    requires Ok(s) && s.Paren?
    ensures Blanks(s.w) && Blanks(s.v) && Ok(s.x) && Ev(Meaning(s)) == Ev(Meaning(s.x))
    ensures Text(s) == s.w + (['('] + (Text(s.x) + (s.v + ([')'] + []))))
    ensures |Text(s)| == |s.w| + 1 + |Text(s.x)| + |s.v| + 1
  {
    assert s.v + [')'] == s.v + ([')'] + []);
  }

  lemma SignParts(s: Syn)
    requires Ok(s) && (s.Minus? || s.Plus?)
    ensures Blanks(s.w) && Ok(s.x) && Level(s.x) >= 2
    ensures Text(s) == s.w + ([if s.Minus? then '-' else '+'] + Text(s.x)) && |Text(s)| == |s.w| + 1 + |Text(s.x)|
    ensures var o := Ev(Meaning(s.x));
            Ev(Meaning(s)) == if s.Minus? && o.Val? then Checked(-o.v) else o
  {}

  lemma UnaryMinus(t: string, p: nat, o: Outcome, q: nat)
    requires p <= |t| && SkipWs(t, p) < |t| && Ahead(t, p) == '-' && Meets(o, Unary(t, SkipWs(t, p) + 1, Fine()), q)
    ensures Meets(if o.Val? then Checked(-o.v) else o, Unary(t, p, Fine()), q)
  {}

  lemma UnaryPlus(t: string, p: nat, o: Outcome, q: nat)
    requires p <= |t| && SkipWs(t, p) < |t| && Ahead(t, p) == '+' && Meets(o, Unary(t, SkipWs(t, p) + 1, Fine()), q)
    ensures Meets(o, Unary(t, p, Fine()), q)
  {}

  lemma UnaryPlain(t: string, p: nat)
    requires p <= |t| && (Ahead(t, p) == '(' || Digit(Ahead(t, p)))
    ensures Unary(t, p, Fine()) == Factor(t, p, Fine())
  {
    SkipTwice(t, p);
  }

  lemma FactorAhead(t: string, p: nat, s: Syn)
    requires Ok(s) && Level(s) >= 3 && Stands(t, p, Text(s))
    ensures Ahead(t, p) == '(' || Digit(Ahead(t, p))
  {
    match s
    case Lit(w, d) => {
      assert w + d == w + ([d[0]] + d[1..]);
      TokenStands(t, p, w, d[0], d[1..]);
    }
    case Paren(w, x, v) => TokenStands(t, p, w, '(', Text(x) + (v + [')']));
  }

  lemma {:induction false} UnaryRun(t: string, p: nat, s: Syn)
    requires Ok(s) && Level(s) >= 2 && Stands(t, p, Text(s)) && Ends(t, p + |Text(s)|)
    ensures Meets(Ev(Meaning(s)), Unary(t, p, Fine()), p + |Text(s)|)
    decreases s, 1
  {
    hide Factor, Unary, Meets, Ev, Meaning, Text, Stands, Blanks, SkipWs, At;
    if s.Minus? || s.Plus? {
      SignParts(s);
      TokenStands(t, p, s.w, if s.Minus? then '-' else '+', Text(s.x));
      UnaryRun(t, p + |s.w| + 1, s.x);
      if s.Minus? {
        UnaryMinus(t, p, Ev(Meaning(s.x)), p + |Text(s)|);
      } else {
        UnaryPlus(t, p, Ev(Meaning(s.x)), p + |Text(s)|);
      }
    } else {
      FactorRun(t, p, s);
      FactorAhead(t, p, s);
      UnaryPlain(t, p);
    }
  }

  /** One operator of a product. */
  lemma TermStep(t: string, v: int, p: nat, o: Outcome, q: nat)
    requires p <= |t| && SkipWs(t, p) < |t| && TermOp(Ahead(t, p)) && q <= |t|
    requires Meets(o, Unary(t, SkipWs(t, p) + 1, Fine()), q)
    ensures var c := Combine(Ahead(t, p), v, o); Continues(c, TermLoop(t, v, p, Fine()), TermRest(t, c, q))
  {}

  lemma TermStart(t: string, p: nat, o: Outcome, q: nat)
    requires p <= |t| && q <= |t| && Meets(o, Unary(t, p, Fine()), q)
    ensures Continues(o, Term(t, p, Fine()), TermRest(t, o, q))
  {
    if o.DivZero? {
      var x := Unary(t, p, Fine());
      assert TermLoop(t, x.v, x.pos, x.f).f == x.f;
    }
  }

  lemma {:induction false} TermRun(t: string, p: nat, s: Syn)
    requires Ok(s) && Level(s) >= 1 && Stands(t, p, Text(s)) && Ends(t, p + |Text(s)|)
    ensures Continues(Ev(Meaning(s)), Term(t, p, Fine()), TermRest(t, Ev(Meaning(s)), p + |Text(s)|))
    decreases s, 2
  {
    hide Term, TermLoop, Unary, Meets, Ev, Meaning, Text, Stands, Blanks, SkipWs, At, Combine;
    if s.Op? {
      var a, b := Text(s.l), Text(s.r);
      OpParts(s);
      StandsParts(t, p, a, s.w + ([s.op] + b));
      OpAhead(t, p + |a|, s.w, s.op, b);
      TermRun(t, p, s.l);
      var o := Ev(Meaning(s.l));
      if o.Val? {
        UnaryRun(t, p + |a| + |s.w| + 1, s.r);
        TermStep(t, o.v, p + |a|, Ev(Meaning(s.r)), p + |Text(s)|);
      }
    } else {
      UnaryRun(t, p, s);
      TermStart(t, p, Ev(Meaning(s)), p + |Text(s)|);
    }
  }

  /** At the end of a product the loop stops behind the blanks. */
  lemma TermDone(t: string, p: nat, o: Outcome, q: nat)
    requires p <= |t| && q <= |t| && EndsTerm(t, q) && Continues(o, Term(t, p, Fine()), TermRest(t, o, q))
    ensures Meets(o, Term(t, p, Fine()), SkipWs(t, q))
  {}

  lemma SkipFirst(t: string, v: int, q: nat)
    requires q <= |t|
    ensures ExprLoop(t, v, SkipWs(t, q), Fine()) == ExprLoop(t, v, q, Fine())
  {
    SkipTwice(t, q);
  }

  lemma ExprStart(t: string, p: nat, o: Outcome, q: nat)
    requires p <= |t| && q <= |t| && Meets(o, Term(t, p, Fine()), SkipWs(t, q))
    ensures Continues(o, Expr(t, p, Fine()), Rest(t, o, q))
  {
    if o.DivZero? {
      var x := Term(t, p, Fine());
      assert ExprLoop(t, x.v, x.pos, x.f).f == x.f;
    }
    if o.Val? { SkipFirst(t, o.v, q); }
  }

  /** One operator of a sum. */
  lemma ExprStep(t: string, v: int, p: nat, o: Outcome, q: nat)
    requires p <= |t| && SkipWs(t, p) < |t| && ExprOp(Ahead(t, p)) && q <= |t|
    requires Meets(o, Term(t, SkipWs(t, p) + 1, Fine()), SkipWs(t, q))
    ensures var c := Combine(Ahead(t, p), v, o); Continues(c, ExprLoop(t, v, p, Fine()), Rest(t, c, q))
  {
    var c := Combine(Ahead(t, p), v, o);
    if c.Val? { SkipFirst(t, c.v, q); }
  }

  lemma {:induction false} ExprRun(t: string, p: nat, s: Syn)
    requires Ok(s) && Stands(t, p, Text(s)) && EndsTerm(t, p + |Text(s)|)
    ensures Continues(Ev(Meaning(s)), Expr(t, p, Fine()), Rest(t, Ev(Meaning(s)), p + |Text(s)|))
    decreases s, 3
  {
    hide Term, Expr, ExprLoop, TermLoop, Meets, Ev, Meaning, Text, Stands, Blanks, SkipWs, At, Combine;
    if Level(s) == 0 {
      var a, b := Text(s.l), Text(s.r);
      OpParts(s);
      StandsParts(t, p, a, s.w + ([s.op] + b));
      OpAhead(t, p + |a|, s.w, s.op, b);
      ExprRun(t, p, s.l);
      var o := Ev(Meaning(s.l));
      if o.Val? {
        TermRun(t, p + |a| + |s.w| + 1, s.r);
        TermDone(t, p + |a| + |s.w| + 1, Ev(Meaning(s.r)), p + |Text(s)|);
        ExprStep(t, o.v, p + |a|, Ev(Meaning(s.r)), p + |Text(s)|);
      }
    } else {
      TermRun(t, p, s);
      TermDone(t, p, Ev(Meaning(s)), p + |Text(s)|);
      ExprStart(t, p, Ev(Meaning(s)), p + |Text(s)|);
    }
  }

  /**
    Evaluating any text of the grammar, blanks wherever they may stand: the value
    of its meaning and the whole text read, or the failure that comes first.
   */
  lemma TextOutcome(s: Syn, tail: string)
    requires Ok(s) && Blanks(tail)
    ensures Meets(Ev(Meaning(s)), Expr(Text(s) + tail, 0, Fine()), |Text(s)| + |tail|)
  {
    hide Expr, ExprLoop, Text, Ok, Ev, SkipWs, Rest, Meaning;
    var t, q := Text(s) + tail, |Text(s)|;
    StandsParts(t, 0, Text(s), tail);
    SkipTo(t, q, tail);
    if tail != [] { StandsAt(t, q, tail, 0); }
    ExprRun(t, 0, s);
    LoopEnds(t, Ev(Meaning(s)), q);
  }

  lemma LoopEnds(t: string, o: Outcome, q: nat)
    requires q <= |t| && SkipWs(t, q) == |t|
    ensures o.Val? ==> Rest(t, o, q) == Result(o.v, |t|, Fine())
  {}
}
