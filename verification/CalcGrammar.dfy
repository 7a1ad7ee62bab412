/** The evaluator accepts no other texts than those of its grammar. */
module CalcGrammar {
  import opened Slices
  import opened Calc
  import opened CalcValues
  import opened CalcTexts

  /** s stands at p, and only blanks b lie between it and end. */
  ghost predicate Fills(t: string, p: nat, s: Syn, b: string, end: nat) {
    Ok(s) && Blanks(b) && Stands(t, p, Text(s)) && Stands(t, p + |Text(s)|, b) && end == p + |Text(s)| + |b|
  }

  lemma {:induction false} SkipBlanks(t: string, p: nat)
    requires p <= |t|
    ensures Blanks(t[p..SkipWs(t, p)])
    decreases |t| - p
  {
    if Blank(At(t, p)) {
      SkipBlanks(t, p + 1);
      assert t[p..SkipWs(t, p)] == [t[p]] + t[p + 1..SkipWs(t, p + 1)];
    }
  }

  lemma {:induction false} NumberDigits(t: string, p: nat, v: int, f: Flags)
    requires p <= |t|
    ensures AllDigits(t[p..Number(t, p, v, f).pos])
    decreases |t| - p
  {
    if Digit(At(t, p)) {
      var w := 10 * v + DigitValue(At(t, p));
      var q := Number(t, p, v, f).pos;
      NumberDigits(t, p + 1, w, Noted(f, w));
      assert t[p..q] == [t[p]] + t[p + 1..q];
    }
  }

  /** The blanks from p on, and the character behind them. */
  lemma BlanksStand(t: string, p: nat) returns (w: string)
    requires p <= |t|
    ensures Blanks(w) && Stands(t, p, w) && p + |w| == SkipWs(t, p)
  {
    w := t[p..SkipWs(t, p)];
    SkipBlanks(t, p);
  }

  lemma TokenJoins(t: string, p: nat, w: string, c: char, rest: string)
    requires Stands(t, p, w) && p + |w| < |t| && At(t, p + |w|) == c && Stands(t, p + |w| + 1, rest)
    ensures Stands(t, p, w + ([c] + rest))
  {
    assert Stands(t, p + |w|, [c]);
    StandsJoin(t, p + |w|, [c], rest);
    StandsJoin(t, p, w, [c] + rest);
  }

  lemma NumberTree(t: string, p: nat, f: Flags) returns (s: Syn)
    requires p <= |t| && Digit(At(t, SkipWs(t, p)))
    ensures Ok(s) && Level(s) == 3 && Stands(t, p, Text(s))
    ensures p + |Text(s)| == Number(t, SkipWs(t, p), 0, f).pos
  {
    var w := BlanksStand(t, p);
    var q := SkipWs(t, p);
    var d := t[q..Number(t, q, 0, f).pos];
    NumberDigits(t, q, 0, f);
    StandsJoin(t, p, w, d);
    s := Lit(w, d);
  }

  lemma ParenTree(t: string, p: nat, w: string, x: Syn, b: string, end: nat) returns (s: Syn)
    requires Blanks(w) && Stands(t, p, w) && p + |w| < |t| && At(t, p + |w|) == '('
    requires Fills(t, p + |w| + 1, x, b, end) && end < |t| && At(t, end) == ')'
    ensures Ok(s) && Level(s) == 3 && Stands(t, p, Text(s)) && p + |Text(s)| == end + 1
  {
    s := Paren(w, x, b);
    assert Stands(t, end, [')']);
    StandsJoin(t, end - |b|, b, [')']);
    StandsJoin(t, p + |w| + 1, Text(x), b + [')']);
    TokenJoins(t, p, w, '(', Text(x) + (b + [')']));
  }

  lemma {:induction false} FactorTree(t: string, p: nat, f: Flags) returns (s: Syn)
    requires p <= |t| && !Factor(t, p, f).f.err
    ensures Ok(s) && Level(s) == 3 && Stands(t, p, Text(s)) && p + |Text(s)| == Factor(t, p, f).pos
    decreases |t| - p, 0
  {
    hide Fills, Stands, Blanks, Text, Ok, Number, Expr;
    var w := BlanksStand(t, p);
    var q := SkipWs(t, p);
    if At(t, q) == '(' {
      var x, b := ExprTree(t, q + 1, f);
      var end := Expr(t, q + 1, f).pos;
      var v := BlanksStand(t, end);
      MoreBlanks(t, q + 1, x, b, end, v);
      s := ParenTree(t, p, w, x, b + v, end + |v|);
    } else {
      s := NumberTree(t, p, f);
    }
  }

  lemma FactorSkips(t: string, p: nat, f: Flags)
    requires p <= |t|
    ensures Factor(t, SkipWs(t, p), f) == Factor(t, p, f)
  {
    SkipTwice(t, p);
  }

  lemma {:induction false} UnaryTree(t: string, p: nat, f: Flags) returns (s: Syn)
    requires p <= |t| && !Unary(t, p, f).f.err
    ensures Ok(s) && Level(s) >= 2 && Stands(t, p, Text(s)) && p + |Text(s)| == Unary(t, p, f).pos
    decreases |t| - p, 1
  {
    hide Stands, Blanks, Expr, Number;
    var w := BlanksStand(t, p);
    var q := SkipWs(t, p);
    if At(t, q) == '-' || At(t, q) == '+' {
      var x := UnaryTree(t, q + 1, f);
      TokenJoins(t, p, w, At(t, q), Text(x));
      s := if At(t, q) == '-' then Minus(w, x) else Plus(w, x);
    } else {
      FactorSkips(t, p, f);
      s := FactorTree(t, p, f);
    }
  }

  /** More blanks behind. */
  lemma MoreBlanks(t: string, p: nat, s: Syn, b: string, e: nat, w: string)
    requires Fills(t, p, s, b, e) && Blanks(w) && Stands(t, e, w)
    ensures Fills(t, p, s, b + w, e + |w|)
  {
    StandsJoin(t, p + |Text(s)|, b, w);
  }

  /** An operand, an operator behind blanks, and another operand. */
  lemma OpTree(t: string, p: nat, l: Syn, b: string, e: nat, op: char, r: Syn, c: string, end: nat) returns (s: Syn)
    requires Fills(t, p, l, b, e) && e < |t| && At(t, e) == op && Fills(t, e + 1, r, c, end)
    requires (TermOp(op) && Level(l) >= 1 && Level(r) >= 2) || (ExprOp(op) && Level(r) >= 1)
    ensures Fills(t, p, s, c, end) && Level(s) == if ExprOp(op) then 0 else 1
  {
    s := Op(l, b, op, r);
    TokenJoins(t, e - |b|, b, op, Text(r));
    StandsJoin(t, p, Text(l), b + ([op] + Text(r)));
  }

  lemma {:induction false} TermLoopTree(t: string, p0: nat, l: Syn, b: string, v: int, p: nat, f: Flags)
    returns (s: Syn, c: string)
    requires p <= |t| && Fills(t, p0, l, b, p) && Level(l) >= 1 && !TermLoop(t, v, p, f).f.err
    ensures Fills(t, p0, s, c, TermLoop(t, v, p, f).pos) && Level(s) >= 1
    decreases |t| - p, 2
  {
    hide Fills, Ok, Text;
    var w := BlanksStand(t, p);
    var q := SkipWs(t, p);
    MoreBlanks(t, p0, l, b, p, w);
    var op := At(t, q);
    if !TermOp(op) {
      s, c := l, b + w;
    } else {
      var x := Unary(t, q + 1, f);
      var r := UnaryTree(t, q + 1, f);
      NoBlanks(t, q + 1, r);
      var m := OpTree(t, p0, l, b + w, q, op, r, "", x.pos);
      s, c := TermLoopTree(t, p0, m, "", Exact(op, v, x.v), x.pos, Applied(x.f, op, v, x.v));
    }
  }

  lemma NoBlanks(t: string, p: nat, s: Syn)
    requires Ok(s) && Stands(t, p, Text(s))
    ensures Fills(t, p, s, "", p + |Text(s)|)
  {}

  lemma {:induction false} TermTree(t: string, p: nat, f: Flags) returns (s: Syn, b: string)
    requires p <= |t| && !Term(t, p, f).f.err
    ensures Fills(t, p, s, b, Term(t, p, f).pos) && Level(s) >= 1
    decreases |t| - p, 3
  {
    hide Fills, Ok, Text;
    var x := Unary(t, p, f);
    var u := UnaryTree(t, p, f);
    NoBlanks(t, p, u);
    s, b := TermLoopTree(t, p, u, "", x.v, x.pos, x.f);
  }

  lemma {:induction false} ExprLoopTree(t: string, p0: nat, l: Syn, b: string, v: int, p: nat, f: Flags)
    returns (s: Syn, c: string)
    requires p <= |t| && Fills(t, p0, l, b, p) && !ExprLoop(t, v, p, f).f.err
    ensures Fills(t, p0, s, c, ExprLoop(t, v, p, f).pos)
    decreases |t| - p, 4
  {
    hide Fills, Ok, Text;
    var w := BlanksStand(t, p);
    var q := SkipWs(t, p);
    MoreBlanks(t, p0, l, b, p, w);
    var op := At(t, q);
    if !ExprOp(op) {
      s, c := l, b + w;
    } else {
      var x := Term(t, q + 1, f);
      var r, d := TermTree(t, q + 1, f);
      var m := OpTree(t, p0, l, b + w, q, op, r, d, x.pos);
      s, c := ExprLoopTree(t, p0, m, d, Exact(op, v, x.v), x.pos, Applied(x.f, op, v, x.v));
    }
  }

  lemma {:induction false} ExprTree(t: string, p: nat, f: Flags) returns (s: Syn, b: string)
    requires p <= |t| && !Expr(t, p, f).f.err
    ensures Fills(t, p, s, b, Expr(t, p, f).pos)
    decreases |t| - p, 5
  {
    hide Fills, Ok, Text;
    var x := Term(t, p, f);
    var l, d := TermTree(t, p, f);
    s, b := ExprLoopTree(t, p, l, d, x.v, x.pos, x.f);
  }

  /** t is a text of the grammar and blanks. */
  ghost predicate Written(t: string, s: Syn, tail: string) { Ok(s) && Blanks(tail) && t == Text(s) + tail }

  ghost predicate Accepted(t: string) { !Expr(t, 0, Fine()).f.err && Expr(t, 0, Fine()).pos == |t| }

  lemma AcceptedText(t: string) returns (s: Syn, tail: string)
    requires Accepted(t)
    ensures Written(t, s, tail)
  {
    s, tail := ExprTree(t, 0, Fine());
    assert t == t[0..|t|];
    StandsJoin(t, 0, Text(s), tail);
  }

  /** The text has a value. */
  ghost predicate Means(t: string, s: Syn, tail: string, v: int) { Written(t, s, tail) && Ev(Meaning(s)) == Val(v) }

  /**
    Short of overflow, a text is read to its end without an error exactly when it
    is one of the grammar whose value exists, and that value is the result.
   */
  lemma AcceptedIff(t: string)
    requires !Expr(t, 0, Fine()).f.over
    ensures Accepted(t) <==> exists s, tail :: Means(t, s, tail, Expr(t, 0, Fine()).v)
  {
    hide Expr, Text, Ok, Ev, Meaning;
    var r := Expr(t, 0, Fine());
    if Accepted(t) {
      var s, tail := AcceptedText(t);
      TextOutcome(s, tail);
      assert Means(t, s, tail, r.v);
    }
    if s, tail :| Means(t, s, tail, r.v) {
      TextOutcome(s, tail);
    }
  }
}
