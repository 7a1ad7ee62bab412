/**
  The expression evaluator of calc.c.  A long has 32 bits on this machine, and C
  gives no meaning to a signed value outside it, so over marks the moment such a
  value is computed; up to then the model's integers are the source's.  Past its
  last character a text reads as '\0'.
 */
module Calc {

  predicate Long(v: int) { -0x8000_0000 <= v < 0x8000_0000 }

  /** err is the source's error flag; over: some value has left the range of a long. */
  datatype Flags = Flags(err: bool, over: bool)

  function Fine(): Flags { Flags(false, false) }

  /** The flags after computing v. */
  function Noted(f: Flags, v: int): Flags { Flags(f.err, f.over || !Long(v)) }

  ghost predicate Since(f: Flags, g: Flags) { (f.err ==> g.err) && (f.over ==> g.over) }

  /** A value, the position after it, and the flags. */
  datatype Result = Result(v: int, pos: nat, f: Flags)

  function At(t: string, p: nat): char { if p < |t| then t[p] else '\0' }

  function SkipWs(t: string, p: nat): (q: nat)
    requires p <= |t|
    ensures p <= q <= |t|
    decreases |t| - p
  {
    if At(t, p) == ' ' || At(t, p) == '\t' then SkipWs(t, p + 1) else p
  }

  predicate Digit(c: char) { '0' <= c <= '9' }

  function DigitValue(c: char): nat
    requires Digit(c)
  {
    c as int - '0' as int
  }

  /** The digits from p on, after the ones that made v. */
  function Number(t: string, p: nat, v: int, f: Flags): (r: Result)
    requires p <= |t|
    ensures p <= r.pos <= |t| && Since(f, r.f) && r.f.err == f.err
    decreases |t| - p
  {
    if Digit(At(t, p)) then
      var w := 10 * v + DigitValue(At(t, p));
      Number(t, p + 1, w, Noted(f, w))
    else Result(v, p, f)
  }

  /** C's division, toward zero. */
  function Quot(a: int, b: int): int
    requires b != 0
  {
    if a >= 0 then (if b > 0 then a / b else -(a / -b)) else (if b > 0 then -(-a / b) else -a / -b)
  }

  function Rem(a: int, b: int): int
    requires b != 0
  {
    a - b * Quot(a, b)
  }

  function Abs(a: int): nat { if a < 0 then -a else a }

  /** Division rounds toward zero: the remainder is smaller than the divisor and has the dividend's sign. */
  lemma TowardZero(a: int, b: int)
    requires b != 0
    ensures a == b * Quot(a, b) + Rem(a, b) && Abs(Rem(a, b)) < Abs(b)
    ensures Rem(a, b) == 0 || (Rem(a, b) > 0 <==> a > 0)
  {
    hide Quot, Rem;
    Recombined(a, b);
    var m := RemIs(a, b);
  }

  lemma Recombined(a: int, b: int)
    requires b != 0
    ensures a == b * Quot(a, b) + Rem(a, b)
  {}

  /** The remainder is that of the absolute values, with the dividend's sign. */
  lemma RemIs(a: int, b: int) returns (m: int)
    requires b != 0
    ensures 0 <= m < Abs(b) && Rem(a, b) == if a >= 0 then m else 0 - m
  {
    hide Quot;
    var x, y: int := Abs(a), Abs(b);
    var q := x / y;
    m := x - y * q;
    Positive(x, y);
    QuotIs(a, b);
    RemFrom(a, b, q);
  }

  lemma RemFrom(a: int, b: int, q: int)
    requires b != 0 && Quot(a, b) == if (a >= 0) == (b > 0) then q else 0 - q
    ensures Rem(a, b) == if a >= 0 then Abs(a) - Abs(b) * q else 0 - (Abs(a) - Abs(b) * q)
  {
    hide Quot;
    Products(a, b, Abs(b), q);
  }

  lemma QuotIs(a: int, b: int)
    requires b != 0
    ensures Quot(a, b) == if (a >= 0) == (b > 0) then Abs(a) / Abs(b) else 0 - Abs(a) / Abs(b)
  {}

  lemma Positive(x: int, y: int)
    requires x >= 0 && y > 0
    ensures 0 <= x - y * (x / y) < y
  {
    assert x - y * (x / y) == x % y;
  }

  /** The divisor times the quotient is y times q, with the dividend's sign. */
  lemma Products(a: int, b: int, y: int, q: int)
    requires y == Abs(b)
    ensures b * (if (a >= 0) == (b > 0) then q else 0 - q) == if a >= 0 then y * q else 0 - y * q
  {
    Signs(y, q);
  }

  lemma Signs(y: int, q: int)
    ensures (-y) * (-q) == y * q && y * (-q) == -(y * q) && (-y) * q == -(y * q)
  {}

  predicate TermOp(c: char) { c == '*' || c == '/' || c == '%' }
  predicate ExprOp(c: char) { c == '+' || c == '-' }

  predicate Divides(op: char) { op == '/' || op == '%' }

  /** The result of an operator over all integers. */
  function Exact(op: char, a: int, b: int): int
    requires (TermOp(op) || ExprOp(op)) && (Divides(op) ==> b != 0)
  {
    if op == '+' then a + b else if op == '-' then a - b else if op == '*' then a * b
    else if op == '/' then Quot(a, b) else Rem(a, b)
  }

  /** The operator leaves the range: its result does, or the quotient that a remainder goes through. */
  predicate Wide(op: char, a: int, b: int)
    requires (TermOp(op) || ExprOp(op)) && (Divides(op) ==> b != 0)
  {
    !Long(Exact(op, a, b)) || (op == '%' && !Long(Quot(a, b)))
  }

  function Applied(f: Flags, op: char, a: int, b: int): Flags
    requires (TermOp(op) || ExprOp(op)) && (Divides(op) ==> b != 0)
  {
    Flags(f.err, f.over || Wide(op, a, b))
  }

  function Failed(f: Flags): Flags { Flags(true, f.over) }

  // ---- what each parsing function computes ----

  function Factor(t: string, p: nat, f: Flags): (r: Result)
    requires p <= |t|
    ensures p <= r.pos <= |t| && Since(f, r.f)
    decreases |t| - p, 0
  {
    var q := SkipWs(t, p);
    if At(t, q) == '(' then
      var x := Expr(t, q + 1, f);
      var s := SkipWs(t, x.pos);
      if At(t, s) == ')' then Result(x.v, s + 1, x.f) else Result(x.v, s, Failed(x.f))
    else if !Digit(At(t, q)) then Result(0, q, Failed(f))
    else Number(t, q, 0, f)
  }

  function Unary(t: string, p: nat, f: Flags): (r: Result)
    requires p <= |t|
    ensures p <= r.pos <= |t| && Since(f, r.f)
    decreases |t| - p, 1
  {
    var q := SkipWs(t, p);
    if At(t, q) == '-' then
      var x := Unary(t, q + 1, f);
      Result(-x.v, x.pos, Noted(x.f, -x.v))
    else if At(t, q) == '+' then Unary(t, q + 1, f)
    else Factor(t, q, f)
  }

  function TermLoop(t: string, v: int, p: nat, f: Flags): (r: Result)
    requires p <= |t|
    ensures p <= r.pos <= |t| && Since(f, r.f)
    decreases |t| - p, 2
  {
    var q := SkipWs(t, p);
    var op := At(t, q);
    if f.err then Result(0, q, f)
    else if !TermOp(op) then Result(v, q, f)
    else
      var x := Unary(t, q + 1, f);
      if x.f.err then Result(0, x.pos, x.f)
      else if Divides(op) && x.v == 0 then Result(0, x.pos, Failed(x.f))
      else TermLoop(t, Exact(op, v, x.v), x.pos, Applied(x.f, op, v, x.v))
  }

  function Term(t: string, p: nat, f: Flags): (r: Result)
    requires p <= |t|
    ensures p <= r.pos <= |t| && Since(f, r.f)
    decreases |t| - p, 3
  {
    var x := Unary(t, p, f);
    TermLoop(t, x.v, x.pos, x.f)
  }

  function ExprLoop(t: string, v: int, p: nat, f: Flags): (r: Result)
    requires p <= |t|
    ensures p <= r.pos <= |t| && Since(f, r.f)
    decreases |t| - p, 4
  {
    var q := SkipWs(t, p);
    var op := At(t, q);
    if f.err then Result(0, q, f)
    else if !ExprOp(op) then Result(v, q, f)
    else
      var x := Term(t, q + 1, f);
      if x.f.err then Result(0, x.pos, x.f)
      else ExprLoop(t, Exact(op, v, x.v), x.pos, Applied(x.f, op, v, x.v))
  }

  function Expr(t: string, p: nat, f: Flags): (r: Result)
    requires p <= |t|
    ensures p <= r.pos <= |t| && Since(f, r.f)
    decreases |t| - p, 5
  {
    var x := Term(t, p, f);
    ExprLoop(t, x.v, x.pos, x.f)
  }

  // ---- the parser itself ----

  class Parser {
    const text: string
    var pos: nat
    var err: bool
    ghost var over: bool

    ghost function State(): Flags
      reads this
    {
      Flags(err, over)
    }

    constructor (t: string)
      ensures text == t && pos == 0 && State() == Fine()
    {
      text, pos, err, over := t, 0, false, false;
    }

    method Skip()
      requires pos <= |text|
      modifies this`pos
      ensures pos == SkipWs(text, old(pos)) <= |text|
    {
      while At(text, pos) == ' ' || At(text, pos) == '\t'
        invariant pos <= |text| && SkipWs(text, pos) == SkipWs(text, old(pos))
        decreases |text| - pos
      {
        pos := pos + 1;
      }
    }

    method ParseNumber() returns (v: int)
      requires pos <= |text|
      modifies this`pos, this`over
      ensures Result(v, pos, State()) == Number(text, old(pos), 0, old(State())) && pos <= |text|
    {
      v := 0;
      while '0' <= At(text, pos) <= '9'
        invariant old(pos) <= pos <= |text| && Number(text, pos, v, State()) == Number(text, old(pos), 0, old(State()))
        decreases |text| - pos
      {
        v := 10 * v + DigitValue(At(text, pos));
        over := over || !Long(v);
        pos := pos + 1;
      }
    }

    method ParseFactor() returns (v: int)
      requires pos <= |text|
      modifies this
      ensures Result(v, pos, State()) == Factor(text, old(pos), old(State())) && pos <= |text|
      decreases |text| - pos, 0
    {
      Skip();
      if At(text, pos) == '(' {
        pos := pos + 1;
        v := ParseExpr();
        Skip();
        if At(text, pos) == ')' { pos := pos + 1; } else { err := true; }
        return;
      }
      if At(text, pos) < '0' || At(text, pos) > '9' {
        err := true;
        return 0;
      }
      v := ParseNumber();
    }

    method ParseUnary() returns (v: int)
      requires pos <= |text|
      modifies this
      ensures Result(v, pos, State()) == Unary(text, old(pos), old(State())) && pos <= |text|
      decreases |text| - pos, 1
    {
      Skip();
      if At(text, pos) == '-' {
        pos := pos + 1;
        v := ParseUnary();
        v := -v;
        over := over || !Long(v);
        return;
      }
      if At(text, pos) == '+' {
        pos := pos + 1;
        v := ParseUnary();
        return;
      }
      v := ParseFactor();
    }

    method ParseTerm() returns (v: int)
      requires pos <= |text|
      modifies this
      ensures Result(v, pos, State()) == Term(text, old(pos), old(State())) && pos <= |text|
      decreases |text| - pos, 3
    {
      v := ParseUnary();
      ghost var goal := TermLoop(text, v, pos, State());
      while true
        invariant old(pos) <= pos <= |text| && TermLoop(text, v, pos, State()) == goal
        decreases |text| - pos
      {
        Skip();
        if err { return 0; }
        var op := At(text, pos);
        if op != '*' && op != '/' && op != '%' { break; }
        pos := pos + 1;
        var r := ParseUnary();
        if err { return 0; }
        if op != '*' && r == 0 {
          err := true;
          return 0;
        }
        over := over || Wide(op, v, r);
        v := if op == '*' then v * r else if op == '/' then Quot(v, r) else Rem(v, r);
      }
    }

    method ParseExpr() returns (v: int)
      requires pos <= |text|
      modifies this
      ensures Result(v, pos, State()) == Expr(text, old(pos), old(State())) && pos <= |text|
      decreases |text| - pos, 5
    {
      v := ParseTerm();
      ghost var goal := ExprLoop(text, v, pos, State());
      while true
        invariant old(pos) <= pos <= |text| && ExprLoop(text, v, pos, State()) == goal
        decreases |text| - pos
      {
        Skip();
        if err { return 0; }
        var op := At(text, pos);
        if op != '+' && op != '-' { break; }
        pos := pos + 1;
        var r := ParseTerm();
        if err { return 0; }
        over := over || Wide(op, v, r);
        v := if op == '+' then v + r else v - r;
      }
    }
  }
}
