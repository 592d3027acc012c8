/** The evaluator of integer expressions on text, in the arithmetic of int64. */
module ExprText {
  import opened Common

  const EXPR_DIVISION_BY_ZERO := -1
  const EXPR_MODULO_BY_ZERO := -2

  const INT64_MIN := -0x8000_0000_0000_0000
  const INT64_MAX := 0x7FFF_FFFF_FFFF_FFFF

  predicate IsInt64(i: int) {
    INT64_MIN <= i <= INT64_MAX
  }

  predicate IsDigit(c: char) {
    '0' <= c <= '9'
  }

  function Digit(c: char): (d: nat)
    requires IsDigit(c)
    ensures d < 10
  {
    c as int - '0' as int
  }

  // ---- division that truncates towards zero ----

  function Abs(a: int): nat {
    if a < 0 then -a else a
  }

  function Quotient(a: int, b: int): int
    requires b != 0
  {
    var q := Abs(a) / Abs(b);
    if (a < 0) == (b < 0) then q else -q
  }

  function Remainder(a: int, b: int): int
    requires b != 0
  {
    a - b * Quotient(a, b)
  }

  /** The remainder has the sign of the dividend and is smaller than the divisor. */
  lemma TruncatedDivision(a: int, b: int)
    requires b != 0
    ensures var r := Remainder(a, b);
            && a == b * Quotient(a, b) + r
            && Abs(r) < Abs(b)
            && (r == 0 || (r < 0) == (a < 0))
  {
    var x: int, y: int := Abs(a), Abs(b);
    assert x == y * (x / y) + x % y;
    assert b * Quotient(a, b) == if a < 0 then -(y * (x / y)) else y * (x / y);
  }

  // ---- the evaluator ----

  /** A value, the last error, and what is left to read.  Outside: the cursor has left the string.
      Undefined: a result is not an int64, and C does not define what happens. */
  datatype Parsed = Parsed(value: int, err: int, rest: string) | Outside | Undefined

  /** The character code is added before the code of '0' is taken off. */
  function NumberFrom(acc: int, err: int, s: string): (r: Parsed)
    ensures r.Parsed? ==> |r.rest| <= |s|
    decreases |s|
  {
    if s == [] || !IsDigit(s[0]) then Parsed(acc, err, s)
    else if !IsInt64(10 * acc + s[0] as int) then Undefined
    else NumberFrom(10 * acc + Digit(s[0]), err, s[1..])
  }

  /** expr_factor */
  function FactorOf(s: string, err: int): (r: Parsed)
    ensures r.Parsed? ==> |r.rest| <= |s|
    decreases |s|, 0
  {
    if s == [] then Parsed(0, err, s)
    else if IsDigit(s[0]) then NumberFrom(Digit(s[0]), err, s[1..])
    else if s[0] == '(' then
      var r := ExpressionOf(s[1..], err);
      if !r.Parsed? then r
      else if r.rest == [] then Outside
      else Parsed(r.value, r.err, r.rest[1..])
    else if s[0] == '-' then
      var r := FactorOf(s[1..], err);
      if !r.Parsed? then r else if !IsInt64(-r.value) then Undefined else Parsed(-r.value, r.err, r.rest)
    else Parsed(0, err, s)
  }

  predicate IsTermOp(c: char) {
    c == '*' || c == '/' || c == '%'
  }

  /** One step of the loop of expr_term; for a divisor of 0 the code of the error takes its place. */
  function Apply(op: char, a: int, b: int, err: int, rest: string): (r: Parsed)
    ensures r.Parsed? ==> r.rest == rest
  {
    if op == '*' then
      (if IsInt64(a * b) then Parsed(a * b, err, rest) else Undefined)
    else
      var code := if op == '%' then EXPR_MODULO_BY_ZERO else EXPR_DIVISION_BY_ZERO;
      var d, e := if b == 0 then code else b, if b == 0 then code else err;
      if a == INT64_MIN && d == -1 then Undefined
      else Parsed(if op == '%' then Remainder(a, d) else Quotient(a, d), e, rest)
  }

  function TermLoop(acc: int, err: int, s: string): (r: Parsed)
    ensures r.Parsed? ==> |r.rest| <= |s|
    decreases |s|, 1
  {
    if s == [] || !IsTermOp(s[0]) then Parsed(acc, err, s)
    else
      var f := FactorOf(s[1..], err);
      if !f.Parsed? then f
      else
        var r := Apply(s[0], acc, f.value, f.err, f.rest);
        if !r.Parsed? then r else TermLoop(r.value, r.err, r.rest)
  }

  /** expr_term */
  function TermOf(s: string, err: int): (r: Parsed)
    ensures r.Parsed? ==> |r.rest| <= |s|
    decreases |s|, 2
  {
    var f := FactorOf(s, err);
    if !f.Parsed? then f else TermLoop(f.value, f.err, f.rest)
  }

  predicate IsSign(c: char) {
    c == '+' || c == '-'
  }

  function ExprLoop(acc: int, err: int, s: string): (r: Parsed)
    ensures r.Parsed? ==> |r.rest| <= |s|
    decreases |s|, 3
  {
    if s == [] || !IsSign(s[0]) then Parsed(acc, err, s)
    else
      var t := TermOf(s[1..], err);
      if !t.Parsed? then t
      else
        var v := if s[0] == '+' then acc + t.value else acc - t.value;
        if IsInt64(v) then ExprLoop(v, t.err, t.rest) else Undefined
  }

  /** expr_expression */
  function ExpressionOf(s: string, err: int): (r: Parsed)
    ensures r.Parsed? ==> |r.rest| <= |s|
    decreases |s|, 4
  {
    var t := TermOf(s, err);
    if !t.Parsed? then t else ExprLoop(t.value, t.err, t.rest)
  }

  // ---- errors ----

  /** A new error is -1 only when there is a `/` to cause it, and -2 only when there is a `%`. */
  ghost predicate Caused(r: Parsed, err: int, s: string) {
    r.Parsed? ==>
      && (r.err == err || (r.err == -1 && '/' in s) || (r.err == -2 && '%' in s))
      && forall c :: c in r.rest ==> c in s
  }

  lemma CausedBehind(r: Parsed, err: int, s: string, q: Parsed)
    requires Caused(r, err, s) && r.Parsed? && Caused(q, r.err, r.rest)
    ensures Caused(q, err, s)
  {}

  lemma {:induction false} NumberCauses(acc: int, err: int, s: string)
    ensures Caused(NumberFrom(acc, err, s), err, s)
    decreases |s|
  {
    if s != [] {
      NumberCauses(10 * acc + if IsDigit(s[0]) then Digit(s[0]) else 0, err, s[1..]);
    }
  }

  lemma {:induction false} FactorCauses(s: string, err: int)
    ensures Caused(FactorOf(s, err), err, s)
    decreases |s|, 0
  {
    hide ExpressionOf, NumberFrom;
    if s != [] {
      var tail := s[1..];
      assert forall c :: c in tail ==> c in s;
      ExpressionCauses(tail, err);
      FactorCauses(tail, err);
      if IsDigit(s[0]) {
        NumberCauses(Digit(s[0]), err, tail);
      }
      assert s[0] == '(' && ExpressionOf(tail, err).Parsed? && ExpressionOf(tail, err).rest != [] ==>
          forall c :: c in ExpressionOf(tail, err).rest[1..] ==> c in s;
    }
  }

  lemma {:induction false} TermLoopCauses(acc: int, err: int, s: string)
    ensures Caused(TermLoop(acc, err, s), err, s)
    decreases |s|, 1
  {
    hide FactorOf, Quotient, Remainder;
    if s != [] && IsTermOp(s[0]) {
      FactorCauses(s[1..], err);
      var f := FactorOf(s[1..], err);
      if f.Parsed? {
        var r := Apply(s[0], acc, f.value, f.err, f.rest);
        assert Caused(r, err, s);
        if r.Parsed? {
          TermLoopCauses(r.value, r.err, r.rest);
          CausedBehind(r, err, s, TermLoop(r.value, r.err, r.rest));
        }
      }
    }
  }

  lemma {:induction false} TermCauses(s: string, err: int)
    ensures Caused(TermOf(s, err), err, s)
    decreases |s|, 2
  {
    hide FactorOf, TermLoop;
    FactorCauses(s, err);
    var f := FactorOf(s, err);
    if f.Parsed? {
      TermLoopCauses(f.value, f.err, f.rest);
      CausedBehind(f, err, s, TermLoop(f.value, f.err, f.rest));
    }
  }

  lemma {:induction false} ExprLoopCauses(acc: int, err: int, s: string)
    ensures Caused(ExprLoop(acc, err, s), err, s)
    decreases |s|, 3
  {
    hide TermOf;
    if s != [] && IsSign(s[0]) {
      TermCauses(s[1..], err);
      var t := TermOf(s[1..], err);
      if t.Parsed? {
        var v := if s[0] == '+' then acc + t.value else acc - t.value;
        assert Caused(t, err, s);
        ExprLoopCauses(v, t.err, t.rest);
        CausedBehind(t, err, s, ExprLoop(v, t.err, t.rest));
      }
    }
  }

  lemma {:induction false} ExpressionCauses(s: string, err: int)
    ensures Caused(ExpressionOf(s, err), err, s)
    decreases |s|, 4
  {
    hide TermOf, ExprLoop;
    TermCauses(s, err);
    var t := TermOf(s, err);
    if t.Parsed? {
      ExprLoopCauses(t.value, t.err, t.rest);
      CausedBehind(t, err, s, ExprLoop(t.value, t.err, t.rest));
    }
  }
}
