/** Expressions without plus signs of numbers are read from their text as they are meant. */
module ExprPlain {
  import opened Common
  import opened ExprText
  import opened ExprTree

  /** The last factor of a term is missing. */
  predicate TermOpen(t: TermTree) {
    match t
    case One(f) => f.Nothing?
    case Times(_, _, f) => f.Nothing?
  }

  predicate Open(e: ExprTree) {
    match e
    case Just(t) => TermOpen(t)
    case Add(_, _, t) => TermOpen(t)
  }

  predicate FactorPlain(f: FactorTree) {
    match f
    case Plus(_) => false
    case Paren(e) => Plain(e) && !Open(e)
    case _ => true
  }

  predicate TermPlain(t: TermTree) {
    match t
    case One(f) => FactorPlain(f)
    case Times(u, _, f) => TermPlain(u) && !TermOpen(u) && FactorPlain(f)
  }

  /** No number has a plus sign, and a factor is missing only in front of a plus. */
  predicate Plain(e: ExprTree) {
    match e
    case Just(t) => TermPlain(t)
    case Add(d, minus, t) => Plain(d) && (Open(d) ==> !minus) && TermPlain(t)
  }

  // ---- what a run of the evaluator may give for a value ----

  /** The value is read up to s without an error; beyond int64 the run is undefined; and behind a
      division by zero it is undefined too or leaves one of the two errors. */
  predicate Gives(r: Parsed, m: Val, err: int, s: string) {
    match m
    case Val(v) => r == Parsed(v, err, s)
    case ByZero => r == Undefined || (r.Parsed? && (r.err == -1 || r.err == -2) && r.rest == s)
    case Beyond => r == Undefined
  }

  function TermOn(r: Parsed): Parsed {
    if r.Parsed? then TermLoop(r.value, r.err, r.rest) else r
  }

  function ExprOn(r: Parsed): Parsed {
    if r.Parsed? then ExprLoop(r.value, r.err, r.rest) else r
  }

  predicate NoDigit(s: string) {
    s != [] ==> !IsDigit(s[0])
  }

  /** Nothing of a term or a number goes on in s. */
  predicate After(s: string) {
    s != [] ==> !IsDigit(s[0]) && !IsTermOp(s[0])
  }

  predicate PlusNext(s: string) {
    s != [] && s[0] == '+'
  }

  // ---- numbers ----

  lemma {:induction false} NumberGrows(ds: string, more: string)
    requires (forall i :: 0 <= i < |ds| ==> IsDigit(ds[i])) && forall i :: 0 <= i < |more| ==> IsDigit(more[i])
    ensures forall i :: 0 <= i < |ds + more| ==> IsDigit((ds + more)[i])
    ensures NumberOf(ds) <= NumberOf(ds + more)
    decreases |more|
  {
    if more == [] {
      assert ds + more == ds;
    } else {
      var m := |more| - 1;
      NumberGrows(ds, more[..m]);
      assert (ds + more)[..|ds + more| - 1] == ds + more[..m];
    }
  }

  lemma {:induction false} NumberRead(ds: string, acc: nat, done: string, err: int, s: string)
    requires forall i :: 0 <= i < |ds| ==> IsDigit(ds[i])
    requires done != [] && forall i :: 0 <= i < |done| ==> IsDigit(done[i])
    requires acc == NumberOf(done) <= LARGEST && NoDigit(s)
    ensures Digits(done + ds) && Gives(NumberFrom(acc, err, ds + s), NumberVal(done + ds), err, s)
    decreases |ds|
  {
    if ds == [] {
      assert ds + s == s && done + ds == done;
    } else {
      var more := done + [ds[0]];
      assert more[..|more| - 1] == done;
      assert (ds + s)[1..] == ds[1..] + s;
      assert done + ds == more + ds[1..];
      if NumberOf(more) <= LARGEST {
        NumberRead(ds[1..], NumberOf(more), more, err, s);
      } else {
        NumberGrows(more, ds[1..]);
      }
    }
  }

  lemma DigitsRead(ds: string, err: int, s: string)
    requires Digits(ds) && NoDigit(s)
    ensures Gives(FactorOf(ds + s, err), NumberVal(ds), err, s)
  {
    hide ExpressionOf;
    assert [ds[0]][..0] == [] && NumberOf([ds[0]]) == Digit(ds[0]);
    NumberRead(ds[1..], Digit(ds[0]), [ds[0]], err, s);
    assert (ds + s)[1..] == ds[1..] + s && [ds[0]] + ds[1..] == ds;
  }

  lemma MinusRead(ds: string, err: int, s: string)
    requires Digits(ds) && NoDigit(s)
    ensures Gives(FactorOf("-" + ds + s, err), Negated(NumberVal(ds)), err, s)
  {
    hide ExpressionOf, NumberFrom;
    DigitsRead(ds, err, s);
    assert ("-" + ds + s)[1..] == ds + s;
  }

  // ---- factors, terms and expressions ----

  lemma {:induction false} FactorRead(f: FactorTree, err: int, s: string)
    requires FactorWell(f) && FactorPlain(f) && NoDigit(s) && (f.Nothing? ==> PlusNext(s))
    ensures Gives(FactorOf(FactorText(f) + s, err), FactorVal(f), err, s)
    decreases f, 0
  {
    hide ExpressionOf, Text, NumberFrom, NumberOf, ExprLoop;
    match f
    case Num(ds) => DigitsRead(ds, err, s);
    case Minus(ds) => MinusRead(ds, err, s);
    case Paren(d) =>
      assert Well(d) && Plain(d) && !Open(d);
      ParenRead(d, err, s);
    case Nothing => assert FactorText(f) + s == s;
  }

  lemma ParenRead(d: ExprTree, err: int, s: string)
    requires Well(d) && Plain(d) && !Open(d)
    ensures Gives(FactorOf("(" + Text(d) + ")" + s, err), ValOf(d), err, s)
    decreases d, 3
  {
    hide ExpressionOf, Text, ExprLoop, Well, Plain, Open, ValOf;
    var more := ")" + s;
    assert more[0] == ')' && more[1..] == s && After(more);
    var r := ExprRead(d, err, more);
    assert ("(" + Text(d) + ")" + s)[1..] == Text(d) + more;
    if r.Parsed? {
      ExprEnds(r);
    }
  }

  lemma ExprEnds(r: Parsed)
    requires r.Parsed? && (r.rest == [] || !IsSign(r.rest[0]))
    ensures ExprOn(r) == r
  {}

  lemma TermEnds(r: Parsed)
    requires r.Parsed? && After(r.rest)
    ensures TermOn(r) == r
  {}

  lemma {:induction false} TermRead(t: TermTree, err: int, s: string) returns (r: Parsed)
    requires TermWell(t) && TermPlain(t) && NoDigit(s) && (TermOpen(t) ==> PlusNext(s))
    ensures TermOf(TermText(t) + s, err) == TermOn(r) && Gives(r, TermVal(t), err, s)
    decreases t, 1
  {
    hide FactorOf, FactorText, FactorVal, FactorPlain, FactorWell, TermLoop, Quotient, Remainder;
    match t
    case One(f) =>
      FactorRead(f, err, s);
      r := FactorOf(FactorText(f) + s, err);
    case Times(u, op, f) =>
      var more := [op] + FactorText(f) + s;
      var a := TermRead(u, err, more);
      assert TermText(t) + s == TermText(u) + more;
      assert more[1..] == FactorText(f) + s;
      r := a;
      if a.Parsed? {
        FactorRead(f, a.err, s);
        var b := FactorOf(FactorText(f) + s, a.err);
        LoopStep(a, op, b, FactorText(f) + s);
        r := b;
        if b.Parsed? {
          r := Apply(op, a.value, b.value, b.err, s);
          ApplyGives(a, TermVal(u), op, b, FactorVal(f), err, s, more);
        }
      }
  }

  lemma LoopStep(a: Parsed, op: char, b: Parsed, s: string)
    requires a.Parsed? && IsTermOp(op) && a.rest == [op] + s && b == FactorOf(s, a.err)
    ensures TermOn(a) == if b.Parsed? then TermOn(Apply(op, a.value, b.value, b.err, b.rest)) else b
  {
    hide FactorOf;
    assert a.rest[1..] == s;
  }

  lemma ApplyGives(a: Parsed, x: Val, op: char, b: Parsed, y: Val, err: int, s: string, more: string)
    requires IsTermOp(op) && a.Parsed? && b.Parsed? && Gives(a, x, err, more) && Gives(b, y, a.err, s)
    ensures Gives(Apply(op, a.value, b.value, b.err, s), Combine(x, op, y), err, s)
  {
    hide Quotient, Remainder;
  }

  lemma {:induction false} ExprRead(x: ExprTree, err: int, s: string) returns (r: Parsed)
    requires Well(x) && Plain(x) && After(s) && (Open(x) ==> PlusNext(s))
    ensures ExpressionOf(Text(x) + s, err) == ExprOn(r) && Gives(r, ValOf(x), err, s)
    decreases x, 2
  {
    hide TermOf, TermText, TermVal, TermPlain, TermWell, TermOpen, ExprLoop;
    match x
    case Just(t) =>
      r := TermRead(t, err, s);
      if r.Parsed? {
        TermEnds(r);
      }
    case Add(d, minus, t) =>
      var more := Sign(minus) + TermText(t) + s;
      var a := ExprRead(d, err, more);
      assert Text(x) + s == Text(d) + more;
      assert more[1..] == TermText(t) + s;
      r := a;
      if a.Parsed? {
        var b := TermRead(t, a.err, s);
        if b.Parsed? {
          TermEnds(b);
        }
        SumStep(a, minus, b, TermText(t) + s);
        r := b;
        if b.Parsed? {
          r := Sum(a.value, minus, b);
          SumGives(a, ValOf(d), minus, b, TermVal(t), err, s, more);
        }
      }
  }

  function Sum(a: int, minus: bool, b: Parsed): Parsed
    requires b.Parsed?
  {
    var v := if minus then a - b.value else a + b.value;
    if IsInt64(v) then Parsed(v, b.err, b.rest) else Undefined
  }

  lemma SumStep(a: Parsed, minus: bool, b: Parsed, s: string)
    requires a.Parsed? && a.rest == Sign(minus) + s && b == TermOf(s, a.err)
    ensures ExprOn(a) == if b.Parsed? then ExprOn(Sum(a.value, minus, b)) else b
  {
    hide TermOf;
    assert a.rest[1..] == s;
  }

  lemma SumGives(a: Parsed, x: Val, minus: bool, b: Parsed, y: Val, err: int, s: string, more: string)
    requires a.Parsed? && b.Parsed? && Gives(a, x, err, more) && Gives(b, y, a.err, s)
    ensures Gives(Sum(a.value, minus, b), Combine(x, if minus then '-' else '+', y), err, s)
  {}

  /** A division by zero at the end of an expression leaves -1, and a remainder -2. */
  lemma ZeroDivisor(u: TermTree, op: char, f: FactorTree)
    requires var t := Times(u, op, f); TermWell(t) && TermPlain(t) && !TermOpen(t)
    requires op != '*' && TermVal(u).Val? && FactorVal(f) == Val(0)
    ensures var r := ExpressionOf(TermText(Times(u, op, f)), 0);
            if TermVal(u).v == INT64_MIN && op == '/' then r == Undefined
            else r.Parsed? && r.err == (if op == '/' then -1 else -2) && r.rest == ""
  {
    hide FactorOf, FactorText, FactorVal, FactorPlain, FactorWell, TermLoop, ExprLoop, Quotient, Remainder;
    var more := [op] + FactorText(f) + "";
    var a := TermRead(u, 0, more);
    assert TermText(Times(u, op, f)) == TermText(u) + more;
    assert more[1..] == FactorText(f) + "";
    FactorRead(f, 0, "");
    var b := Parsed(0, 0, "");
    LoopStep(a, op, b, FactorText(f) + "");
    var r := Apply(op, a.value, 0, 0, "");
    if r.Parsed? {
      TermEnds(r);
      ExprEnds(r);
    }
  }

  /** expr_parse on the text of a plain expression. */
  lemma PlainRead(x: ExprTree)
    requires Well(x) && Plain(x) && !Open(x)
    ensures Gives(ExpressionOf(Text(x), 0), ValOf(x), 0, "")
  {
    hide Text, ValOf, ExpressionOf, ExprLoop;
    var r := ExprRead(x, 0, "");
    assert Text(x) + "" == Text(x);
    if r.Parsed? {
      ExprEnds(r);
    }
  }
}
