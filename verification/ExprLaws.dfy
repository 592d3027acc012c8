/** What the evaluator computes for the operators, in terms of the numbers in the text. */
module ExprLaws {
  import opened Arith
  import opened ExprText
  import opened ExprTree
  import opened ExprPlain
  import opened ExprRegroup

  /** Digits of a number that can be read. */
  predicate IsNumber(ds: string) {
    Digits(ds) && NumberOf(ds) <= 9223372036854775759
  }

  function Signed(neg: bool, ds: string): string {
    if neg then "-" + ds else ds
  }

  function Worth(neg: bool, ds: string): int
    requires Digits(ds)
  {
    if neg then 0 - NumberOf(ds) else NumberOf(ds)
  }

  /** The outcome of a run that reads all of a text with the result v. */
  function Outcome(v: int): Parsed {
    if -9223372036854775808 <= v <= 9223372036854775807 then Parsed(v, 0, "") else Undefined
  }

  // ---- the trees of such texts ----

  function Number(neg: bool, ds: string): FactorTree {
    if neg then Minus(ds) else Num(ds)
  }

  /** What is needed of a factor. */
  ghost predicate IsFactor(f: FactorTree, text: string, m: Val) {
    && FactorWell(f) && FactorFull(f) && FactorFine(f) && FactorPlain(f) && !f.Plus? && !f.Nothing?
    && FactorText(f) == text && FactorVal(f) == m
  }

  ghost predicate IsTerm(t: TermTree, text: string, m: Val) {
    && TermWell(t) && TermFull(t) && TermFine(t) && TermPlain(t) && !Leads(t) && !TermOpen(t)
    && TermText(t) == text && TermVal(t) == m
  }

  lemma NumberIs(neg: bool, ds: string)
    requires IsNumber(ds)
    ensures IsFactor(Number(neg, ds), Signed(neg, ds), Val(Worth(neg, ds)))
    ensures IsTerm(One(Number(neg, ds)), Signed(neg, ds), Val(Worth(neg, ds)))
  {
    hide NumberOf;
    var f := Number(neg, ds);
    assert TermVal(One(f)) == FactorVal(f) && TermText(One(f)) == FactorText(f);
  }

  lemma TimesIs(t: TermTree, a: string, m: Val, op: char, f: FactorTree, b: string, n: Val)
    requires IsTerm(t, a, m) && IsTermOp(op) && IsFactor(f, b, n)
    ensures IsTerm(Times(t, op, f), a + [op] + b, Combine(m, op, n))
  {
    hide Combine;
  }

  ghost predicate IsExpr(x: ExprTree, text: string, m: Val) {
    Well(x) && Full(x) && Fine(x) && Plain(x) && !Open(x) && Text(x) == text && ValOf(x) == m
  }

  lemma JustIs(t: TermTree, a: string, m: Val)
    requires IsTerm(t, a, m)
    ensures IsExpr(Just(t), a, m)
  {}

  lemma AddIs(d: ExprTree, a: string, m: Val, minus: bool, t: TermTree, b: string, n: Val)
    requires IsExpr(d, a, m) && IsTerm(t, b, n)
    ensures IsExpr(Add(d, minus, t), a + (if minus then "-" else "+") + b, Combine(m, if minus then '-' else '+', n))
  {
    hide Combine;
  }

  lemma ParenIs(x: ExprTree, a: string, m: Val)
    requires IsExpr(x, a, m)
    ensures IsFactor(Paren(x), "(" + a + ")", m) && IsTerm(One(Paren(x)), "(" + a + ")", m)
  {
    assert TermVal(One(Paren(x))) == FactorVal(Paren(x)) && TermText(One(Paren(x))) == FactorText(Paren(x));
  }

  lemma ExprReads(x: ExprTree, a: string, m: Val)
    requires IsExpr(x, a, m)
    ensures Gives(ExpressionOf(a, 0), m, 0, "")
  {
    hide ExpressionOf, Text, ValOf;
    ParseMeans(x);
  }

  lemma TermReads(t: TermTree, a: string, m: Val)
    requires IsTerm(t, a, m)
    ensures Gives(ExpressionOf(a, 0), m, 0, "")
  {
    hide ExpressionOf, IsTerm, IsExpr;
    JustIs(t, a, m);
    ExprReads(Just(t), a, m);
  }

  lemma SumReads(t: TermTree, a: string, m: Val, minus: bool, u: TermTree, b: string, n: Val)
    requires IsTerm(t, a, m) && IsTerm(u, b, n)
    ensures Gives(ExpressionOf(a + (if minus then "-" else "+") + b, 0), Combine(m, if minus then '-' else '+', n), 0, "")
  {
    hide ExpressionOf, Combine, IsTerm, IsExpr;
    JustIs(t, a, m);
    AddIs(Just(t), a, m, minus, u, b, n);
    ExprReads(Add(Just(t), minus, u), a + (if minus then "-" else "+") + b, Combine(m, if minus then '-' else '+', n));
  }

  // ---- one operator ----

  /** Sums, differences and products of any two numbers. */
  lemma RingLaws(na: bool, a: string, nb: bool, b: string)
    requires IsNumber(a) && IsNumber(b)
    ensures var x, y := Worth(na, a), Worth(nb, b);
            && ExpressionOf(Signed(na, a) + "+" + Signed(nb, b), 0) == Outcome(x + y)
            && ExpressionOf(Signed(na, a) + "-" + Signed(nb, b), 0) == Outcome(x - y)
            && ExpressionOf(Signed(na, a) + "*" + Signed(nb, b), 0) == Outcome(x * y)
  {
    hide ExpressionOf, IsTerm, IsFactor, Worth, Signed;
    NumberIs(na, a);
    NumberIs(nb, b);
    var t, u, s, r, m, n := One(Number(na, a)), One(Number(nb, b)), Signed(na, a), Signed(nb, b),
      Val(Worth(na, a)), Val(Worth(nb, b));
    SumReads(t, s, m, false, u, r, n);
    SumReads(t, s, m, true, u, r, n);
    TimesIs(t, s, m, '*', Number(nb, b), r, n);
    TermReads(Times(t, '*', Number(nb, b)), s + ['*'] + r, Combine(m, '*', n));
    assert s + ['*'] + r == s + "*" + r;
  }

  /** `/` gives the quotient towards zero and `%` what is left, with the sign of the dividend. */
  lemma DivisionLaws(na: bool, a: string, nb: bool, b: string) returns (q: int, r: int)
    requires IsNumber(a) && IsNumber(b) && NumberOf(b) > 0
    ensures ExpressionOf(Signed(na, a) + "/" + Signed(nb, b), 0) == Parsed(q, 0, "")
    ensures ExpressionOf(Signed(na, a) + "%" + Signed(nb, b), 0) == Parsed(r, 0, "")
    ensures Worth(na, a) == Worth(nb, b) * q + r
    ensures 0 - NumberOf(b) < r < NumberOf(b)
    ensures r == 0 || (r < 0) == (Worth(na, a) < 0)
  {
    hide ExpressionOf, IsTerm, IsFactor, Signed, Quotient, Remainder, NumberOf;
    NumberIs(na, a);
    NumberIs(nb, b);
    var t, f, s, p, m, n := One(Number(na, a)), Number(nb, b), Signed(na, a), Signed(nb, b),
      Val(Worth(na, a)), Val(Worth(nb, b));
    TimesIs(t, s, m, '/', f, p, n);
    TermReads(Times(t, '/', f), s + ['/'] + p, Combine(m, '/', n));
    TimesIs(t, s, m, '%', f, p, n);
    TermReads(Times(t, '%', f), s + ['%'] + p, Combine(m, '%', n));
    assert s + ['/'] + p == s + "/" + p && s + ['%'] + p == s + "%" + p;
    TruncatedDivision(m.v, n.v);
    q, r := Quotient(m.v, n.v), Remainder(m.v, n.v);
  }

  /** Without signs they are the quotient and the remainder of natural numbers. */
  lemma PlainDivision(a: string, b: string)
    requires IsNumber(a) && IsNumber(b) && NumberOf(b) > 0
    ensures ExpressionOf(a + "/" + b, 0) == Parsed(NumberOf(a) / NumberOf(b), 0, "")
    ensures ExpressionOf(a + "%" + b, 0) == Parsed(NumberOf(a) % NumberOf(b), 0, "")
  {
    hide ExpressionOf, NumberOf;
    var q, r := DivisionLaws(false, a, false, b);
    OneQuotient(NumberOf(a), NumberOf(b), q, r);
  }

  lemma OneQuotient(a: nat, b: nat, q: int, r: int)
    requires b > 0 && a == b * q + r && 0 - b < r < b && (r == 0 || (r < 0) == (a < 0))
    ensures q == a / b && r == a % b
  {
    if q < 0 {
      FarMultiple(b, q);
    }
    Divided(a, b, q, r);
  }

  /** A divisor of zero is reported as such: -1 for `/` and -2 for `%`. */
  lemma ZeroLaws(na: bool, a: string, nb: bool, b: string)
    requires IsNumber(a) && IsNumber(b) && NumberOf(b) == 0
    ensures var r := ExpressionOf(Signed(na, a) + "/" + Signed(nb, b), 0); r.Parsed? && r.err == -1 && r.rest == ""
    ensures var r := ExpressionOf(Signed(na, a) + "%" + Signed(nb, b), 0); r.Parsed? && r.err == -2 && r.rest == ""
  {
    hide ExpressionOf, Signed, NumberOf, Combine;
    NumberIs(na, a);
    NumberIs(nb, b);
    var t, f, s, p, m := One(Number(na, a)), Number(nb, b), Signed(na, a), Signed(nb, b), Val(Worth(na, a));
    TimesIs(t, s, m, '/', f, p, Val(0));
    ZeroDivisor(t, '/', f);
    TimesIs(t, s, m, '%', f, p, Val(0));
    ZeroDivisor(t, '%', f);
    assert s + ['/'] + p == s + "/" + p && s + ['%'] + p == s + "%" + p;
  }

  // ---- two operators ----

  /** What the program gives for a value within int64, and beyond. */
  lemma OutcomeOf(r: Parsed, m: Val, v: int)
    requires Gives(r, m, 0, "") && m == (if IsInt64(v) then Val(v) else Beyond)
    ensures r == Outcome(v)
  {}

  /** A product before a sum, on either side. */
  lemma ProductsFirst(a: string, b: string, c: string)
    requires IsNumber(a) && IsNumber(b) && IsNumber(c)
    ensures var x, y, z := NumberOf(a), NumberOf(b), NumberOf(c);
            && (y * z <= 9223372036854775807 ==> ExpressionOf(a + "+" + (b + "*" + c), 0) == Outcome(x + y * z))
            && (x * y <= 9223372036854775807 ==> ExpressionOf(a + "*" + b + "-" + c, 0) == Outcome(x * y - z))
  {
    hide ExpressionOf, NumberOf, Outcome;
    SumThenProduct(a, b, c);
    ProductThenSum(a, b, c);
  }

  lemma SumThenProduct(a: string, b: string, c: string)
    requires IsNumber(a) && IsNumber(b) && IsNumber(c)
    ensures NumberOf(b) * NumberOf(c) <= 9223372036854775807 ==>
              ExpressionOf(a + "+" + (b + "*" + c), 0) == Outcome(NumberOf(a) + NumberOf(b) * NumberOf(c))
  {
    hide ExpressionOf, IsTerm, IsFactor, NumberOf, Outcome, Gives;
    NumberIs(false, a);
    NumberIs(false, b);
    NumberIs(false, c);
    var m, n, k := Val(NumberOf(a)), Val(NumberOf(b)), Val(NumberOf(c));
    TimesIs(One(Num(b)), b, n, '*', Num(c), c, k);
    assert b + ['*'] + c == b + "*" + c;
    SumReads(One(Num(a)), a, m, false, Times(One(Num(b)), '*', Num(c)), b + "*" + c, Combine(n, '*', k));
    if n.v * k.v <= 9223372036854775807 {
      SumOfProduct(m, n, k);
      OutcomeOf(ExpressionOf(a + "+" + (b + "*" + c), 0), Combine(m, '+', Combine(n, '*', k)), m.v + n.v * k.v);
    }
  }

  lemma SumOfProduct(m: Val, n: Val, k: Val)
    requires m.Val? && n.Val? && k.Val? && m.v >= 0 && n.v >= 0 && k.v >= 0 && n.v * k.v <= INT64_MAX
    ensures Combine(m, '+', Combine(n, '*', k)) == if IsInt64(m.v + n.v * k.v) then Val(m.v + n.v * k.v) else Beyond
    ensures Combine(Combine(n, '*', k), '-', m) == if IsInt64(n.v * k.v - m.v) then Val(n.v * k.v - m.v) else Beyond
  {
    assert n.v * k.v >= 0;
  }

  lemma ProductThenSum(a: string, b: string, c: string)
    requires IsNumber(a) && IsNumber(b) && IsNumber(c)
    ensures NumberOf(a) * NumberOf(b) <= 9223372036854775807 ==>
              ExpressionOf(a + "*" + b + "-" + c, 0) == Outcome(NumberOf(a) * NumberOf(b) - NumberOf(c))
  {
    hide ExpressionOf, IsTerm, IsFactor, NumberOf, Outcome, Gives;
    NumberIs(false, a);
    NumberIs(false, b);
    NumberIs(false, c);
    var m, n, k := Val(NumberOf(a)), Val(NumberOf(b)), Val(NumberOf(c));
    TimesIs(One(Num(a)), a, m, '*', Num(b), b, n);
    assert a + ['*'] + b == a + "*" + b;
    SumReads(Times(One(Num(a)), '*', Num(b)), a + "*" + b, Combine(m, '*', n), true, One(Num(c)), c, k);
    if m.v * n.v <= 9223372036854775807 {
      SumOfProduct(k, m, n);
      OutcomeOf(ExpressionOf(a + "*" + b + "-" + c, 0), Combine(Combine(m, '*', n), '-', k), m.v * n.v - k.v);
    }
  }

  /** Operators of the same rank from the left. */
  lemma FromTheLeft(a: string, b: string, c: string)
    requires IsNumber(a) && IsNumber(b) && IsNumber(c)
    ensures var x, y, z := NumberOf(a), NumberOf(b), NumberOf(c);
            && ExpressionOf(a + "-" + b + "-" + c, 0) == Outcome(x - y - z)
            && (y > 0 ==> ExpressionOf(a + "/" + b + "*" + c, 0) == Outcome(x / y * z))
            && (y > 0 ==> ExpressionOf(a + "%" + b + "*" + c, 0) == Outcome(x % y * z))
  {
    hide ExpressionOf, IsTerm, IsFactor, IsExpr, NumberOf, Quotient, Remainder;
    NumberIs(false, a);
    NumberIs(false, b);
    NumberIs(false, c);
    var t, u, v, m, n, k := One(Num(a)), One(Num(b)), One(Num(c)), Val(NumberOf(a)), Val(NumberOf(b)), Val(NumberOf(c));
    JustIs(t, a, m);
    AddIs(Just(t), a, m, true, u, b, n);
    AddIs(Add(Just(t), true, u), a + "-" + b, Combine(m, '-', n), true, v, c, k);
    ExprReads(Add(Add(Just(t), true, u), true, v), a + "-" + b + "-" + c, Combine(Combine(m, '-', n), '-', k));
    if n.v > 0 {
      TruncatedDivision(m.v, n.v);
      OneQuotient(m.v, n.v, Quotient(m.v, n.v), Remainder(m.v, n.v));
      ThenTimes(t, a, m, '/', b, n, c, k);
      ThenTimes(t, a, m, '%', b, n, c, k);
      assert a + ['/'] + b + ['*'] + c == a + "/" + b + "*" + c && a + ['%'] + b + ['*'] + c == a + "%" + b + "*" + c;
    }
  }

  lemma ThenTimes(t: TermTree, a: string, m: Val, op: char, b: string, n: Val, c: string, k: Val)
    requires IsTerm(t, a, m) && IsTermOp(op) && IsFactor(Num(b), b, n) && IsFactor(Num(c), c, k)
    ensures Gives(ExpressionOf(a + [op] + b + ['*'] + c, 0), Combine(Combine(m, op, n), '*', k), 0, "")
  {
    hide ExpressionOf, IsTerm, IsFactor, Combine;
    TimesIs(t, a, m, op, Num(b), b, n);
    TimesIs(Times(t, op, Num(b)), a + [op] + b, Combine(m, op, n), '*', Num(c), c, k);
    TermReads(Times(Times(t, op, Num(b)), '*', Num(c)), a + [op] + b + ['*'] + c, Combine(Combine(m, op, n), '*', k));
  }

  /** Brackets before all. */
  lemma BracketsFirst(a: string, b: string, c: string)
    requires IsNumber(a) && IsNumber(b) && IsNumber(c)
    ensures var x, y, z := NumberOf(a), NumberOf(b), NumberOf(c);
            ExpressionOf("(" + (a + "-" + b) + ")" + "*" + c, 0) == Outcome((x - y) * z)
  {
    hide ExpressionOf, IsTerm, IsFactor, IsExpr, NumberOf;
    NumberIs(false, a);
    NumberIs(false, b);
    NumberIs(false, c);
    var m, n, k := Val(NumberOf(a)), Val(NumberOf(b)), Val(NumberOf(c));
    JustIs(One(Num(a)), a, m);
    var x := Add(Just(One(Num(a))), true, One(Num(b)));
    AddIs(Just(One(Num(a))), a, m, true, One(Num(b)), b, n);
    ParenIs(x, a + "-" + b, Combine(m, '-', n));
    var text := "(" + (a + "-" + b) + ")";
    TimesIs(One(Paren(x)), text, Combine(m, '-', n), '*', Num(c), c, k);
    TermReads(Times(One(Paren(x)), '*', Num(c)), text + ['*'] + c, Combine(Combine(m, '-', n), '*', k));
    assert text + ['*'] + c == text + "*" + c;
  }
}
