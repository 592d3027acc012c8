/** The value that the program computes for an expression, part by part. */
module ExprCode {
  import opened Common
  import opened ExprText
  import opened ExprTree
  import opened ExprRegroup

  /** A failure of any kind counts as one. */
  function Failing(m: Val): Val {
    if m.Val? then m else ByZero
  }

  function CodeFactor(f: FactorTree): Val
    requires FactorWell(f) && FactorFull(f)
  {
    if f.Plus? then Failing(NumberVal(f.digits))
    else
      InnerSame(f);
      Failing(FactorVal(Inner(f)))
  }

  function CodeTerm(t: TermTree): Val
    requires TermWell(t) && TermFull(t)
  {
    PartsOf(t);
    var p := TermParts(t);
    if p.pre.Some? && !ValOf(p.pre.value).Val? then ByZero else Failing(TermVal(p.last))
  }

  function CodeExpr(x: ExprTree): Val
    requires Well(x) && Full(x)
  {
    RegroupSame(x);
    Failing(ValOf(Regroup(x)))
  }

  /** A sum of terms each of which is 0 or fails. */
  predicate Zeros(e: ExprTree)
    requires Well(e)
  {
    match e
    case Just(t) => TermVal(t).Val? ==> TermVal(t) == Val(0)
    case Add(d, minus, t) => !minus && Zeros(d) && (TermVal(t).Val? ==> TermVal(t) == Val(0))
  }

  lemma {:induction false} ZerosMeans(e: ExprTree)
    requires Well(e) && Zeros(e)
    ensures ValOf(e).Val? ==> ValOf(e) == Val(0)
  {
    if e.Add? {
      ZerosMeans(e.e);
    }
  }

  /** What a plus sign breaks off is 0 or fails. */
  lemma {:induction false} PartsZero(t: TermTree)
    requires TermWell(t) && TermFull(t)
    ensures var p := TermParts(t); p.pre.Some? ==> Well(p.pre.value) && Zeros(p.pre.value)
    decreases t
  {
    match t
    case One(f) =>
    case Times(u, op, f) =>
      PartsZero(u);
      PartsOf(u);
      var p := TermParts(u);
      if f.Plus? {
        BrokenOff(p, op, TermText(u));
        assert TermWell(Times(p.last, op, Nothing));
        ZeroTerm(TermVal(p.last), op);
      }
  }

  lemma ZeroTerm(m: Val, op: char)
    requires IsTermOp(op)
    ensures Combine(m, op, Val(0)).Val? ==> op == '*' && Combine(m, op, Val(0)) == Val(0)
    ensures op == '*' && m.Val? ==> Combine(m, op, Val(0)) == Val(0)
    ensures !m.Val? ==> !Combine(m, op, Val(0)).Val?
  {}

  lemma CodeOne(f: FactorTree)
    requires FactorWell(f) && FactorFull(f)
    ensures CodeTerm(One(f)) == CodeFactor(f)
  {
    if f.Plus? {
      NothingIsZero();
      assert ValOf(Just(One(Nothing))) == TermVal(One(Nothing));
      assert TermVal(One(Num(f.digits))) == FactorVal(Num(f.digits)) == NumberVal(f.digits);
    }
  }

  /** An operator works on the last part of the term. */
  lemma CodeTimes(u: TermTree, op: char, f: FactorTree)
    requires TermWell(u) && TermFull(u) && IsTermOp(op) && FactorWell(f) && FactorFull(f) && !f.Plus?
    ensures CodeTerm(Times(u, op, f)) == Failing(Combine(CodeTerm(u), op, CodeFactor(f)))
  {
    hide TermVal, FactorVal, Inner, Quotient, Remainder;
    PartsOf(u);
    PartsOf(Times(u, op, f));
    InnerSame(f);
    TimesVal(TermParts(u).last, op, Inner(f));
  }

  lemma TimesVal(u: TermTree, op: char, f: FactorTree)
    requires TermWell(u) && IsTermOp(op) && FactorWell(f)
    ensures TermWell(Times(u, op, f)) && TermVal(Times(u, op, f)) == Combine(TermVal(u), op, FactorVal(f))
  {}

  /** At a plus sign the term so far is multiplied by 0, or divided by 0, and the number is all that
      is left. */
  lemma CodePlus(u: TermTree, op: char, f: FactorTree)
    requires TermWell(u) && TermFull(u) && IsTermOp(op) && f.Plus? && FactorWell(f)
    ensures CodeTerm(Times(u, op, f)) == if op == '*' && CodeTerm(u).Val? then CodeFactor(f) else ByZero
  {
    hide NumberVal, Quotient, Remainder;
    PartsOf(u);
    PartsZero(u);
    var p := TermParts(u);
    BrokenOff(p, op, TermText(u));
    var t := Times(p.last, op, Nothing);
    TimesVal(p.last, op, Nothing);
    ZeroTerm(TermVal(p.last), op);
    JoinVal(p.pre, t);
    assert TermVal(One(Num(f.digits))) == NumberVal(f.digits);
  }

  lemma JoinVal(pre: Option<ExprTree>, t: TermTree)
    requires TermWell(t) && (pre.Some? ==> Well(pre.value) && Zeros(pre.value))
    ensures Well(Join(pre, t))
    ensures Failing(ValOf(Join(pre, t))) == if pre.Some? && !ValOf(pre.value).Val? then ByZero else Failing(TermVal(t))
  {
    if pre.Some? {
      ZerosMeans(pre.value);
      ZeroFirst(TermVal(t), t);
    }
  }

  lemma CodeJust(t: TermTree)
    requires TermWell(t) && TermFull(t)
    ensures CodeExpr(Just(t)) == CodeTerm(t)
  {
    hide TermParts;
    PartsOf(t);
    PartsZero(t);
    JoinVal(TermParts(t).pre, TermParts(t).last);
  }

  /** Zeros in the middle of a sum change nothing, unless they fail. */
  lemma {:induction false} AppendZeros(a: ExprTree, minus: bool, e: ExprTree)
    requires Well(a) && Well(e) && Zeros(e)
    ensures Well(Append(a, minus, e))
    ensures Failing(ValOf(Append(a, minus, e))) == if ValOf(e).Val? then Failing(ValOf(a)) else ByZero
    decreases e
  {
    match e
    case Just(t) => ZeroEither(ValOf(a), a, minus, TermVal(t));
    case Add(d, m, t) =>
      AppendZeros(a, minus, d);
      ZerosMeans(d);
      ZeroEither(ValOf(Append(a, minus, d)), Append(a, minus, d), false, TermVal(t));
      ZeroEither(ValOf(d), d, false, TermVal(t));
  }

  lemma ZeroEither(m: Val, e: ExprTree, minus: bool, z: Val)
    requires Well(e) && m == ValOf(e) && (z.Val? ==> z == Val(0))
    ensures Failing(Combine(m, if minus then '-' else '+', z)) == if z.Val? then Failing(m) else ByZero
  {
    if m.Val? {
      ExprInt64(e);
    }
  }

  /** The sign of a term is lost when a plus sign breaks it. */
  lemma CodeAdd(d: ExprTree, minus: bool, t: TermTree)
    requires Well(d) && Full(d) && TermWell(t) && TermFull(t)
    ensures CodeExpr(Add(d, minus, t)) ==
            Failing(Combine(CodeExpr(d), if minus && TermParts(t).pre.None? then '-' else '+', CodeTerm(t)))
  {
    hide TermParts, TermVal, TermWell, TermFull;
    PartsOf(t);
    PartsZero(t);
    RegroupSame(d);
    RegroupSame(Add(d, minus, t));
    var p := TermParts(t);
    if p.pre.Some? {
      AppendZeros(Regroup(d), minus, p.pre.value);
    }
  }

  /** For a fine expression it is the value. */
  lemma FineCode(x: ExprTree)
    requires Well(x) && Full(x) && Fine(x)
    ensures CodeExpr(x) == Failing(ValOf(x))
  {
    hide ValOf, Regroup;
    FineSame(x);
  }

  lemma FineTermCode(t: TermTree)
    requires TermWell(t) && TermFull(t) && TermFine(t)
    ensures CodeTerm(t) == Failing(TermVal(t))
    ensures Leads(t) <==> TermParts(t).pre.Some?
  {
    hide TermVal, TermParts;
    FineTerm(t);
    NothingIsZero();
    PartsOf(t);
  }
}
