/** How the program reads the plus sign of a number: as the end of the term, and the start of
    another one. */
module ExprRegroup {
  import opened Arith
  import opened Common
  import opened ExprText
  import opened ExprTree
  import opened ExprPlain

  /** A term falls into the terms that its plus signs end, joined by plus, and a last one. */
  datatype Parts = Parts(pre: Option<ExprTree>, last: TermTree)

  function Join(pre: Option<ExprTree>, t: TermTree): ExprTree {
    if pre.None? then Just(t) else Add(pre.value, false, t)
  }

  function TermParts(t: TermTree): Parts {
    match t
    case One(f) => if f.Plus? then Parts(Some(Just(One(Nothing))), One(Num(f.digits))) else Parts(None, One(Inner(f)))
    case Times(u, op, f) =>
      var p := TermParts(u);
      if f.Plus? then Parts(Some(Join(p.pre, Times(p.last, op, Nothing))), One(Num(f.digits)))
      else Parts(p.pre, Times(p.last, op, Inner(f)))
  }

  function Inner(f: FactorTree): FactorTree {
    if f.Paren? then Paren(Regroup(f.e)) else f
  }

  /** The sum e behind a, with the sign in front of its first term. */
  function Append(a: ExprTree, minus: bool, e: ExprTree): ExprTree {
    match e
    case Just(t) => Add(a, minus, t)
    case Add(d, m, t) => Add(Append(a, minus, d), m, t)
  }

  /** The expression that the program reads in the text of x. */
  function Regroup(x: ExprTree): ExprTree {
    match x
    case Just(t) => Join(TermParts(t).pre, TermParts(t).last)
    case Add(d, minus, t) =>
      var p := TermParts(t);
      if p.pre.None? then Add(Regroup(d), minus, p.last)
      else Add(Append(Regroup(d), minus, p.pre.value), false, p.last)
  }

  // ---- it is plain, and has the same text ----

  ghost predicate IsParts(p: Parts, text: string) {
    && TermWell(p.last) && TermPlain(p.last) && !TermOpen(p.last)
    && (p.pre.Some? ==> Well(p.pre.value) && Plain(p.pre.value) && Open(p.pre.value))
    && text == (if p.pre.None? then "" else Text(p.pre.value) + "+") + TermText(p.last)
  }

  lemma {:induction false} PartsOf(t: TermTree)
    requires TermWell(t) && TermFull(t)
    ensures IsParts(TermParts(t), TermText(t))
    decreases t, 0
  {
    match t
    case One(f) =>
      if f.Plus? {
        assert "" + "+" + f.digits == "+" + f.digits;
      } else {
        InnerSame(f);
      }
    case Times(u, op, f) =>
      PartsOf(u);
      var p := TermParts(u);
      if f.Plus? {
        BrokenOff(p, op, TermText(u));
        assert TermText(t) == TermText(u) + [op] + "+" + f.digits;
      } else {
        InnerSame(f);
      }
  }

  /** A term that ends at a plus sign behind an operator. */
  lemma BrokenOff(p: Parts, op: char, text: string)
    requires IsParts(p, text) && IsTermOp(op)
    ensures var e := Join(p.pre, Times(p.last, op, Nothing));
            Well(e) && Plain(e) && Open(e) && Text(e) == text + [op]
  {
    var t := Times(p.last, op, Nothing);
    assert TermText(t) == TermText(p.last) + [op] + "";
    assert TermWell(t) && TermPlain(t) && TermOpen(t);
    if p.pre.Some? {
      assert text + [op] == Text(p.pre.value) + "+" + TermText(t);
    } else {
      assert text + [op] == "" + TermText(p.last) + [op] == TermText(t);
    }
  }

  lemma {:induction false} InnerSame(f: FactorTree)
    requires FactorWell(f) && FactorFull(f) && !f.Plus?
    ensures FactorWell(Inner(f)) && FactorPlain(Inner(f)) && !Inner(f).Nothing? && FactorText(Inner(f)) == FactorText(f)
    decreases f, 2
  {
    if f.Paren? {
      RegroupSame(f.e);
    }
  }

  lemma {:induction false} AppendSame(a: ExprTree, minus: bool, e: ExprTree)
    requires Well(a) && Plain(a) && !Open(a) && Well(e) && Plain(e)
    ensures var r := Append(a, minus, e);
            Well(r) && Plain(r) && Open(r) == Open(e) && Text(r) == Text(a) + Sign(minus) + Text(e)
    decreases e
  {
    if e.Add? {
      AppendSame(a, minus, e.e);
    }
  }

  lemma {:induction false} RegroupSame(x: ExprTree)
    requires Well(x) && Full(x)
    ensures Well(Regroup(x)) && Plain(Regroup(x)) && !Open(Regroup(x)) && Text(Regroup(x)) == Text(x)
    decreases x, 1
  {
    hide TermWell, TermPlain, TermOpen, TermText, TermFull, TermParts;
    match x
    case Just(t) => PartsOf(t);
    case Add(d, minus, t) =>
      PartsOf(t);
      RegroupSame(d);
      var p := TermParts(t);
      if p.pre.Some? {
        AppendSame(Regroup(d), minus, p.pre.value);
      }
  }

  /** What expr_parse makes of any expression of the grammar: the value of the regrouped one. */
  lemma ReadsRegrouped(x: ExprTree)
    requires Well(x) && Full(x)
    ensures Well(Regroup(x)) && Gives(ExpressionOf(Text(x), 0), ValOf(Regroup(x)), 0, "")
  {
    hide Text, ExpressionOf, ValOf;
    RegroupSame(x);
    PlainRead(Regroup(x));
  }

  // ---- where a plus sign does no harm ----

  predicate FactorFine(f: FactorTree) {
    match f
    case Plus(_) => false
    case Paren(e) => Fine(e)
    case _ => true
  }

  /** The term starts with a number that has a plus sign. */
  predicate Leads(t: TermTree) {
    match t
    case One(f) => f.Plus?
    case Times(u, _, _) => Leads(u)
  }

  predicate TermFine(t: TermTree) {
    match t
    case One(f) => f.Plus? || FactorFine(f)
    case Times(u, _, f) => TermFine(u) && FactorFine(f)
  }

  /** A plus sign of a number stands at the start of an expression or behind a plus. */
  predicate Fine(e: ExprTree) {
    match e
    case Just(t) => TermFine(t)
    case Add(d, minus, t) => Fine(d) && TermFine(t) && (minus ==> !Leads(t))
  }

  lemma {:induction false} FactorInt64(f: FactorTree)
    requires FactorWell(f) && FactorVal(f).Val?
    ensures IsInt64(FactorVal(f).v)
    decreases f, 0
  {
    if f.Paren? {
      ExprInt64(f.e);
    }
  }

  lemma {:induction false} TermInt64(t: TermTree)
    requires TermWell(t) && TermVal(t).Val?
    ensures IsInt64(TermVal(t).v)
    decreases t, 1
  {
    match t
    case One(f) => FactorInt64(f);
    case Times(u, op, f) =>
      TermInt64(u);
      FactorInt64(f);
      DivisionInt64(TermVal(u).v, FactorVal(f).v);
  }

  lemma {:induction false} ExprInt64(e: ExprTree)
    requires Well(e) && ValOf(e).Val?
    ensures IsInt64(ValOf(e).v)
    decreases e, 2
  {
    if e.Just? {
      TermInt64(e.t);
    }
  }

  lemma DivisionInt64(a: int, b: int)
    requires IsInt64(a) && IsInt64(b)
    ensures b != 0 && !(a == INT64_MIN && b == -1) ==> IsInt64(Quotient(a, b)) && IsInt64(Remainder(a, b))
  {
    if b != 0 {
      TruncatedDivision(a, b);
      QuotientSmaller(Abs(a), Abs(b));
    }
  }

  lemma QuotientSmaller(x: nat, y: nat)
    requires y > 0
    ensures x / y <= x && (y > 1 && x > 0 ==> x / y < x)
  {
    var q := x / y;
    assert x == y * q + x % y;
    assert q * (y - 1) == y * q - q;
    FarMultiple(q, y - 1);
  }

  /** A plus sign that stands where it may changes nothing. */
  lemma {:induction false} FineTerm(t: TermTree)
    requires TermWell(t) && TermFull(t) && TermFine(t)
    ensures var p := TermParts(t);
            && p.pre == (if Leads(t) then Some(Just(One(Nothing))) else None)
            && TermWell(p.last) && TermVal(p.last) == TermVal(t)
    decreases t, 0
  {
    match t
    case One(f) =>
      if !f.Plus? {
        FineInner(f);
      }
    case Times(u, op, f) =>
      FineTerm(u);
      FineInner(f);
  }

  lemma {:induction false} FineInner(f: FactorTree)
    requires FactorWell(f) && FactorFull(f) && FactorFine(f)
    ensures FactorWell(Inner(f)) && FactorVal(Inner(f)) == FactorVal(f)
    decreases f, 2
  {
    if f.Paren? {
      FineSame(f.e);
    }
  }

  lemma {:induction false} FineSame(x: ExprTree)
    requires Well(x) && Full(x) && Fine(x)
    ensures Well(Regroup(x)) && ValOf(Regroup(x)) == ValOf(x)
    decreases x, 1
  {
    hide TermVal, TermWell, TermFull, TermFine, TermParts, Leads;
    NothingIsZero();
    match x
    case Just(t) =>
      FineTerm(t);
      ZeroFirst(TermVal(t), t);
    case Add(d, minus, t) =>
      FineSame(d);
      FineTerm(t);
      ZeroBehind(ValOf(Regroup(d)), Regroup(d));
  }

  lemma NothingIsZero()
    ensures TermWell(One(Nothing)) && TermVal(One(Nothing)) == Val(0)
  {}

  lemma ZeroFirst(m: Val, t: TermTree)
    requires TermWell(t) && m == TermVal(t)
    ensures Combine(Val(0), '+', m) == m
  {
    if m.Val? {
      TermInt64(t);
    }
  }

  lemma ZeroBehind(m: Val, e: ExprTree)
    requires Well(e) && m == ValOf(e)
    ensures Combine(m, '+', Val(0)) == m
  {
    if m.Val? {
      ExprInt64(e);
    }
  }

  /** expr_parse gives the value of a fine expression, an error or nothing defined when something is
      divided by zero, and is undefined when a result is no int64. */
  lemma ParseMeans(x: ExprTree)
    requires Well(x) && Full(x) && Fine(x)
    ensures Gives(ExpressionOf(Text(x), 0), ValOf(x), 0, "")
  {
    hide Text, ExpressionOf, ValOf, Regroup;
    ReadsRegrouped(x);
    FineSame(x);
  }
}
