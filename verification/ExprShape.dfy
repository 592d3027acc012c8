/** Exactly which expressions are read right with all numbers: the fine ones. */
module ExprShape {
  import opened Arith
  import opened ExprText
  import opened ExprTree
  import opened ExprPlain
  import opened ExprRegroup
  import opened ExprCode

  /** The size of the buffer that an expression is copied to. */
  const EXPR_MAX_SIZE: nat := 512

  // ---- the same expression with other numbers ----

  predicate SameFactor(f: FactorTree, g: FactorTree) {
    match f
    case Num(_) => g.Num?
    case Plus(_) => g.Plus?
    case Minus(_) => g.Minus?
    case Paren(e) => g.Paren? && SameShape(e, g.e)
    case Nothing => g.Nothing?
  }

  predicate SameTerm(t: TermTree, u: TermTree) {
    match t
    case One(f) => u.One? && SameFactor(f, u.f)
    case Times(v, op, f) => u.Times? && SameTerm(v, u.t) && u.op == op && SameFactor(f, u.f)
  }

  predicate SameShape(x: ExprTree, y: ExprTree) {
    match x
    case Just(t) => y.Just? && SameTerm(t, y.t)
    case Add(d, minus, t) => y.Add? && SameShape(d, y.e) && y.minus == minus && SameTerm(t, y.t)
  }

  lemma {:induction false} SameFactorFine(f: FactorTree, g: FactorTree)
    requires SameFactor(f, g)
    ensures (FactorFull(f) ==> FactorFull(g)) && (FactorFine(f) ==> FactorFine(g))
    decreases f, 0
  {
    if f.Paren? {
      SameFine(f.e, g.e);
    }
  }

  lemma {:induction false} SameTermFine(t: TermTree, u: TermTree)
    requires SameTerm(t, u)
    ensures (TermFull(t) ==> TermFull(u)) && (TermFine(t) ==> TermFine(u)) && Leads(t) == Leads(u)
    decreases t, 1
  {
    match t
    case One(f) => SameFactorFine(f, u.f);
    case Times(v, _, f) =>
      SameTermFine(v, u.t);
      SameFactorFine(f, u.f);
  }

  lemma {:induction false} SameFine(x: ExprTree, y: ExprTree)
    requires SameShape(x, y)
    ensures (Full(x) ==> Full(y)) && (Fine(x) ==> Fine(y))
    decreases x, 2
  {
    SameTermFine(x.t, y.t);
    if x.Add? {
      SameFine(x.e, y.e);
    }
  }

  // ---- numbers ----

  function Decimal(n: nat): (ds: string)
    ensures Digits(ds)
  {
    (if n < 10 then "" else Decimal(n / 10)) + [((n % 10) as char) + '0']
  }

  lemma {:induction false} DecimalMeans(n: nat)
    ensures NumberOf(Decimal(n)) == n
  {
    var ds := Decimal(n);
    if n >= 10 {
      DecimalMeans(n / 10);
      assert ds[..|ds| - 1] == Decimal(n / 10);
    } else {
      assert ds[..|ds| - 1] == "";
    }
  }

  lemma DecimalVal(n: nat)
    requires n <= LARGEST
    ensures NumberVal(Decimal(n)) == Val(n)
  {
    DecimalMeans(n);
  }

  /** A number of any kind with the absolute value n. */
  function Numeral(f: FactorTree, n: nat): (g: FactorTree)
    requires f.Num? || f.Plus? || f.Minus?
    ensures SameFactor(f, g) && FactorWell(g)
  {
    if f.Num? then Num(Decimal(n)) else if f.Plus? then Plus(Decimal(n)) else Minus(Decimal(n))
  }

  // ---- numbers that give any value ----

  predicate Is(m: Val, v: nat) {
    m.Val? && Abs(m.v) == v
  }

  /** The program divides by a factor that is not there. */
  predicate FactorDead(f: FactorTree) {
    f.Paren? && Dead(f.e)
  }

  predicate TermDead(t: TermTree) {
    match t
    case One(f) => FactorDead(f)
    case Times(u, op, f) => TermDead(u) || FactorDead(f) || (f.Plus? && op != '*')
  }

  predicate Dead(x: ExprTree) {
    match x
    case Just(t) => TermDead(t)
    case Add(d, _, t) => Dead(d) || TermDead(t)
  }

  function FactorWeight(f: FactorTree): (w: nat)
    ensures w > 0
  {
    if f.Paren? then 1 + Weight(f.e) else 1
  }

  function TermWeight(t: TermTree): (w: nat)
    ensures w > 0
  {
    match t
    case One(f) => FactorWeight(f)
    case Times(u, _, f) => TermWeight(u) + FactorWeight(f)
  }

  function Weight(x: ExprTree): (w: nat)
    ensures w > 0
  {
    match x
    case Just(t) => TermWeight(t)
    case Add(d, _, t) => Weight(d) + TermWeight(t)
  }

  /** The value has the absolute value v, and so has what the program computes, or it fails. */
  predicate Exact(m: Val, c: Val, dead: bool, v: nat) {
    Is(m, v) && if dead then c == ByZero else Is(c, v)
  }

  ghost predicate ExactFactor(f: FactorTree, g: FactorTree, v: nat) {
    && SameFactor(f, g) && FactorWell(g) && FactorFull(g)
    && Exact(FactorVal(g), CodeFactor(g), FactorDead(f), v)
  }

  ghost predicate ExactTerm(t: TermTree, u: TermTree, v: nat) {
    && SameTerm(t, u) && TermWell(u) && TermFull(u)
    && Exact(TermVal(u), CodeTerm(u), TermDead(t), v)
  }

  ghost predicate ExactExpr(x: ExprTree, y: ExprTree, v: nat) {
    && SameShape(x, y) && Well(y) && Full(y)
    && Exact(ValOf(y), CodeExpr(y), Dead(x), v)
  }

  lemma MagnitudeOfProduct(a: int, b: int)
    ensures Abs(b) == 1 ==> Abs(a * b) == Abs(a)
    ensures Abs(a) == 1 ==> Abs(a * b) == Abs(b)
  {}

  lemma MagnitudeOfQuotient(a: int, b: int, n: nat)
    requires b != 0 && Abs(a) == n * Abs(b)
    ensures Abs(Quotient(a, b)) == n
  {
    MultipleMod(n, Abs(b));
  }

  lemma SmallRemainder(a: int, b: int)
    requires Abs(a) < Abs(b)
    ensures Remainder(a, b) == a
  {
    Divided(Abs(a), Abs(b), 0, Abs(a));
  }

  /** The second operand that keeps a value. */
  function Keeper(op: char, v: nat): nat {
    if op == '%' then v + 1 else 1
  }

  lemma Kept(m: Val, op: char, n: Val, v: nat)
    requires IsTermOp(op) && Is(m, v) && Is(n, Keeper(op, v)) && v <= LARGEST
    ensures Is(Combine(m, op, n), v)
  {
    MagnitudeOfProduct(m.v, n.v);
    if op == '/' {
      MagnitudeOfQuotient(m.v, n.v, v);
    } else if op == '%' {
      SmallRemainder(m.v, n.v);
    }
  }

  lemma {:induction false} MakeFactor(f: FactorTree, v: nat) returns (g: FactorTree)
    requires FactorWell(f) && FactorFull(f) && v + FactorWeight(f) <= LARGEST
    ensures ExactFactor(f, g, v)
    decreases f, 0
  {
    if f.Paren? {
      var e := MakeExpr(f.e, v);
      g := Paren(e);
      ParenCode(e);
    } else {
      g := Numeral(f, v);
      NumeralExact(f, v);
    }
  }

  lemma NumeralExact(f: FactorTree, v: nat)
    requires FactorWell(f) && FactorFull(f) && !f.Paren? && v <= LARGEST
    ensures ExactFactor(f, Numeral(f, v), v)
  {
    DecimalVal(v);
  }

  lemma ParenCode(e: ExprTree)
    requires Well(e) && Full(e)
    ensures CodeFactor(Paren(e)) == CodeExpr(e) && FactorVal(Paren(e)) == ValOf(e)
  {
    hide Regroup, ValOf;
    RegroupSame(e);
    assert Inner(Paren(e)) == Paren(Regroup(e));
    assert FactorVal(Paren(Regroup(e))) == ValOf(Regroup(e));
  }

  lemma {:induction false} MakeTerm(t: TermTree, v: nat) returns (y: TermTree)
    requires TermWell(t) && TermFull(t) && v + TermWeight(t) <= LARGEST
    ensures ExactTerm(t, y, v)
    decreases t, 1
  {
    hide FactorVal, CodeFactor, CodeTerm, Combine, TermVal;
    match t
    case One(f) =>
      var g := MakeFactor(f, v);
      y := One(g);
      CodeOne(g);
      assert TermVal(y) == FactorVal(g) by { OneVal(g); }
    case Times(u, op, f) =>
      if f.Plus? && op == '*' {
        y := MakeProduct(u, f, v);
      } else {
        var a := MakeTerm(u, v);
        var g := MakeFactor(f, Keeper(op, v));
        y := TimesExact(u, op, f, a, g, v);
      }
  }

  lemma OneVal(f: FactorTree)
    requires FactorWell(f)
    ensures TermVal(One(f)) == FactorVal(f)
  {}

  /** A product with a misplaced plus: the number is all that the program sees. */
  lemma MakeProduct(u: TermTree, f: FactorTree, v: nat) returns (y: TermTree)
    requires TermWell(u) && TermFull(u) && FactorWell(f) && f.Plus? && v + TermWeight(u) + 1 <= LARGEST
    ensures ExactTerm(Times(u, '*', f), y, v)
    decreases u, 2
  {
    hide FactorVal, CodeFactor, CodeTerm, Combine, TermVal;
    var a := MakeTerm(u, 1);
    var g := Numeral(f, v);
    NumeralExact(f, v);
    y := Times(a, '*', g);
    TimesVal(a, '*', g);
    CodePlus(a, '*', g);
    ProductOf(TermVal(a), FactorVal(g), v);
  }

  lemma ProductOf(m: Val, n: Val, v: nat)
    requires Is(m, 1) && Is(n, v) && v <= LARGEST
    ensures Is(Combine(m, '*', n), v)
  {
    MagnitudeOfProduct(m.v, n.v);
  }

  lemma TimesExact(u: TermTree, op: char, f: FactorTree, a: TermTree, g: FactorTree, v: nat) returns (y: TermTree)
    requires IsTermOp(op) && v <= LARGEST && !(f.Plus? && op == '*')
    requires ExactTerm(u, a, v) && ExactFactor(f, g, Keeper(op, v))
    ensures y == Times(a, op, g) && ExactTerm(Times(u, op, f), y, v)
  {
    hide FactorVal, CodeFactor, CodeTerm, Combine, TermVal;
    y := Times(a, op, g);
    TimesVal(a, op, g);
    Kept(TermVal(a), op, FactorVal(g), v);
    if f.Plus? {
      CodePlus(a, op, g);
    } else {
      CodeTimes(a, op, g);
      Fails(CodeTerm(a), op, CodeFactor(g));
      if !TermDead(u) && !FactorDead(f) {
        Kept(CodeTerm(a), op, CodeFactor(g), v);
      }
    }
  }

  lemma Fails(m: Val, op: char, n: Val)
    ensures m == ByZero || n == ByZero ==> Failing(Combine(m, op, n)) == ByZero
  {}

  lemma {:induction false} MakeExpr(x: ExprTree, v: nat) returns (y: ExprTree)
    requires Well(x) && Full(x) && v + Weight(x) <= LARGEST
    ensures ExactExpr(x, y, v)
    decreases x, 2
  {
    hide CodeTerm, CodeExpr, TermVal, Combine;
    match x
    case Just(t) =>
      var u := MakeTerm(t, v);
      y := Just(u);
      CodeJust(u);
    case Add(d, minus, t) =>
      var e := MakeExpr(d, v);
      var u := MakeTerm(t, 0);
      y := Add(e, minus, u);
      CodeAdd(e, minus, u);
      SumExact(ValOf(e), TermVal(u), v);
      if !Dead(d) && !TermDead(t) {
        SumExact(CodeExpr(e), CodeTerm(u), v);
      }
      Fails(CodeExpr(e), '+', CodeTerm(u));
      Fails(CodeExpr(e), '-', CodeTerm(u));
  }

  lemma SumExact(m: Val, n: Val, v: nat)
    requires Is(m, v) && Is(n, 0) && v <= LARGEST
    ensures Is(Combine(m, '+', n), v) && Is(Combine(m, '-', n), v)
  {}

  // ---- numbers that show the difference ----

  predicate Bad(m: Val) {
    m == ByZero || m == Val(0)
  }

  predicate Big(m: Val, n: nat) {
    m.Val? && n <= Abs(m.v) <= 2 * n
  }

  /** Exactly one of the value and what the program computes fails or is 0; the other one has an
      absolute value between n and 2n. */
  predicate Apart(m: Val, c: Val, n: nat) {
    (Bad(m) && Big(c, n)) || (Big(m, n) && Bad(c))
  }

  ghost predicate ApartFactor(f: FactorTree, g: FactorTree, n: nat) {
    SameFactor(f, g) && FactorWell(g) && FactorFull(g) && Apart(FactorVal(g), CodeFactor(g), n)
  }

  ghost predicate ApartTerm(t: TermTree, u: TermTree, n: nat) {
    SameTerm(t, u) && TermWell(u) && TermFull(u) && Apart(TermVal(u), CodeTerm(u), n)
  }

  ghost predicate ApartExpr(x: ExprTree, y: ExprTree, n: nat) {
    SameShape(x, y) && Well(y) && Full(y) && Apart(ValOf(y), CodeExpr(y), n)
  }

  /** The numbers that are needed are at most so large. */
  predicate Roomy(n: nat, weight: nat) {
    0 < n && 2 * n + 3 * weight + 1 <= LARGEST
  }

  /** What keeps the difference to the left of an operator. */
  lemma KeptLeft(m: Val, op: char, b: Val, n: nat)
    requires IsTermOp(op) && Is(b, Keeper(op, 2 * n)) && 2 * n <= LARGEST
    ensures Bad(m) ==> Bad(Combine(m, op, b))
    ensures Big(m, n) ==> Big(Combine(m, op, b), n)
  {
    if m.Val? && Abs(m.v) <= 2 * n {
      MagnitudeOfProduct(m.v, b.v);
      if op == '/' {
        MagnitudeOfQuotient(m.v, b.v, Abs(m.v));
      } else if op == '%' {
        SmallRemainder(m.v, b.v);
      }
    }
  }

  /** The left operand that keeps the difference to the right of an operator, where w is the
      absolute value that is not bad. */
  function Dividend(op: char, n: nat, w: nat): nat {
    if op == '*' then 1 else if op == '/' then w * n else n
  }

  /** How far apart the right operand has to be. */
  function Divisor(op: char, n: nat): nat {
    if op == '*' then n else if op == '/' then 1 else n + 1
  }

  lemma KeptRight(a: Val, op: char, m: Val, n: nat, w: nat)
    requires IsTermOp(op) && 0 < n && 2 * n + 2 <= LARGEST && Is(a, Dividend(op, n, w))
    ensures Bad(m) ==> Bad(Combine(a, op, m))
    ensures Is(m, w) && Big(m, Divisor(op, n)) ==> Big(Combine(a, op, m), n)
  {
    if Is(m, w) && Big(m, Divisor(op, n)) {
      MagnitudeOfProduct(a.v, m.v);
      if op == '/' {
        MagnitudeOfQuotient(a.v, m.v, n);
      } else if op == '%' {
        SmallRemainder(a.v, m.v);
      }
    }
  }

  /** The absolute value of the one that is not bad. */
  function Size(m: Val, c: Val): nat {
    if Bad(m) then (if c.Val? then Abs(c.v) else 0) else if m.Val? then Abs(m.v) else 0
  }

  lemma {:induction false} SplitFactor(f: FactorTree, n: nat) returns (g: FactorTree)
    requires FactorWell(f) && FactorFull(f) && !FactorFine(f) && !f.Plus? && Roomy(n, FactorWeight(f))
    ensures ApartFactor(f, g, n)
    decreases f, 0
  {
    var e := SplitExpr(f.e, n);
    g := Paren(e);
    ParenCode(e);
  }

  lemma {:induction false} SplitTerm(t: TermTree, n: nat) returns (y: TermTree)
    requires TermWell(t) && TermFull(t) && !TermFine(t) && Roomy(n, TermWeight(t))
    ensures ApartTerm(t, y, n)
    decreases t, 3
  {
    hide FactorVal, CodeFactor, CodeTerm, Combine, TermVal, FactorFull, FactorWell;
    if TermDead(t) {
      y := MakeTerm(t, n);
    } else {
      match t
      case One(f) =>
        var g := SplitFactor(f, n);
        y := One(g);
        CodeOne(g);
        OneVal(g);
      case Times(u, op, f) =>
        if f.Plus? {
          y := SplitAtPlus(u, f, n);
        } else if !TermFine(u) {
          y := SplitLeft(u, op, f, n);
        } else {
          y := SplitRight(u, op, f, n);
        }
    }
  }

  /** A product with a misplaced plus: with a 0 before it the product is 0, but not for the program. */
  lemma SplitAtPlus(u: TermTree, f: FactorTree, n: nat) returns (y: TermTree)
    requires TermWell(u) && TermFull(u) && !TermDead(u) && FactorWell(f) && f.Plus? && Roomy(n, TermWeight(u) + 1)
    ensures ApartTerm(Times(u, '*', f), y, n)
    decreases u, 2
  {
    hide FactorVal, CodeFactor, CodeTerm, Combine, TermVal;
    var a := MakeTerm(u, 0);
    var g := Numeral(f, n);
    NumeralExact(f, n);
    y := Times(a, '*', g);
    TimesVal(a, '*', g);
    CodePlus(a, '*', g);
    ProductOfZero(TermVal(a), FactorVal(g));
  }

  lemma ProductOfZero(m: Val, n: Val)
    requires Is(m, 0) && n.Val?
    ensures Combine(m, '*', n) == Val(0)
  {}

  lemma {:induction false} SplitLeft(u: TermTree, op: char, f: FactorTree, n: nat) returns (y: TermTree)
    requires TermWell(u) && TermFull(u) && !TermFine(u) && IsTermOp(op) && FactorWell(f) && FactorFull(f)
    requires !f.Plus? && !FactorDead(f) && Roomy(n, TermWeight(u) + FactorWeight(f))
    ensures ApartTerm(Times(u, op, f), y, n)
    decreases u, 4
  {
    hide FactorVal, CodeFactor, CodeTerm, Combine, TermVal, FactorFull, FactorWell;
    var a := SplitTerm(u, n);
    var g := MakeFactor(f, Keeper(op, 2 * n));
    y := Times(a, op, g);
    TimesVal(a, op, g);
    CodeTimes(a, op, g);
    KeptLeft(TermVal(a), op, FactorVal(g), n);
    KeptLeft(CodeTerm(a), op, CodeFactor(g), n);
    NotBeyond(Combine(CodeTerm(a), op, CodeFactor(g)), n);
  }

  lemma NotBeyond(m: Val, n: nat)
    requires Bad(m) || Big(m, n)
    ensures Failing(m) == m
  {}

  lemma {:induction false} SplitRight(u: TermTree, op: char, f: FactorTree, n: nat) returns (y: TermTree)
    requires TermWell(u) && TermFull(u) && !TermDead(u) && IsTermOp(op) && FactorWell(f) && FactorFull(f)
    requires !f.Plus? && !FactorFine(f) && Roomy(n, TermWeight(u) + FactorWeight(f))
    ensures ApartTerm(Times(u, op, f), y, n)
    decreases f, 5
  {
    hide FactorVal, CodeFactor, CodeTerm, Combine, TermVal, FactorFull, FactorWell;
    var g := SplitFactor(f, Divisor(op, n));
    var w := Size(FactorVal(g), CodeFactor(g));
    var a := MakeTerm(u, Dividend(op, n, w));
    y := Times(a, op, g);
    TimesVal(a, op, g);
    CodeTimes(a, op, g);
    KeptRight(TermVal(a), op, FactorVal(g), n, w);
    KeptRight(CodeTerm(a), op, CodeFactor(g), n, w);
    NotBeyond(Combine(CodeTerm(a), op, CodeFactor(g)), n);
  }

  lemma {:induction false} SplitExpr(x: ExprTree, n: nat) returns (y: ExprTree)
    requires Well(x) && Full(x) && !Fine(x) && Roomy(n, Weight(x))
    ensures ApartExpr(x, y, n)
    decreases x, 5
  {
    hide CodeTerm, CodeExpr, TermVal, Combine;
    if Dead(x) {
      y := MakeExpr(x, n);
    } else {
      match x
      case Just(t) =>
        var u := SplitTerm(t, n);
        y := Just(u);
        CodeJust(u);
      case Add(d, minus, t) =>
        if !Fine(d) {
          var e := SplitExpr(d, n);
          var u := MakeTerm(t, 0);
          y := Add(e, minus, u);
          CodeAdd(e, minus, u);
          SumLeft(ValOf(e), TermVal(u), n);
          SumLeft(CodeExpr(e), CodeTerm(u), n);
        } else if !TermFine(t) {
          var e := MakeExpr(d, 0);
          var u := SplitTerm(t, n);
          y := Add(e, minus, u);
          CodeAdd(e, minus, u);
          SumRight(ValOf(e), TermVal(u), n);
          SumRight(CodeExpr(e), CodeTerm(u), n);
        } else {
          y := SplitSign(d, t, n);
        }
    }
  }

  lemma SumLeft(m: Val, z: Val, n: nat)
    requires Is(z, 0) && 2 * n <= LARGEST
    ensures Bad(m) ==> Bad(Combine(m, '+', z)) && Bad(Combine(m, '-', z))
    ensures Big(m, n) ==> Big(Combine(m, '+', z), n) && Big(Combine(m, '-', z), n)
  {}

  lemma SumRight(z: Val, m: Val, n: nat)
    requires Is(z, 0) && 2 * n <= LARGEST
    ensures Bad(m) ==> Bad(Combine(z, '+', m)) && Bad(Combine(z, '-', m))
    ensures Big(m, n) ==> Big(Combine(z, '+', m), n) && Big(Combine(z, '-', m), n)
  {}

  /** A minus in front of a plus: the program adds. */
  lemma SplitSign(d: ExprTree, t: TermTree, n: nat) returns (y: ExprTree)
    requires Well(d) && Full(d) && TermWell(t) && TermFull(t) && Fine(d) && TermFine(t) && Leads(t)
    requires !Dead(d) && !TermDead(t) && Roomy(n, Weight(d) + TermWeight(t))
    ensures ApartExpr(Add(d, true, t), y, n)
  {
    hide CodeTerm, CodeExpr, TermVal, Combine;
    var e := MakeExpr(d, n);
    var u := MakeTerm(t, n);
    y := Add(e, true, u);
    SameFine(d, e);
    SameTermFine(t, u);
    FineCode(e);
    FineTermCode(u);
    CodeAdd(e, true, u);
    SumAndDifference(ValOf(e), TermVal(u), n);
  }

  lemma SumAndDifference(a: Val, b: Val, n: nat)
    requires Is(a, n) && Is(b, n) && 0 < n && 2 * n <= LARGEST
    ensures Apart(Combine(a, '-', b), Combine(a, '+', b), n)
    ensures Failing(Combine(a, '+', b)) == Combine(a, '+', b)
  {}

  // ---- the main theorem ----

  /** expr_parse gives the value of the expression, with an error exactly for a division by zero. */
  predicate ReadRight(x: ExprTree)
    requires Well(x)
  {
    Gives(ExpressionOf(Text(x), 0), ValOf(x), 0, "")
  }

  lemma {:induction false} FactorLength(f: FactorTree)
    requires FactorWell(f) && FactorFull(f)
    ensures FactorWeight(f) <= |FactorText(f)|
    decreases f, 0
  {
    if f.Paren? {
      Length(f.e);
    }
  }

  lemma {:induction false} TermLength(t: TermTree)
    requires TermWell(t) && TermFull(t)
    ensures TermWeight(t) <= |TermText(t)|
    decreases t, 1
  {
    FactorLength(t.f);
    if t.Times? {
      TermLength(t.t);
    }
  }

  lemma {:induction false} Length(x: ExprTree)
    requires Well(x) && Full(x)
    ensures Weight(x) <= |Text(x)|
    decreases x, 2
  {
    TermLength(x.t);
    if x.Add? {
      Length(x.e);
    }
  }

  /** An expression that is not fine is misread with some numbers: all results are int64, and the
      outcome is wrong. */
  lemma Misread(x: ExprTree) returns (y: ExprTree)
    requires Well(x) && Full(x) && !Fine(x) && |Text(x)| < EXPR_MAX_SIZE
    ensures SameShape(x, y) && Well(y) && ValOf(y) != Beyond && !ReadRight(y)
  {
    hide ExpressionOf, Text, Regroup, ValOf;
    Length(x);
    y := SplitExpr(x, 1);
    ReadsRegrouped(y);
  }

  /** Exactly which expressions are read right whatever their numbers are: those in which the plus
      sign of a number stands at the start of an expression or behind a plus. */
  lemma ReadRightIffFine(x: ExprTree)
    requires Well(x) && Full(x) && |Text(x)| < EXPR_MAX_SIZE
    ensures Fine(x) <==> forall y :: SameShape(x, y) && Well(y) && ValOf(y) != Beyond ==> ReadRight(y)
  {
    hide ExpressionOf, Text, ValOf, Well, Full, Fine, SameShape, ReadRight;
    if Fine(x) {
      forall y | SameShape(x, y) && Well(y) ensures ReadRight(y) {
        SameFine(x, y);
        ParseMeans(y);
        RightMeans(y);
      }
    } else {
      var y := Misread(x);
    }
  }

  lemma RightMeans(y: ExprTree)
    requires Well(y)
    ensures ReadRight(y) <==> Gives(ExpressionOf(Text(y), 0), ValOf(y), 0, "")
  {
    hide ExpressionOf, Text, ValOf;
  }

  /** A number with a plus sign behind `*` is not multiplied: 3*+5 gives 5. */
  lemma PlusIsLost()
    ensures var x := Just(Times(One(Num("3")), '*', Plus("5")));
            Well(x) && Text(x) == "3*+5" && ValOf(x) == Val(15) && ExpressionOf("3*+5", 0) == Parsed(5, 0, "")
  {
    var x := Just(Times(One(Num("3")), '*', Plus("5")));
    assert NumberOf("3") == 3 && NumberOf("5") == 5 by {
      assert "3"[..0] == "" && "5"[..0] == "";
    }
    assert Text(x) == "3*+5";
    ReadsRegrouped(x);
    assert ValOf(x) == Val(15);
    assert Regroup(x) == Add(Just(Times(One(Num("3")), '*', Nothing)), false, One(Num("5")));
    assert ValOf(Just(Times(One(Num("3")), '*', Nothing))) == Val(0);
  }

  /** Exactly which numbers can be read: not the last 48 of int64, because the code of '0' is taken
      off after the last digit has been added. */
  lemma NumberReadIff(ds: string)
    requires Digits(ds)
    ensures ExpressionOf(ds, 0) == if NumberOf(ds) <= INT64_MAX - 48 then Parsed(NumberOf(ds), 0, "") else Undefined
  {
    hide ExpressionOf, NumberOf;
    NumberTree(ds);
    ParseMeans(Just(One(Num(ds))));
  }

  lemma NumberTree(ds: string)
    requires Digits(ds)
    ensures var x := Just(One(Num(ds)));
            Well(x) && Full(x) && Fine(x) && Text(x) == ds && ValOf(x) == NumberVal(ds)
  {
    hide NumberVal;
    var f := Num(ds);
    assert FactorWell(f) && FactorFull(f) && FactorFine(f) && FactorText(f) == ds && FactorVal(f) == NumberVal(ds);
    assert TermWell(One(f)) && TermFull(One(f)) && TermFine(One(f)) && TermText(One(f)) == ds;
    OneVal(f);
  }
}
