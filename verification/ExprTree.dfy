/** Integer expressions as trees, and what they mean. */
module ExprTree {
  import opened ExprText

  /** A number may have a sign of its own, as the grammar says.  Nothing stands for a factor that is
      not there. */
  datatype FactorTree = Num(digits: string) | Plus(digits: string) | Minus(digits: string) | Paren(e: ExprTree) | Nothing

  datatype TermTree = One(f: FactorTree) | Times(t: TermTree, op: char, f: FactorTree)

  datatype ExprTree = Just(t: TermTree) | Add(e: ExprTree, minus: bool, t: TermTree)

  predicate Digits(ds: string) {
    ds != [] && forall i :: 0 <= i < |ds| ==> IsDigit(ds[i])
  }

  // ---- text ----

  function Sign(minus: bool): string {
    if minus then "-" else "+"
  }

  function FactorText(f: FactorTree): string {
    match f
    case Num(ds) => ds
    case Plus(ds) => "+" + ds
    case Minus(ds) => "-" + ds
    case Paren(e) => "(" + Text(e) + ")"
    case Nothing => ""
  }

  function TermText(t: TermTree): string {
    match t
    case One(f) => FactorText(f)
    case Times(u, op, f) => TermText(u) + [op] + FactorText(f)
  }

  function Text(e: ExprTree): string {
    match e
    case Just(t) => TermText(t)
    case Add(d, minus, t) => Text(d) + Sign(minus) + TermText(t)
  }

  // ---- expressions ----

  predicate FactorWell(f: FactorTree) {
    match f
    case Num(ds) => Digits(ds)
    case Plus(ds) => Digits(ds)
    case Minus(ds) => Digits(ds)
    case Paren(e) => Well(e)
    case Nothing => true
  }

  predicate TermWell(t: TermTree) {
    match t
    case One(f) => FactorWell(f)
    case Times(u, op, f) => TermWell(u) && IsTermOp(op) && FactorWell(f)
  }

  predicate Well(e: ExprTree) {
    match e
    case Just(t) => TermWell(t)
    case Add(d, _, t) => Well(d) && TermWell(t)
  }

  predicate FactorFull(f: FactorTree) {
    match f
    case Paren(e) => Full(e)
    case Nothing => false
    case _ => true
  }

  predicate TermFull(t: TermTree) {
    match t
    case One(f) => FactorFull(f)
    case Times(u, _, f) => TermFull(u) && FactorFull(f)
  }

  /** No factor is missing: the expressions of the grammar. */
  predicate Full(e: ExprTree) {
    match e
    case Just(t) => TermFull(t)
    case Add(d, _, t) => Full(d) && TermFull(t)
  }

  // ---- meaning ----

  /** The value; or something is divided by zero; or, before all, a result is no int64. */
  datatype Val = Val(v: int) | ByZero | Beyond

  /** The number that digits stand for. */
  function NumberOf(ds: string): nat
    requires forall i :: 0 <= i < |ds| ==> IsDigit(ds[i])
  {
    if ds == [] then 0 else 10 * NumberOf(ds[..|ds| - 1]) + Digit(ds[|ds| - 1])
  }

  /** The largest number that is read without leaving int64: the code of '0' is added to it. */
  const LARGEST := INT64_MAX - 48

  function NumberVal(ds: string): Val
    requires Digits(ds)
  {
    if NumberOf(ds) <= LARGEST then Val(NumberOf(ds)) else Beyond
  }

  function Within(v: int): Val {
    if IsInt64(v) then Val(v) else Beyond
  }

  function Combine(a: Val, op: char, b: Val): Val {
    if a.Beyond? || b.Beyond? then Beyond
    else if a.ByZero? || b.ByZero? then ByZero
    else if op == '+' then Within(a.v + b.v)
    else if op == '-' then Within(a.v - b.v)
    else if op == '*' then Within(a.v * b.v)
    else if b.v == 0 then ByZero
    else if a.v == INT64_MIN && b.v == -1 then Beyond
    else if op == '/' then Val(Quotient(a.v, b.v))
    else Val(Remainder(a.v, b.v))
  }

  function Negated(a: Val): Val {
    if a.Val? then Val(-a.v) else a
  }

  function FactorVal(f: FactorTree): Val
    requires FactorWell(f)
  {
    match f
    case Num(ds) => NumberVal(ds)
    case Plus(ds) => NumberVal(ds)
    case Minus(ds) => Negated(NumberVal(ds))
    case Paren(e) => ValOf(e)
    case Nothing => Val(0)
  }

  function TermVal(t: TermTree): Val
    requires TermWell(t)
  {
    match t
    case One(f) => FactorVal(f)
    case Times(u, op, f) => Combine(TermVal(u), op, FactorVal(f))
  }

  function ValOf(e: ExprTree): Val
    requires Well(e)
  {
    match e
    case Just(t) => TermVal(t)
    case Add(d, minus, t) => Combine(ValOf(d), if minus then '-' else '+', TermVal(t))
  }
}
