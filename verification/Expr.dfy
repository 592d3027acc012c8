/** The evaluator of integer expressions, with its cursor. */
module Expr {
  import opened ExprText
  import opened ExprTree
  import opened ExprRegroup

  /** How a call ends: it returns; the cursor would leave the string; or a result is no int64. */
  datatype How = Returns | Leaves | Overflows

  function Ending(how: How, result: int, err: int, rest: string): Parsed {
    match how
    case Returns => Parsed(result, err, rest)
    case Leaves => Outside
    case Overflows => Undefined
  }

  function HowOf(r: Parsed): How {
    if r.Parsed? then Returns else if r.Outside? then Leaves else Overflows
  }

  /** The cursor over the string and expr_err. */
  class Parser {
    const text: string
    var pt: nat
    var err: int

    predicate Valid()
      reads this
    {
      pt <= |text|
    }

    function Rest(): string
      requires Valid()
      reads this
    {
      text[pt..]
    }

    /** The character at the cursor, zero at the end of the string. */
    function Peek(): (c: char)
      requires Valid()
      reads this
      ensures Rest() == [] ==> c == '\0'
      ensures Rest() != [] ==> c == Rest()[0]
    {
      if pt < |text| then text[pt] else '\0'
    }

    constructor (text: string)
      ensures Valid() && Rest() == text && err == 0
    {
      this.text := text;
      pt, err := 0, 0;
    }

    method Advance()
      requires Valid() && pt < |text|
      modifies this`pt
      ensures Valid() && pt == old(pt) + 1 && Rest() == old(Rest())[1..]
    {
      pt := pt + 1;
    }

    /** expr_number */
    method Number() returns (how: How, result: int)
      requires Valid() && IsDigit(Peek())
      modifies this`pt
      ensures Valid() && pt > old(pt)
      ensures Ending(how, result, err, Rest()) == NumberFrom(Digit(old(Rest())[0]), err, old(Rest())[1..])
    {
      ghost var s := Rest();
      how, result := Returns, Digit(Peek());
      Advance();
      while IsDigit(Peek())
        invariant Valid() && pt > old(pt) && how == Returns
        invariant NumberFrom(result, err, Rest()) == NumberFrom(Digit(s[0]), err, s[1..])
        decreases |text| - pt
      {
        if !IsInt64(10 * result + Peek() as int) {
          return Overflows, 0;
        }
        result := 10 * result + Digit(Peek());
        Advance();
      }
    }

    /** expr_factor */
    method Factor() returns (how: How, result: int)
      requires Valid()
      modifies this
      ensures Valid() && pt >= old(pt)
      ensures Ending(how, result, err, Rest()) == FactorOf(old(Rest()), old(err))
      decreases |text| - pt, 0
    {
      hide ExpressionOf, NumberFrom;
      how, result := Returns, 0;
      if IsDigit(Peek()) {
        how, result := Number();
      } else if Peek() == '(' {
        Advance();
        how, result := Expression();
        if how == Returns && pt == |text| {
          how := Leaves;
        } else if how == Returns {
          Advance();
        }
      } else if Peek() == '-' {
        Advance();
        how, result := Factor();
        if how == Returns && !IsInt64(-result) {
          how := Overflows;
        }
        result := -result;
      }
    }

    /** expr_term */
    method Term() returns (how: How, result: int)
      requires Valid()
      modifies this
      ensures Valid() && pt >= old(pt)
      ensures Ending(how, result, err, Rest()) == TermOf(old(Rest()), old(err))
      decreases |text| - pt, 1
    {
      hide FactorOf;
      how, result := Factor();
      ghost var whole := TermOf(old(Rest()), old(err));
      while how == Returns && IsTermOp(Peek())
        invariant Valid() && pt >= old(pt)
        invariant whole == if how == Returns then TermLoop(result, err, Rest()) else Ending(how, result, err, Rest())
        decreases |text| - pt, how == Returns
      {
        var op, temp := Peek(), 0;
        Advance();
        how, temp := Factor();
        if how == Returns {
          if op == '*' {
            how := if IsInt64(result * temp) then Returns else Overflows;
            result := result * temp;
          } else {
            if temp == 0 {
              temp := if op == '%' then EXPR_MODULO_BY_ZERO else EXPR_DIVISION_BY_ZERO;
              err := temp;
            }
            how := if result == INT64_MIN && temp == -1 then Overflows else Returns;
            result := if op == '%' then Remainder(result, temp) else Quotient(result, temp);
          }
        }
      }
    }

    /** expr_expression */
    method Expression() returns (how: How, result: int)
      requires Valid()
      modifies this
      ensures Valid() && pt >= old(pt)
      ensures Ending(how, result, err, Rest()) == ExpressionOf(old(Rest()), old(err))
      decreases |text| - pt, 2
    {
      hide TermOf;
      how, result := Term();
      ghost var whole := ExpressionOf(old(Rest()), old(err));
      while how == Returns && IsSign(Peek())
        invariant Valid() && pt >= old(pt)
        invariant whole == if how == Returns then ExprLoop(result, err, Rest()) else Ending(how, result, err, Rest())
        decreases |text| - pt, how == Returns
      {
        var sign, t := Peek(), 0;
        Advance();
        how, t := Term();
        if how == Returns {
          result := if sign == '+' then result + t else result - t;
          how := if IsInt64(result) then Returns else Overflows;
        }
      }
    }
  }

  /** What a caller sees of a value: the value and no error; one of the two errors, or nothing defined,
      behind a division by zero; and nothing defined beyond int64. */
  predicate Shows(how: How, rc: int, result: int, m: Val) {
    match m
    case Val(v) => how == Returns && rc == 0 && result == v
    case ByZero => how == Overflows || (how == Returns && (rc == -1 || rc == -2))
    case Beyond => how == Overflows
  }

  /** expr_parse, on the text of an expression: it shows the value of the regrouped expression, which
      is the value of the expression itself when that is fine. */
  method Parse(text: string, ghost x: ExprTree) returns (how: How, rc: int, result: int)
    requires Well(x) && Full(x) && text == Text(x)
    ensures Well(Regroup(x)) && Shows(how, rc, result, ValOf(Regroup(x)))
    ensures Fine(x) ==> Shows(how, rc, result, ValOf(x))
    ensures how == Returns && rc == -1 ==> '/' in text
    ensures how == Returns && rc == -2 ==> '%' in text
  {
    hide ExpressionOf, Text, Fine, Well, Full, ValOf, Regroup;
    ReadsRegrouped(x);
    ExpressionCauses(text, 0);
    if Fine(x) {
      FineSame(x);
    }
    var p := new Parser(text);
    how, result := p.Expression();
    rc := p.err;
  }
}
