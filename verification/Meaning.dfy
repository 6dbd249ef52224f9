/**
  What expressions mean, said without the evaluator: numbers are mathematical integers, texts
  are ordered by their first difference, and an outcome is related to the outcomes of the
  operands. The evaluator is then shown to compute exactly this relation.
 */
module Meaning {
  import opened Common
  import opened CheckedArithmetic
  import opened Expressions

  // ---------------------------------------------------------------- operators on values

  // The number itself, or an execution error when it does not fit in 64 bits.
  ghost predicate IsNumber(n: int, out: Result<Value>) {
    if -0x8000_0000_0000_0000 <= n < 0x8000_0000_0000_0000 then out == Ok(Int(n)) else out == Err(ExecutionError)
  }

  // The quotient rounded toward zero; there is none for a zero divisor, and the one quotient
  // beyond 64 bits does not fit.
  ghost predicate IsQuotient(a: int64, b: int64, out: Result<Value>) {
    if b == 0 then out == Err(ExecutionError)
    else exists q :: IsTruncatedQuotient(a, b, q) && IsNumber(q, out)
  }

  ghost predicate UnaryMeans(op: UnaryOperator, v: Value, out: Result<Value>) {
    match op
    case Plus => if v.Int? then out == Ok(v) else out == Err(TypeMismatch)
    case Minus => if v.Int? then IsNumber(0 - v.i, out) else out == Err(TypeMismatch)
    case Not => if v.Bool? then out == Ok(Bool(v == Bool(false))) else out == Err(TypeMismatch)
  }

  ghost predicate IsNumeric(v: Value) {
    v.Int? || v.Bool?
  }

  // FALSE compares as 0 and TRUE as 1.
  ghost function NumberOf(v: Value): int
    requires IsNumeric(v)
  {
    match v
    case Int(i) => i
    case Bool(b) => if b then 1 else 0
  }

  ghost predicate Comparable(l: Value, r: Value) {
    (IsNumeric(l) && IsNumeric(r)) || (l.Str? && r.Str?)
  }

  ghost predicate Smaller(l: Value, r: Value)
    requires Comparable(l, r)
  {
    if l.Str? then exists k :: FirstDifference(l.s, r.s, k) else NumberOf(l) < NumberOf(r)
  }

  ghost predicate Same(l: Value, r: Value)
    requires Comparable(l, r)
  {
    if l.Str? then l.s == r.s else NumberOf(l) == NumberOf(r)
  }

  // Whether the comparison holds.
  ghost predicate Holds(op: BinaryOperator, l: Value, r: Value)
    requires Comparable(l, r)
  {
    match op
    case Equal => Same(l, r)
    case NotEqual => !Same(l, r)
    case Less => Smaller(l, r)
    case LessEqual => Smaller(l, r) || Same(l, r)
    case Greater => Smaller(r, l)
    case GreaterEqual => Smaller(r, l) || Same(l, r)
    case _ => false
  }

  // Operators that look at both operands.
  ghost predicate StrictMeans(op: BinaryOperator, l: Value, r: Value, out: Result<Value>) {
    match op
    case Add => if l.Int? && r.Int? then IsNumber(l.i + r.i, out) else out == Err(TypeMismatch)
    case Subtract => if l.Int? && r.Int? then IsNumber(l.i - r.i, out) else out == Err(TypeMismatch)
    case Multiply => if l.Int? && r.Int? then IsNumber(l.i * r.i, out) else out == Err(TypeMismatch)
    case Divide => if l.Int? && r.Int? then IsQuotient(l.i, r.i, out) else out == Err(TypeMismatch)
    case And | Or => false
    case _ =>
      if l.Null? || r.Null? then out == if op == Equal || op == NotEqual then Ok(Bool(false)) else Err(ExecutionError)
      else if Comparable(l, r) then out == Ok(Bool(Holds(op, l, r)))
      else out == Err(TypeMismatch)
  }

  // ---------------------------------------------------------------- expressions

  // The outcome of an expression on a row. Operands are taken from the left, the first error
  // is the outcome, and AND and OR leave the right operand alone when the left one decides.
  ghost predicate Computes(e: BoundExpr, row: Row, out: Result<Value>) {
    match e
    case Literal(_, v) => out == Ok(v)
    case Column(_, _, id, _, _) => out == if id < |row| then Ok(row[id]) else Err(ExecutionError)
    case Star(_) => out == Err(ExecutionError)
    case Unary(_, op, x) =>
      exists v :: Computes(x, row, v) && if v.Err? then out == v else UnaryMeans(op, v.value, out)
    case Binary(_, l, op, r) =>
      exists v :: Computes(l, row, v) &&
        if v.Err? then out == v
        else if (op == And || op == Or) && !v.value.Bool? then out == Err(TypeMismatch)
        else if (op == And && v == Ok(Bool(false))) || (op == Or && v == Ok(Bool(true))) then out == v
        else exists w :: Computes(r, row, w) && BothMean(op, v.value, w, out)
  }

  ghost predicate BothMean(op: BinaryOperator, v: Value, w: Result<Value>, out: Result<Value>) {
    if w.Err? then out == w
    else if op == And || op == Or then out == if w.value.Bool? then w else Err(TypeMismatch)
    else StrictMeans(op, v, w.value, out)
  }

  // ---------------------------------------------------------------- the evaluator computes this

  lemma QuotientIsExact(a: int64, b: int64, out: Result<Value>)
    ensures IsQuotient(a, b, out) <==> out == EvalStrict(Divide, Int(a), Int(b))
  {
    hide IsTruncatedQuotient, TruncDiv;
    if b != 0 {
      TruncDivTruncates(a, b);
      forall q | IsTruncatedQuotient(a, b, q) ensures q == TruncDiv(a, b) {
        TruncatedQuotientIsUnique(a, b, q, TruncDiv(a, b));
      }
      if CheckedArithmetic.Divide(a, b).Ok? {
        TruncatedQuotientIsUnique(a, b, CheckedArithmetic.Divide(a, b).value, TruncDiv(a, b));
      }
    }
  }

  lemma ComparisonIsExact(op: BinaryOperator, l: Value, r: Value)
    requires IsEquality(op) || IsOrdering(op)
    requires Comparable(l, r)
    ensures EvalStrict(op, l, r) == Ok(Bool(Holds(op, l, r)))
  {
    hide TextLess, FirstDifference;
    if l.Str? {
      TextLessExactly(l.s, r.s);
      TextLessExactly(r.s, l.s);
      TextLessTrichotomy(l.s, r.s);
      TextLessTrichotomy(r.s, l.s);
    }
  }

  lemma StrictIsExact(op: BinaryOperator, l: Value, r: Value, out: Result<Value>)
    requires !IsLogical(op)
    ensures StrictMeans(op, l, r, out) <==> out == EvalStrict(op, l, r)
  {
    hide CompareValues, CheckedArithmetic.Divide, IsQuotient, Holds;
    if op == Divide && l.Int? && r.Int? {
      QuotientIsExact(l.i, r.i, out);
    } else if !IsArithmetic(op) {
      if Comparable(l, r) {
        ComparisonIsExact(op, l, r);
      } else {
        Incomparable(l, r);
      }
    }
  }

  lemma Incomparable(l: Value, r: Value)
    requires !Comparable(l, r)
    ensures CompareValues(l, r) == if l.Null? || r.Null? then Err(ExecutionError) else Err(TypeMismatch)
  {
  }

  lemma UnaryIsExact(op: UnaryOperator, v: Value, out: Result<Value>)
    ensures UnaryMeans(op, v, out) <==> out == EvalUnary(op, v)
  {
  }

  // Operators applied to the outcomes of their operands, as the evaluator applies them.
  lemma BothIsExact(op: BinaryOperator, v: Value, w: Result<Value>, out: Result<Value>)
    requires IsLogical(op) ==> v.Bool? && v.b != op.Or?
    ensures BothMean(op, v, w, out) <==>
            out == if w.Err? then w
                   else if IsLogical(op) then (if w.value.Bool? then w else Err(TypeMismatch))
                   else EvalStrict(op, v, w.value)
  {
    hide StrictMeans, EvalStrict;
    if !IsLogical(op) && w.Ok? {
      StrictIsExact(op, v, w.value, out);
    }
  }

  // The evaluator computes the meaning, and every expression has exactly one on every row.
  lemma {:induction false} EvaluationIsExact(e: BoundExpr, row: Row, out: Result<Value>)
    ensures Computes(e, row, out) <==> out == Evaluate(e, RowContext(|row|, row))
  {
    hide EvalStrict, EvalUnary, UnaryMeans, BothMean;
    var ctx := RowContext(|row|, row);
    match e {
      case Unary(_, op, x) =>
        forall v ensures Computes(x, row, v) <==> v == Evaluate(x, ctx) {
          EvaluationIsExact(x, row, v);
        }
        var v := Evaluate(x, ctx);
        assert Computes(x, row, v);
        if v.Ok? {
          UnaryIsExact(op, v.value, out);
        }
      case Binary(_, l, op, r) =>
        forall v ensures Computes(l, row, v) <==> v == Evaluate(l, ctx) {
          EvaluationIsExact(l, row, v);
        }
        forall w ensures Computes(r, row, w) <==> w == Evaluate(r, ctx) {
          EvaluationIsExact(r, row, w);
        }
        var v, w := Evaluate(l, ctx), Evaluate(r, ctx);
        assert Computes(l, row, v) && Computes(r, row, w);
        if v.Ok? && (IsLogical(op) ==> v.value.Bool? && v.value.b != op.Or?) {
          BothIsExact(op, v.value, w, out);
        }
      case _ =>
    }
  }

  // Without a row it computes the meaning on the empty row.
  lemma EvaluationWithoutRow(e: BoundExpr, out: Result<Value>)
    ensures Computes(e, [], out) <==> out == Evaluate(e, NoRow)
  {
    EvaluationIsExact(e, [], out);
    EmptyRowIsNoRow(e);
  }

  lemma {:induction false} EmptyRowIsNoRow(e: BoundExpr)
    ensures Evaluate(e, RowContext(0, [])) == Evaluate(e, NoRow)
  {
    match e {
      case Unary(_, _, x) => EmptyRowIsNoRow(x);
      case Binary(_, l, _, r) => EmptyRowIsNoRow(l); EmptyRowIsNoRow(r);
      case _ =>
    }
  }
}
