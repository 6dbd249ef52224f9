/**
  Bound expressions (bound_expression.hpp, expression_utils.cpp) and their evaluation
  (expression_evaluator.cpp). A unique_ptr tree has one owner, so it is a value here.
 */
module Expressions {
  import opened Common
  import CheckedArithmetic

  datatype UnaryOperator = Plus | Minus | Not

  datatype BinaryOperator =
    | Add | Subtract | Multiply | Divide
    | Equal | NotEqual | Less | LessEqual | Greater | GreaterEqual
    | And | Or

  // ty is the annotation the binder leaves on every node.
  datatype BoundExpr =
    | Literal(ty: SqlType, value: Value)
    | Column(ty: SqlType, tableId: nat, columnId: nat, tableName: Text, columnName: Text)
    | Unary(ty: SqlType, op: UnaryOperator, operand: BoundExpr)
    | Binary(ty: SqlType, left: BoundExpr, bop: BinaryOperator, right: BoundExpr)
    | Star(ty: SqlType)

  function MakeBoundLiteral(v: Value): BoundExpr {
    Literal(ValueTypeOf(v), v)
  }

  predicate StarFree(e: BoundExpr) {
    match e
    case Star(_) => false
    case Unary(_, _, operand) => StarFree(operand)
    case Binary(_, left, _, right) => StarFree(left) && StarFree(right)
    case _ => true
  }

  predicate ColumnFree(e: BoundExpr) {
    match e
    case Column(_, _, _, _, _) => false
    case Unary(_, _, operand) => ColumnFree(operand)
    case Binary(_, left, _, right) => ColumnFree(left) && ColumnFree(right)
    case _ => true
  }

  // CloneBoundExpression rebuilds the tree node by node and rejects stars.
  function CloneBoundExpression(e: BoundExpr): Result<BoundExpr> {
    match e
    case Literal(ty, v) => Ok(Literal(ty, v))
    case Column(ty, t, c, tn, cn) => Ok(Column(ty, t, c, tn, cn))
    case Unary(ty, op, operand) =>
      var inner :- CloneBoundExpression(operand);
      Ok(Unary(ty, op, inner))
    case Binary(ty, left, op, right) =>
      var l :- CloneBoundExpression(left);
      var r :- CloneBoundExpression(right);
      Ok(Binary(ty, l, op, r))
    case Star(_) => Err(PlanError)
  }

  lemma {:induction false} CloneIsIdentity(e: BoundExpr)
    ensures CloneBoundExpression(e) == if StarFree(e) then Ok(e) else Err(PlanError)
  {
    match e {
      case Unary(_, _, operand) => CloneIsIdentity(operand);
      case Binary(_, left, _, right) => CloneIsIdentity(left); CloneIsIdentity(right);
      case _ =>
    }
  }

  // ValidateNoColumnReferences: a pre-order walk that stops at the first column or star.
  function ValidateNoColumnReferences(e: BoundExpr): Status {
    match e
    case Literal(_, _) => OkStatus
    case Column(_, _, _, _, _) => Err(PlanError)
    case Star(_) => Err(PlanError)
    case Unary(_, _, operand) => ValidateNoColumnReferences(operand)
    case Binary(_, left, _, right) =>
      var status := ValidateNoColumnReferences(left);
      if status.Err? then status else ValidateNoColumnReferences(right)
  }

  lemma {:induction false} ValidationExact(e: BoundExpr)
    ensures ValidateNoColumnReferences(e) == if StarFree(e) && ColumnFree(e) then OkStatus else Err(PlanError)
  {
    match e {
      case Unary(_, _, operand) => ValidationExact(operand);
      case Binary(_, left, _, right) => ValidationExact(left); ValidationExact(right);
      case _ =>
    }
  }

  // An evaluation context is absent, or a schema width together with a row.
  datatype Context = NoRow | RowContext(width: nat, row: Row)

  function EvalUnary(op: UnaryOperator, v: Value): Result<Value> {
    match op
    case Plus =>
      var i :- CheckedArithmetic.RequireInteger(v);
      Ok(Int(i))
    case Minus =>
      var i :- CheckedArithmetic.RequireInteger(v);
      var n :- CheckedArithmetic.Negate(i);
      Ok(Int(n))
    case Not =>
      var b :- CheckedArithmetic.RequireBoolean(v);
      Ok(Bool(!b))
  }

  predicate IsArithmetic(op: BinaryOperator) {
    op.Add? || op.Subtract? || op.Multiply? || op.Divide?
  }

  predicate IsEquality(op: BinaryOperator) {
    op.Equal? || op.NotEqual?
  }

  predicate IsOrdering(op: BinaryOperator) {
    op.Less? || op.LessEqual? || op.Greater? || op.GreaterEqual?
  }

  predicate IsLogical(op: BinaryOperator) {
    op.And? || op.Or?
  }

  function Arithmetic(op: BinaryOperator, l: int64, r: int64): Result<int64>
    requires IsArithmetic(op)
  {
    match op
    case Add => CheckedArithmetic.Add(l, r)
    case Subtract => CheckedArithmetic.Subtract(l, r)
    case Multiply => CheckedArithmetic.Multiply(l, r)
    case Divide => CheckedArithmetic.Divide(l, r)
  }

  // How a comparison operator reads the sign of CompareValues.
  predicate SignSatisfies(op: BinaryOperator, sign: int)
    requires IsEquality(op) || IsOrdering(op)
  {
    match op
    case Equal => sign == 0
    case NotEqual => sign != 0
    case Less => sign < 0
    case LessEqual => sign <= 0
    case Greater => sign > 0
    case GreaterEqual => sign >= 0
  }

  // A non-short-circuit operator on two values. The left operand's type is reported first;
  // NULL equality and inequality are false, any other comparison with NULL is an error.
  function EvalStrict(op: BinaryOperator, l: Value, r: Value): Result<Value>
    requires !IsLogical(op)
  {
    if IsArithmetic(op) then
      var li :- CheckedArithmetic.RequireInteger(l);
      var ri :- CheckedArithmetic.RequireInteger(r);
      var result :- Arithmetic(op, li, ri);
      Ok(Int(result))
    else if IsEquality(op) && (l.Null? || r.Null?) then
      Ok(Bool(false))
    else
      var sign :- CheckedArithmetic.CompareValues(l, r);
      Ok(Bool(SignSatisfies(op, sign)))
  }

  // AND stops at FALSE and OR at TRUE, without looking at the right operand.
  function Evaluate(e: BoundExpr, ctx: Context): Result<Value> {
    match e
    case Literal(_, v) => Ok(v)
    case Column(_, _, id, _, _) =>
      if ctx.NoRow? || id >= |ctx.row| || id >= ctx.width then Err(ExecutionError) else Ok(ctx.row[id])
    case Unary(_, op, operand) =>
      var v :- Evaluate(operand, ctx);
      EvalUnary(op, v)
    case Binary(_, left, op, right) =>
      if IsLogical(op) then
        var lv :- Evaluate(left, ctx);
        var lb :- CheckedArithmetic.RequireBoolean(lv);
        if lb == op.Or? then Ok(Bool(lb))
        else
          var rv :- Evaluate(right, ctx);
          var rb :- CheckedArithmetic.RequireBoolean(rv);
          Ok(Bool(rb))
      else
        var lv :- Evaluate(left, ctx);
        var rv :- Evaluate(right, ctx);
        EvalStrict(op, lv, rv)
    case Star(_) => Err(ExecutionError)
  }

  // A list is evaluated left to right up to the first error.
  function EvaluateAll(es: seq<BoundExpr>, ctx: Context): (r: Result<Row>)
    ensures r.Ok? ==> |r.value| == |es|
  {
    if es == [] then Ok([])
    else
      var v :- Evaluate(es[0], ctx);
      var rest :- EvaluateAll(es[1..], ctx);
      Ok([v] + rest)
  }

  method EvaluateExpressions(es: seq<BoundExpr>, ctx: Context) returns (r: Result<Row>)
    ensures r == EvaluateAll(es, ctx)
  {
    hide Evaluate, Appended;
    var values: Row := [];
    assert es[0..] == es;
    for i := 0 to |es|
      invariant EvaluateAll(es, ctx) == Appended(values, EvaluateAll(es[i..], ctx))
    {
      assert es[i..][0] == es[i] && es[i..][1..] == es[i + 1..];
      var value := Evaluate(es[i], ctx);
      if value.Err? {
        return Err(value.error);
      }
      AppendedStep(values, [value.value], EvaluateAll(es[i + 1..], ctx));
      values := values + [value.value];
    }
    return Ok(values);
  }

  // A list evaluates when every member does, and then position by position.
  lemma {:induction false} EvaluateAllPointwise(es: seq<BoundExpr>, ctx: Context)
    ensures EvaluateAll(es, ctx).Ok? <==> forall i :: 0 <= i < |es| ==> Evaluate(es[i], ctx).Ok?
    ensures EvaluateAll(es, ctx).Ok? ==> forall i :: 0 <= i < |es| ==> Evaluate(es[i], ctx) == Ok(EvaluateAll(es, ctx).value[i])
  {
    if es != [] {
      EvaluateAllPointwise(es[1..], ctx);
      assert forall i :: 0 < i < |es| ==> es[i] == es[1..][i - 1];
    }
  }

  // What the comparison operators mean on integers, in every context.
  lemma IntegerComparisons(a: int64, b: int64)
    ensures EvalStrict(Equal, Int(a), Int(b)) == Ok(Bool(a == b)) && EvalStrict(NotEqual, Int(a), Int(b)) == Ok(Bool(a != b))
    ensures EvalStrict(Less, Int(a), Int(b)) == Ok(Bool(a < b)) && EvalStrict(LessEqual, Int(a), Int(b)) == Ok(Bool(a <= b))
    ensures EvalStrict(Greater, Int(a), Int(b)) == Ok(Bool(a > b)) && EvalStrict(GreaterEqual, Int(a), Int(b)) == Ok(Bool(a >= b))
  {
  }

  // Negating a comparison is comparing with the opposite operator, except that both equality
  // and inequality with NULL are FALSE.
  lemma OppositeComparisons(l: Value, r: Value)
    requires !l.Null? && !r.Null?
    ensures EvalStrict(NotEqual, l, r) == Negated(EvalStrict(Equal, l, r))
    ensures EvalStrict(GreaterEqual, l, r) == Negated(EvalStrict(Less, l, r))
    ensures EvalStrict(LessEqual, l, r) == Negated(EvalStrict(Greater, l, r))
    ensures EvalStrict(Greater, l, r) == EvalStrict(Less, r, l)
  {
    hide CheckedArithmetic.CompareValues;
    CheckedArithmetic.ComparisonIsAntisymmetric(l, r);
  }

  function Negated(r: Result<Value>): Result<Value> {
    if r.Ok? && r.value.Bool? then Ok(Bool(!r.value.b)) else r
  }

  // AND and OR look at the right operand only when the left one does not decide, and then
  // insist on booleans on both sides.
  lemma LogicalOperators(ty: SqlType, left: BoundExpr, right: BoundExpr, ctx: Context)
    ensures var l, r := Evaluate(left, ctx), Evaluate(right, ctx);
            var conj, disj := Evaluate(Binary(ty, left, And, right), ctx), Evaluate(Binary(ty, left, Or, right), ctx);
            && (l == Ok(Bool(false)) ==> conj == Ok(Bool(false)))
            && (l == Ok(Bool(true)) ==> disj == Ok(Bool(true)))
            && (l.Err? ==> conj == l && disj == l)
            && (l.Ok? && !l.value.Bool? ==> conj == Err(TypeMismatch) && disj == Err(TypeMismatch))
            && (l == Ok(Bool(true)) ==> conj == if r.Ok? && !r.value.Bool? then Err(TypeMismatch) else r)
            && (l == Ok(Bool(false)) ==> disj == if r.Ok? && !r.value.Bool? then Err(TypeMismatch) else r)
  {
  }

  // The executor's names for unnamed output columns: std::to_string of the 1-based position.
  function Decimal(n: nat): (s: Text)
    ensures |s| > 0
  {
    if n < 10 then [('0' as int + n) as char] else Decimal(n / 10) + [('0' as int + n % 10) as char]
  }

  function ProjectionName(e: BoundExpr, index: nat): Text {
    if e.Column? then e.columnName else "expr" + Decimal(index + 1)
  }
}
