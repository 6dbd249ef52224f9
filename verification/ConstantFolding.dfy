/**
  default_optimizer.cpp, the constant_folding rule on expressions: bottom-up, an operator whose
  operands have become literals is replaced by its value whenever that value exists.
 */
module ConstantFolding {
  import opened Common
  import CheckedArithmetic
  import opened Expressions

  function FoldUnary(op: UnaryOperator, v: Value): Option<Value> {
    match op
    case Plus => if v.Int? then Some(v) else None
    case Minus =>
      if v.Int? then
        var n := CheckedArithmetic.Negate(v.i);
        if n.Ok? then Some(Int(n.value)) else None
      else None
    case Not => if v.Bool? then Some(Bool(!v.b)) else None
  }

  function FoldArithmetic(op: BinaryOperator, l: Value, r: Value): Option<Value> {
    if !l.Int? || !r.Int? || !IsArithmetic(op) then None
    else
      var result := Arithmetic(op, l.i, r.i);
      if result.Ok? then Some(Int(result.value)) else None
  }

  function FoldComparison(op: BinaryOperator, l: Value, r: Value): Option<Value> {
    if !IsEquality(op) && !IsOrdering(op) then None
    else if IsEquality(op) && (l.Null? || r.Null?) then Some(Bool(false))
    else
      var sign := CheckedArithmetic.CompareValues(l, r);
      if sign.Ok? then Some(Bool(SignSatisfies(op, sign.value))) else None
  }

  function FoldBoolean(op: BinaryOperator, l: Value, r: Value): Option<Value> {
    if !l.Bool? || !r.Bool? then None
    else if op.And? then Some(Bool(l.b && r.b))
    else if op.Or? then Some(Bool(l.b || r.b))
    else None
  }

  function FoldBinary(op: BinaryOperator, l: Value, r: Value): Option<Value> {
    var arithmetic := FoldArithmetic(op, l, r);
    if arithmetic.Some? then arithmetic
    else
      var comparison := FoldComparison(op, l, r);
      if comparison.Some? then comparison else FoldBoolean(op, l, r)
  }

  // One node whose children are already folded.
  function FoldCurrent(e: BoundExpr): BoundExpr {
    match e
    case Unary(_, op, Literal(_, v)) =>
      var folded := FoldUnary(op, v);
      if folded.Some? then MakeBoundLiteral(folded.value) else e
    case Binary(_, Literal(_, l), op, Literal(_, r)) =>
      var folded := FoldBinary(op, l, r);
      if folded.Some? then MakeBoundLiteral(folded.value) else e
    case _ => e
  }

  // TransformBoundExpression with fold_current_expression: children first; stars are refused.
  function FoldExpression(e: BoundExpr): Result<BoundExpr> {
    match e
    case Star(_) => Err(PlanError)
    case Unary(ty, op, operand) =>
      var inner :- FoldExpression(operand);
      Ok(FoldCurrent(Unary(ty, op, inner)))
    case Binary(ty, left, op, right) =>
      var l :- FoldExpression(left);
      var r :- FoldExpression(right);
      Ok(FoldCurrent(Binary(ty, l, op, r)))
    case _ => Ok(FoldCurrent(e))
  }

  // ---------------------------------------------------------------- meaning

  // Folding one node is evaluating it in any context, when that succeeds, and nothing else.
  lemma FoldCurrentPreserves(e: BoundExpr, ctx: Context)
    ensures Evaluate(FoldCurrent(e), ctx) == Evaluate(e, ctx)
  {
    match e {
      case Unary(_, op, Literal(ty, v)) =>
        assert Evaluate(Literal(ty, v), ctx) == Ok(v);
      case Binary(_, Literal(lt, l), op, Literal(rt, r)) =>
        assert Evaluate(Literal(lt, l), ctx) == Ok(l);
        assert Evaluate(Literal(rt, r), ctx) == Ok(r);
      case _ =>
    }
  }

  // A literal pair folds exactly when evaluation succeeds, to that value.
  lemma FoldBinaryIsEvaluation(op: BinaryOperator, l: Value, r: Value, ctx: Context)
    ensures var e := Binary(NullType, MakeBoundLiteral(l), op, MakeBoundLiteral(r));
            && (FoldBinary(op, l, r).Some? ==> Evaluate(e, ctx) == Ok(FoldBinary(op, l, r).value))
            && (Evaluate(e, ctx).Ok? && !IsLogical(op) ==> FoldBinary(op, l, r).Some?)
            && (Evaluate(e, ctx).Ok? && FoldBinary(op, l, r).None? ==> l.Bool? && !r.Bool? && Evaluate(e, ctx) == Ok(l))
  {
    hide CheckedArithmetic.CompareValues, Arithmetic, SignSatisfies;
    assert Evaluate(MakeBoundLiteral(l), ctx) == Ok(l);
    assert Evaluate(MakeBoundLiteral(r), ctx) == Ok(r);
  }

  // Every star-free expression folds, and the folded expression has the same value or the
  // same error in every context: overflow, division by zero, ill-typed operands and skipped
  // right operands included. Expressions with a star are refused.
  lemma {:induction false} FoldingPreservesEvaluation(e: BoundExpr, ctx: Context)
    ensures FoldExpression(e).Ok? <==> StarFree(e)
    ensures FoldExpression(e).Err? ==> FoldExpression(e) == Err(PlanError)
    ensures StarFree(e) ==> StarFree(FoldExpression(e).value) && Evaluate(FoldExpression(e).value, ctx) == Evaluate(e, ctx)
  {
    match e {
      case Unary(ty, op, operand) =>
        FoldingPreservesEvaluation(operand, ctx);
        if StarFree(operand) {
          FoldCurrentPreserves(Unary(ty, op, FoldExpression(operand).value), ctx);
        }
      case Binary(ty, left, op, right) =>
        FoldingPreservesEvaluation(left, ctx);
        FoldingPreservesEvaluation(right, ctx);
        if StarFree(left) && StarFree(right) {
          FoldCurrentPreserves(Binary(ty, FoldExpression(left).value, op, FoldExpression(right).value), ctx);
        }
      case _ =>
    }
  }

  // Folding a folded expression changes nothing.
  lemma {:induction false} FoldingIsIdempotent(e: BoundExpr)
    requires FoldExpression(e).Ok?
    ensures FoldExpression(FoldExpression(e).value) == FoldExpression(e)
  {
    match e {
      case Unary(ty, op, operand) =>
        FoldingIsIdempotent(operand);
      case Binary(ty, left, op, right) =>
        FoldingIsIdempotent(left);
        FoldingIsIdempotent(right);
      case _ =>
    }
  }

  // Columns stay columns and nothing becomes one, so derived output names do not change.
  lemma {:induction false} FoldingKeepsColumns(e: BoundExpr)
    requires FoldExpression(e).Ok?
    ensures e.Column? ==> FoldExpression(e).value == e
    ensures FoldExpression(e).value.Column? ==> FoldExpression(e).value == e
    ensures ColumnFree(e) ==> ColumnFree(FoldExpression(e).value)
  {
    match e {
      case Unary(_, _, operand) => FoldingKeepsColumns(operand);
      case Binary(_, left, _, right) => FoldingKeepsColumns(left); FoldingKeepsColumns(right);
      case _ =>
    }
  }

  // No operator is left whose operands are literals and that has a value, except AND and OR with
  // a left literal that decides and a right one that is no boolean.
  ghost predicate Normal(e: BoundExpr) {
    match e
    case Unary(_, _, x) => Normal(x) && (x.Literal? ==> Evaluate(e, NoRow).Err?)
    case Binary(_, l, op, r) =>
      && Normal(l) && Normal(r)
      && (l.Literal? && r.Literal? ==> Evaluate(e, NoRow).Err? || (IsLogical(op) && !r.value.Bool?))
    case _ => true
  }

  lemma LiteralsFold(e: BoundExpr)
    ensures e.Unary? && e.operand.Literal? && Evaluate(e, NoRow).Ok? ==> FoldCurrent(e).Literal?
    ensures e.Binary? && e.left.Literal? && e.right.Literal? && Evaluate(e, NoRow).Ok? ==>
              FoldCurrent(e).Literal? || (IsLogical(e.bop) && !e.right.value.Bool?)
    ensures FoldCurrent(e) == e || FoldCurrent(e).Literal?
  {
    hide FoldBinary;
    if e.Unary? && e.operand.Literal? {
      assert Evaluate(e.operand, NoRow) == Ok(e.operand.value);
    }
    if e.Binary? && e.left.Literal? && e.right.Literal? {
      var l, r := e.left.value, e.right.value;
      FoldBinaryIsEvaluation(e.bop, l, r, NoRow);
      SameValues(e.ty, e.left.ty, l, e.bop, e.right.ty, r);
    }
  }

  // Annotations do not matter for evaluation.
  lemma SameValues(ty: SqlType, lt: SqlType, l: Value, op: BinaryOperator, rt: SqlType, r: Value)
    ensures Evaluate(Binary(ty, Literal(lt, l), op, Literal(rt, r)), NoRow) ==
            Evaluate(Binary(NullType, MakeBoundLiteral(l), op, MakeBoundLiteral(r)), NoRow)
  {
    hide EvalStrict;
    assert Evaluate(Literal(lt, l), NoRow) == Ok(l) && Evaluate(Literal(rt, r), NoRow) == Ok(r);
    assert Evaluate(MakeBoundLiteral(l), NoRow) == Ok(l) && Evaluate(MakeBoundLiteral(r), NoRow) == Ok(r);
  }

  // Folding goes all the way.
  lemma {:induction false} FoldedIsNormal(e: BoundExpr)
    requires FoldExpression(e).Ok?
    ensures Normal(FoldExpression(e).value)
  {
    hide FoldCurrent, Evaluate;
    match e {
      case Unary(ty, op, x) =>
        FoldedIsNormal(x);
        LiteralsFold(Unary(ty, op, FoldExpression(x).value));
      case Binary(ty, l, op, r) =>
        FoldedIsNormal(l);
        FoldedIsNormal(r);
        LiteralsFold(Binary(ty, FoldExpression(l).value, op, FoldExpression(r).value));
      case _ =>
        LiteralsFold(e);
    }
  }
}
