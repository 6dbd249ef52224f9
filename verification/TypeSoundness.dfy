/**
  What the binder's annotations promise. WellTyped is the typing judgement, stated on the bound
  tree alone; Mirrors says which source expression a bound tree stands for. The binder accepts
  exactly the well-typed mirrors, and well-typed trees evaluate to values of their type.
 */
module TypeSoundness {
  import opened Common
  import opened Expressions
  import opened ConstantFolding
  import opened Plans
  import opened Parser
  import opened Binder

  // ---------------------------------------------------------------- the judgement

  predicate ZeroOrOne(e: BoundExpr) {
    e == Literal(Integer, Int(0)) || e == Literal(Integer, Int(1))
  }

  // Which operands an operator takes: arithmetic is on integers and logic on booleans;
  // equality is on one type, on NULL, or on a boolean and 0 or 1; order is on integers or texts.
  predicate Admits(l: BoundExpr, op: BinaryOperator, r: BoundExpr) {
    match op
    case Add | Subtract | Multiply | Divide => l.ty == Integer && r.ty == Integer
    case And | Or => l.ty == Boolean && r.ty == Boolean
    case Equal | NotEqual =>
      l.ty == r.ty || l.ty == NullType || r.ty == NullType || (l.ty == Boolean && ZeroOrOne(r)) || (ZeroOrOne(l) && r.ty == Boolean)
    case Less | LessEqual | Greater | GreaterEqual => l.ty == r.ty && (l.ty == Integer || l.ty == SqlType.Text)
  }

  // Which type an operator gives.
  function Gives(op: BinaryOperator): SqlType {
    match op
    case Add | Subtract | Multiply | Divide => Integer
    case _ => Boolean
  }

  // The one type a unary operator takes and gives.
  function Takes(op: UnaryOperator): SqlType {
    match op
    case Plus | Minus => Integer
    case Not => Boolean
  }

  ghost predicate WellTyped(e: BoundExpr, schema: TableSchema) {
    match e
    case Literal(ty, v) => ty == ValueTypeOf(v)
    case Column(ty, _, id, _, _) => id < |schema| && schema[id].ty == ty && ty != NullType
    case Unary(ty, op, x) => WellTyped(x, schema) && x.ty == Takes(op) && ty == Takes(op)
    case Binary(ty, l, op, r) => WellTyped(l, schema) && WellTyped(r, schema) && Admits(l, op, r) && ty == Gives(op)
    case Star(_) => false
  }

  // The binder's rules are that table.
  lemma TypingRules(l: BoundExpr, bop: BinaryOperator, r: BoundExpr, uop: UnaryOperator)
    requires l.Literal? ==> l.ty == ValueTypeOf(l.value)
    requires r.Literal? ==> r.ty == ValueTypeOf(r.value)
    ensures OperandsFit(l, bop, r) <==> Admits(l, bop, r)
    ensures BinaryType(bop) == Gives(bop) && UnaryType(uop) == Takes(uop)
  {
  }

  predicate NoNulls(row: Row) {
    forall i :: 0 <= i < |row| ==> !row[i].Null?
  }

  // The expressions whose value may be NULL.
  predicate MayBeNull(e: BoundExpr) {
    e.Column? || (e.Literal? && e.value.Null?)
  }

  // ---------------------------------------------------------------- evaluation

  // The outcome has the type, or is a NULL where one is allowed.
  predicate Fits(v: Value, e: BoundExpr) {
    ValueTypeOf(v) == e.ty || (v.Null? && MayBeNull(e))
  }

  lemma UnaryFits(op: UnaryOperator, v: Value, r: Result<Value>)
    requires r == EvalUnary(op, v)
    ensures r.Ok? ==> ValueTypeOf(r.value) == Takes(op)
    ensures ValueTypeOf(v) == Takes(op) && r.Err? ==> r.error == ExecutionError
  {
  }

  lemma StrictFits(op: BinaryOperator, l: Value, r: Value)
    requires !IsLogical(op)
    ensures EvalStrict(op, l, r).Ok? ==> ValueTypeOf(EvalStrict(op, l, r).value) == Gives(op)
  {
  }

  // Operands of comparable types never mismatch, even when both are NULL literals.
  lemma StrictNeverMismatches(left: BoundExpr, op: BinaryOperator, right: BoundExpr, l: Value, r: Value)
    requires !IsLogical(op) && Admits(left, op, right)
    requires ValueTypeOf(l) == left.ty && ValueTypeOf(r) == right.ty
    ensures EvalStrict(op, l, r).Err? ==> EvalStrict(op, l, r).error == ExecutionError
  {
  }

  // Whatever the row holds, a successful result has the annotated type, or is NULL and the
  // expression is a bare column or a NULL literal.
  lemma {:induction false} ResultsFitTheirType(e: BoundExpr, schema: TableSchema, row: Row)
    requires WellTyped(e, schema) && Conforms(schema, row)
    requires Evaluate(e, RowContext(|schema|, row)).Ok?
    ensures Fits(Evaluate(e, RowContext(|schema|, row)).value, e)
  {
    hide EvalUnary, EvalStrict, Admits;
    var ctx := RowContext(|schema|, row);
    match e {
      case Unary(_, op, x) =>
        UnaryFits(op, Evaluate(x, ctx).value, Evaluate(e, ctx));
      case Binary(_, l, op, r) =>
        if !IsLogical(op) {
          StrictFits(op, Evaluate(l, ctx).value, Evaluate(r, ctx).value);
        }
      case _ =>
    }
  }

  // On a row without NULLs a well-typed expression has a value of its type or fails with an
  // execution error (overflow, division by zero); it never reports a type mismatch.
  lemma {:induction false} WellTypedNeverMismatches(e: BoundExpr, schema: TableSchema, row: Row)
    requires WellTyped(e, schema) && Conforms(schema, row) && NoNulls(row)
    ensures var r := Evaluate(e, RowContext(|schema|, row));
            if r.Ok? then ValueTypeOf(r.value) == e.ty else r.error == ExecutionError
  {
    hide EvalUnary, EvalStrict, Admits;
    var ctx := RowContext(|schema|, row);
    match e {
      case Unary(_, op, x) =>
        WellTypedNeverMismatches(x, schema, row);
        if Evaluate(x, ctx).Ok? {
          UnaryFits(op, Evaluate(x, ctx).value, Evaluate(e, ctx));
        }
      case Binary(_, l, op, r) =>
        WellTypedNeverMismatches(l, schema, row);
        WellTypedNeverMismatches(r, schema, row);
        if IsLogical(op) {
          LogicalOperands(l, op, r);
        } else if Evaluate(l, ctx).Ok? && Evaluate(r, ctx).Ok? {
          StrictFits(op, Evaluate(l, ctx).value, Evaluate(r, ctx).value);
          StrictNeverMismatches(l, op, r, Evaluate(l, ctx).value, Evaluate(r, ctx).value);
        }
      case _ =>
    }
  }

  lemma LogicalOperands(l: BoundExpr, op: BinaryOperator, r: BoundExpr)
    requires IsLogical(op) && Admits(l, op, r)
    ensures l.ty == Boolean && r.ty == Boolean
  {
  }

  // Expressions without columns need no row at all.
  lemma {:induction false} RowIsIrrelevant(e: BoundExpr, ctx: Context)
    requires ColumnFree(e)
    ensures Evaluate(e, ctx) == Evaluate(e, NoRow)
  {
    match e {
      case Unary(_, _, x) => RowIsIrrelevant(x, ctx);
      case Binary(_, l, _, r) => RowIsIrrelevant(l, ctx); RowIsIrrelevant(r, ctx);
      case _ =>
    }
  }

  lemma {:induction false} WellTypedOverNothing(e: BoundExpr, schema: TableSchema)
    requires WellTyped(e, [])
    ensures ColumnFree(e) && StarFree(e) && WellTyped(e, schema)
  {
    match e {
      case Unary(_, _, x) => WellTypedOverNothing(x, schema);
      case Binary(_, l, _, r) => WellTypedOverNothing(l, schema); WellTypedOverNothing(r, schema);
      case _ =>
    }
  }

  lemma {:induction false} WellTypedIsStarFree(e: BoundExpr, schema: TableSchema)
    requires WellTyped(e, schema)
    ensures StarFree(e)
  {
    match e {
      case Unary(_, _, x) => WellTypedIsStarFree(x, schema);
      case Binary(_, l, _, r) => WellTypedIsStarFree(l, schema); WellTypedIsStarFree(r, schema);
      case _ =>
    }
  }

  // ---------------------------------------------------------------- folding

  lemma FoldUnaryKeepsType(op: UnaryOperator, v: Value)
    ensures FoldUnary(op, v).Some? ==> ValueTypeOf(FoldUnary(op, v).value) == Takes(op)
  {
  }

  lemma FoldBinaryKeepsType(op: BinaryOperator, l: Value, r: Value)
    ensures FoldBinary(op, l, r).Some? ==> ValueTypeOf(FoldBinary(op, l, r).value) == Gives(op)
  {
  }

  // Folding an operand keeps what the typing rules look at.
  predicate SameOperand(a: BoundExpr, b: BoundExpr) {
    a.ty == b.ty && (a.Literal? ==> a == b)
  }

  lemma OperandsStillFit(l: BoundExpr, op: BinaryOperator, r: BoundExpr, l1: BoundExpr, r1: BoundExpr)
    requires Admits(l, op, r) && SameOperand(l, l1) && SameOperand(r, r1)
    ensures Admits(l1, op, r1)
  {
  }

  // Folding keeps every expression well typed and keeps its annotation.
  lemma {:induction false} FoldingPreservesTyping(e: BoundExpr, schema: TableSchema)
    requires WellTyped(e, schema)
    ensures FoldExpression(e).Ok? && WellTyped(FoldExpression(e).value, schema) && SameOperand(e, FoldExpression(e).value)
  {
    hide FoldUnary, FoldBinary, Admits;
    match e {
      case Unary(ty, op, x) =>
        FoldingPreservesTyping(x, schema);
        var inner := FoldExpression(x).value;
        if inner.Literal? {
          FoldUnaryKeepsType(op, inner.value);
        }
      case Binary(ty, l, op, r) =>
        FoldingPreservesTyping(l, schema);
        FoldingPreservesTyping(r, schema);
        var l1, r1 := FoldExpression(l).value, FoldExpression(r).value;
        OperandsStillFit(l, op, r, l1, r1);
        if l1.Literal? && r1.Literal? {
          FoldBinaryKeepsType(op, l1.value, r1.value);
        }
      case _ =>
    }
  }

  // ---------------------------------------------------------------- what a name denotes

  predicate DotFree(name: Text) {
    forall i :: 0 <= i < |name| ==> name[i] != '.'
  }

  // The name is the column's, or the table's and the column's joined by a dot, up to case.
  ghost predicate Denotes(name: Text, table: Text, column: Text) {
    || (name != [] && DotFree(name) && FoldIdentifierKey(name) == FoldIdentifierKey(column))
    || exists d :: QualifiedAt(name, d, table, column)
  }

  predicate QualifiedAt(name: Text, d: int, table: Text, column: Text) {
    && 0 < d < |name| - 1 && name[d] == '.' && DotFree(name[..d]) && DotFree(name[d + 1..])
    && FoldIdentifierKey(name[..d]) == FoldIdentifierKey(table)
    && FoldIdentifierKey(name[d + 1..]) == FoldIdentifierKey(column)
  }

  lemma {:induction false} FindColumnFinds(columns: TableSchema, key: Text)
    ensures var r := FindColumn(columns, key);
            && (r.Some? ==> r.value in columns && FoldIdentifierKey(r.value.name) == key)
            && (r.None? ==> forall c :: c in columns ==> FoldIdentifierKey(c.name) != key)
  {
    hide FoldIdentifierKey;
    if columns != [] {
      FindColumnFinds(columns[1..], key);
    }
  }

  lemma SplitExactly(name: Text, qualifier: Text, column: Text)
    ensures SplitColumnName(name) == Ok((qualifier, column)) <==>
            || (qualifier == [] && column == name != [] && DotFree(name))
            || (qualifier != [] && column != [] && DotFree(qualifier) && DotFree(column) && name == qualifier + "." + column)
  {
    if name != [] {
      var dot := DotAt(name, 0);
      if qualifier != [] && column != [] && DotFree(qualifier) && DotFree(column) && name == qualifier + "." + column {
        SplitJoined(name, qualifier, column);
      } else if 0 < dot < |name| - 1 {
        assert name == name[..dot] + "." + name[dot + 1..];
        DotFreeTail(name, dot + 1);
      } else if dot == |name| {
        assert DotFree(name);
      }
    }
  }

  lemma DotFreeTail(name: Text, from: nat)
    requires from <= |name|
    ensures DotAt(name, from) == |name| <==> DotFree(name[from..])
  {
    var tail := name[from..];
    assert forall i :: 0 <= i < |tail| ==> tail[i] == name[from + i];
    if DotAt(name, from) < |name| {
      assert tail[DotAt(name, from) - from] == '.';
    }
  }

  lemma SplitJoined(name: Text, qualifier: Text, column: Text)
    requires qualifier != [] && column != [] && DotFree(qualifier) && DotFree(column) && name == qualifier + "." + column
    ensures SplitColumnName(name) == Ok((qualifier, column))
  {
    var d := |qualifier|;
    assert name[d] == '.' && name[..d] == qualifier && name[d + 1..] == column;
    assert forall i :: 0 <= i < d ==> name[i] == qualifier[i];
    assert DotAt(name, 0) == d;
    DotFreeTail(name, d + 1);
  }

  lemma DenotesSplit(name: Text, table: Text, column: Text)
    ensures Denotes(name, table, column) <==>
            exists q, c ::
              && SplitColumnName(name) == Ok((q, c)) && FoldIdentifierKey(c) == FoldIdentifierKey(column)
              && (q == [] || FoldIdentifierKey(q) == FoldIdentifierKey(table))
  {
    hide FoldIdentifierKey, SplitColumnName;
    if name != [] && DotFree(name) && FoldIdentifierKey(name) == FoldIdentifierKey(column) {
      SplitExactly(name, [], name);
    }
    forall d | QualifiedAt(name, d, table, column) ensures SplitColumnName(name) == Ok((name[..d], name[d + 1..])) {
      assert name == name[..d] + "." + name[d + 1..];
      SplitExactly(name, name[..d], name[d + 1..]);
    }
    forall q, c | SplitColumnName(name) == Ok((q, c)) && FoldIdentifierKey(c) == FoldIdentifierKey(column)
                  && (q == [] || FoldIdentifierKey(q) == FoldIdentifierKey(table))
      ensures Denotes(name, table, column)
    {
      SplitExactly(name, q, c);
      if q != [] {
        assert name[..|q|] == q && name[|q| + 1..] == c;
        assert QualifiedAt(name, |q|, table, column);
      }
    }
  }

  // A name resolves to a column exactly when it denotes it.
  lemma ResolvesExactly(table: TableInfo, name: Text, column: ColumnSchema)
    requires WellFormedSchema(table.schema)
    ensures ResolveColumn(table, name) == Ok(column) <==> column in table.schema && Denotes(name, table.name, column.name)
    ensures ResolveColumn(table, name).Err? ==> ResolveColumn(table, name).error == BindError
  {
    hide FoldIdentifierKey, SplitColumnName, FindColumn, Denotes;
    SplitFails(name);
    DenotesSplit(name, table.name, column.name);
    var split := SplitColumnName(name);
    if split.Ok? {
      var (q, c) := split.value;
      FindColumnFinds(table.schema, FoldIdentifierKey(c));
    }
  }

  lemma SplitFails(name: Text)
    ensures SplitColumnName(name).Err? ==> SplitColumnName(name).error == BindError
  {
  }

  // ---------------------------------------------------------------- which tree the binder builds

  // The bound tree stands for the column of the table.
  predicate IsColumnOf(b: BoundExpr, table: TableInfo, c: ColumnSchema) {
    b == Column(c.ty, table.id, c.id, table.name, c.name)
  }

  // The bound tree has the source's shape, operators and literals, and its columns are the
  // ones the names denote.
  ghost predicate Mirrors(e: Expr, b: BoundExpr, table: Option<TableInfo>) {
    match e
    case IntegerLiteral(i) => b.Literal? && b.value == Int(i)
    case StringLiteral(s) => b.Literal? && b.value == Str(s)
    case BooleanLiteral(x) => b.Literal? && b.value == Bool(x)
    case NullLiteral => b.Literal? && b.value == Null
    case ColumnRef(name) =>
      table.Some? && exists c :: c in table.value.schema && Denotes(name, table.value.name, c.name) && IsColumnOf(b, table.value, c)
    case UnaryExpr(op, x) => b.Unary? && b.op == op && Mirrors(x, b.operand, table)
    case BinaryExpr(l, op, r) => b.Binary? && b.bop == op && Mirrors(l, b.left, table) && Mirrors(r, b.right, table)
    case StarExpr => false
  }

  function SchemaOf(table: Option<TableInfo>): TableSchema {
    if table.Some? then table.value.schema else []
  }

  lemma ColumnBindsExactly(name: Text, b: BoundExpr, table: TableInfo)
    requires WellFormedSchema(table.schema)
    ensures BindExpression(ColumnRef(name), Some(table)) == Ok(b) <==>
            exists c :: c in table.schema && Denotes(name, table.name, c.name) && IsColumnOf(b, table, c)
    ensures BindExpression(ColumnRef(name), Some(table)) == Ok(b) ==> WellTyped(b, table.schema)
  {
    hide ResolveColumn, Denotes;
    var r := ResolveColumn(table, name);
    if r.Ok? {
      ResolvesExactly(table, name, r.value);
    }
    forall c | c in table.schema && Denotes(name, table.name, c.name) ensures r == Ok(c) {
      ResolvesExactly(table, name, c);
    }
  }

  // The binder accepts exactly the well-typed mirrors of the source expression: its result is
  // determined by the names and the typing rules, and it rejects only what they reject.
  lemma {:induction false} BindingIsExact(e: Expr, b: BoundExpr, table: Option<TableInfo>)
    requires WellFormedSchema(SchemaOf(table))
    ensures BindExpression(e, table) == Ok(b) <==> Mirrors(e, b, table) && WellTyped(b, SchemaOf(table))
    decreases e, 1
  {
    hide Admits, ResolveColumn, Denotes, WellFormedSchema;
    match e {
      case ColumnRef(name) =>
        if table.Some? {
          ColumnBindsExactly(name, b, table.value);
        }
      case UnaryExpr(op, x) =>
        if BindExpression(x, table).Ok? {
          BindingIsExact(x, BindExpression(x, table).value, table);
        }
        if b.Unary? {
          BindingIsExact(x, b.operand, table);
        }
      case BinaryExpr(l, op, r) =>
        BinaryBindsExactly(e, b, table);
      case _ =>
    }
  }

  // Operands that are well typed are bound as the table says.
  lemma OperandsFitExactly(l: BoundExpr, op: BinaryOperator, r: BoundExpr, schema: TableSchema)
    requires WellTyped(l, schema) && WellTyped(r, schema)
    ensures OperandsFit(l, op, r) <==> Admits(l, op, r)
  {
    hide OperandsFit, Admits;
    TypingRules(l, op, r, Not);
  }

  lemma {:induction false} BinaryBindsExactly(e: Expr, b: BoundExpr, table: Option<TableInfo>)
    requires WellFormedSchema(SchemaOf(table)) && e.BinaryExpr?
    ensures BindExpression(e, table) == Ok(b) <==> Mirrors(e, b, table) && WellTyped(b, SchemaOf(table))
    decreases e, 0
  {
    hide Admits, OperandsFit, ResolveColumn, Denotes, WellFormedSchema;
    if BindExpression(e.left, table).Ok? && BindExpression(e.right, table).Ok? {
      var l, r := BindExpression(e.left, table).value, BindExpression(e.right, table).value;
      BindingIsExact(e.left, l, table);
      BindingIsExact(e.right, r, table);
      OperandsFitExactly(l, e.bop, r, SchemaOf(table));
    }
    if b.Binary? {
      BindingIsExact(e.left, b.left, table);
      BindingIsExact(e.right, b.right, table);
    }
  }

  // ---------------------------------------------------------------- which trees it refuses

  ghost predicate Reads(e: Expr, b: BoundExpr, table: Option<TableInfo>) {
    Mirrors(e, b, table) && WellTyped(b, SchemaOf(table))
  }

  // The first fault from the left, operands before their operator: a name that denotes no
  // column or a star, or operands an operator does not take.
  ghost predicate FaultIs(e: Expr, table: Option<TableInfo>, fault: ErrorCode) {
    match e
    case StarExpr => fault == BindError
    case ColumnRef(name) =>
      fault == BindError && (table.None? || forall c :: c in table.value.schema ==> !Denotes(name, table.value.name, c.name))
    case UnaryExpr(op, x) =>
      FaultIs(x, table, fault) || (fault == TypeMismatch && exists b :: Reads(x, b, table) && b.ty != Takes(op))
    case BinaryExpr(l, op, r) =>
      || FaultIs(l, table, fault)
      || (FaultIs(r, table, fault) && exists b :: Reads(l, b, table))
      || (fault == TypeMismatch && exists b, c :: Reads(l, b, table) && Reads(r, c, table) && !Admits(b, op, c))
    case _ => false
  }

  lemma NameFault(name: Text, table: Option<TableInfo>, fault: ErrorCode)
    requires WellFormedSchema(SchemaOf(table))
    ensures BindExpression(ColumnRef(name), table) == Err(fault) <==> FaultIs(ColumnRef(name), table, fault)
  {
    hide ResolveColumn, Denotes, WellFormedSchema;
    if table.Some? {
      var r := ResolveColumn(table.value, name);
      forall c | c in table.value.schema ensures Denotes(name, table.value.name, c.name) <==> r == Ok(c) {
        ResolvesExactly(table.value, name, c);
      }
      ResolvesExactly(table.value, name, if r.Ok? then r.value else ColumnSchema([], Integer, true, 0));
    }
  }

  // The binder refuses an expression exactly for its first fault, with that error code.
  lemma {:induction false} RejectionIsExact(e: Expr, table: Option<TableInfo>, fault: ErrorCode)
    requires WellFormedSchema(SchemaOf(table))
    ensures BindExpression(e, table) == Err(fault) <==> FaultIs(e, table, fault)
    decreases e, 1
  {
    hide OperandsFit, Admits, ResolveColumn, Denotes, WellFormedSchema, Mirrors, WellTyped;
    match e {
      case ColumnRef(name) => NameFault(name, table, fault);
      case UnaryExpr(op, x) =>
        RejectionIsExact(x, table, fault);
        forall b ensures Reads(x, b, table) <==> BindExpression(x, table) == Ok(b) {
          BindingIsExact(x, b, table);
        }
      case BinaryExpr(l, op, r) => BinaryFault(e, table, fault);
      case _ =>
    }
  }

  lemma {:induction false} BinaryFault(e: Expr, table: Option<TableInfo>, fault: ErrorCode)
    requires WellFormedSchema(SchemaOf(table)) && e.BinaryExpr?
    ensures BindExpression(e, table) == Err(fault) <==> FaultIs(e, table, fault)
    decreases e, 0
  {
    hide OperandsFit, Admits, ResolveColumn, Denotes, WellFormedSchema, Mirrors, WellTyped;
    RejectionIsExact(e.left, table, fault);
    RejectionIsExact(e.right, table, fault);
    forall b ensures Reads(e.left, b, table) <==> BindExpression(e.left, table) == Ok(b) {
      BindingIsExact(e.left, b, table);
    }
    forall b ensures Reads(e.right, b, table) <==> BindExpression(e.right, table) == Ok(b) {
      BindingIsExact(e.right, b, table);
    }
    if BindExpression(e.left, table).Ok? && BindExpression(e.right, table).Ok? {
      var l, r := BindExpression(e.left, table).value, BindExpression(e.right, table).value;
      assert Reads(e.left, l, table) && Reads(e.right, r, table);
      OperandsFitExactly(l, e.bop, r, SchemaOf(table));
    }
  }
}
