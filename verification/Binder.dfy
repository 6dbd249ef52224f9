/**
  default_binder.cpp: names and types are resolved against the table the catalog returned.
  `found` is the catalog's answer for the statement's table name.
 */
module Binder {
  import opened Common
  import opened Expressions
  import opened Plans
  import opened QueryExecution
  import opened Parser

  // ---------------------------------------------------------------- columns

  // find('.', from): the length of the name when there is no dot.
  function DotAt(name: Text, from: nat): (k: nat)
    requires from <= |name|
    ensures from <= k <= |name|
    ensures k < |name| ==> name[k] == '.'
    ensures forall i :: from <= i < k ==> name[i] != '.'
    decreases |name| - from
  {
    if from == |name| || name[from] == '.' then from else DotAt(name, from + 1)
  }

  // Qualifier, empty when absent, and column.
  function SplitColumnName(name: Text): Result<(Text, Text)> {
    if name == [] then Err(BindError)
    else
      var dot := DotAt(name, 0);
      if dot == |name| then Ok(([], name))
      else if dot == 0 || dot + 1 == |name| || DotAt(name, dot + 1) < |name| then Err(BindError)
      else Ok((name[..dot], name[dot + 1..]))
  }

  // The first column with the folded name.
  function FindColumn(columns: TableSchema, key: Text): Option<ColumnSchema> {
    if columns == [] then None
    else if FoldIdentifierKey(columns[0].name) == key then Some(columns[0])
    else FindColumn(columns[1..], key)
  }

  function ResolveColumn(table: TableInfo, name: Text): Result<ColumnSchema> {
    var (qualifier, column) :- SplitColumnName(name);
    if qualifier != [] && FoldIdentifierKey(qualifier) != FoldIdentifierKey(table.name) then Err(BindError)
    else
      var found := FindColumn(table.schema, FoldIdentifierKey(column));
      if found.Some? then Ok(found.value) else Err(BindError)
  }

  function MakeBoundColumn(table: TableInfo, column: ColumnSchema): BoundExpr {
    Column(column.ty, table.id, column.id, table.name, column.name)
  }

  // ---------------------------------------------------------------- typing rules

  predicate IsBooleanIntegerLiteral(e: BoundExpr) {
    e.Literal? && e.ty == Integer && e.value.Int? && (e.value.i == 0 || e.value.i == 1)
  }

  predicate EqualityComparable(left: BoundExpr, right: BoundExpr) {
    || left.ty == NullType || right.ty == NullType
    || left.ty == right.ty
    || (left.ty == Boolean && IsBooleanIntegerLiteral(right))
    || (right.ty == Boolean && IsBooleanIntegerLiteral(left))
  }

  predicate OrderingComparable(left: SqlType, right: SqlType) {
    left == right && (left == Integer || left == SqlType.Text)
  }

  predicate OperandsFit(left: BoundExpr, op: BinaryOperator, right: BoundExpr) {
    if IsArithmetic(op) then left.ty == Integer && right.ty == Integer
    else if IsLogical(op) then left.ty == Boolean && right.ty == Boolean
    else if IsEquality(op) then EqualityComparable(left, right)
    else OrderingComparable(left.ty, right.ty)
  }

  function BinaryType(op: BinaryOperator): SqlType {
    if IsArithmetic(op) then Integer else Boolean
  }

  function UnaryType(op: UnaryOperator): SqlType {
    if op == Not then Boolean else Integer
  }

  // ---------------------------------------------------------------- expressions

  function BindExpression(e: Expr, table: Option<TableInfo>): Result<BoundExpr> {
    match e
    case IntegerLiteral(i) => Ok(Literal(Integer, Int(i)))
    case StringLiteral(s) => Ok(Literal(SqlType.Text, Str(s)))
    case BooleanLiteral(b) => Ok(Literal(Boolean, Bool(b)))
    case NullLiteral => Ok(Literal(NullType, Null))
    case ColumnRef(name) =>
      if table.None? then Err(BindError)
      else
        var column :- ResolveColumn(table.value, name);
        Ok(MakeBoundColumn(table.value, column))
    case UnaryExpr(op, operand) =>
      var bound :- BindExpression(operand, table);
      if bound.ty != UnaryType(op) then Err(TypeMismatch) else Ok(Unary(UnaryType(op), op, bound))
    case BinaryExpr(left, op, right) =>
      var l :- BindExpression(left, table);
      var r :- BindExpression(right, table);
      if OperandsFit(l, op, r) then Ok(Binary(BinaryType(op), l, op, r)) else Err(TypeMismatch)
    case StarExpr => Err(BindError)
  }

  // ---------------------------------------------------------------- SELECT

  function StarColumns(table: TableInfo): (es: seq<BoundExpr>)
    ensures |es| == |table.schema|
  {
    seq(|table.schema|, i requires 0 <= i < |table.schema| => MakeBoundColumn(table, table.schema[i]))
  }

  // Output expressions and their aliases; a star stands for all columns, under their names.
  datatype Projected = Projected(es: seq<BoundExpr>, names: seq<Text>)

  function BindProjection(p: SelectProjection, table: Option<TableInfo>): Result<Projected> {
    if p.expression.StarExpr? then
      if table.None? then Err(BindError) else Ok(Projected(StarColumns(table.value), ColumnNames(table.value.schema)))
    else
      var e :- BindExpression(p.expression, table);
      Ok(Projected([e], [p.alias]))
  }

  function BindProjections(ps: seq<SelectProjection>, table: Option<TableInfo>): Result<Projected> {
    if ps == [] then Ok(Projected([], []))
    else
      var first :- BindProjection(ps[0], table);
      var rest :- BindProjections(ps[1..], table);
      Ok(Projected(first.es + rest.es, first.names + rest.names))
  }

  function BindWhere(where: Option<Expr>, table: Option<TableInfo>): Result<Option<BoundExpr>> {
    if where.None? then Ok(None)
    else
      var e :- BindExpression(where.value, table);
      if e.ty != Boolean then Err(TypeMismatch) else Ok(Some(e))
  }

  // The table a SELECT reads, when it names one.
  function SelectTable(name: Text, found: Result<TableInfo>): Result<Option<TableInfo>> {
    if name == [] then Ok(None)
    else
      var table :- found;
      Ok(Some(table))
  }

  function BindSelect(s: Statement, found: Result<TableInfo>): Result<BoundStatement>
    requires s.SelectStatement?
  {
    var table :- SelectTable(s.tableName, found);
    var projected :- BindProjections(s.projections, table);
    var where :- BindWhere(s.where, table);
    Ok(BoundSelect(projected.es, projected.names, if table.Some? then table.value else NO_TABLE, where))
  }

  // ---------------------------------------------------------------- INSERT

  // A 0 or 1 literal becomes a boolean for a boolean column.
  function CoerceToColumn(e: BoundExpr, column: ColumnSchema): Result<BoundExpr> {
    if e.ty == NullType then
      if column.nullable then Ok(e) else Err(TypeMismatch)
    else if e.ty == column.ty then Ok(e)
    else if column.ty == Boolean && IsBooleanIntegerLiteral(e) then Ok(Literal(Boolean, Bool(e.value.i == 1)))
    else Err(TypeMismatch)
  }

  function BindValue(e: Expr, column: ColumnSchema): Result<BoundExpr> {
    var bound :- BindExpression(e, None);
    CoerceToColumn(bound, column)
  }

  function BindValues(es: seq<Expr>, columns: TableSchema): (r: Result<seq<BoundExpr>>)
    requires |es| == |columns|
    ensures r.Ok? ==> |r.value| == |es|
  {
    if es == [] then Ok([])
    else
      var first :- BindValue(es[0], columns[0]);
      var rest :- BindValues(es[1..], columns[1..]);
      Ok([first] + rest)
  }

  function BindInsertInto(s: Statement, found: Result<TableInfo>): Result<BoundStatement>
    requires s.InsertStatement?
  {
    var table :- found;
    if |s.values| != |table.schema| then Err(BindError)
    else
      var values :- BindValues(s.values, table.schema);
      Ok(BoundInsert(table, values))
  }

  // ---------------------------------------------------------------- CREATE TABLE

  function ToSqlType(ty: TypeName): SqlType {
    match ty
    case IntType => Integer
    case TextType => SqlType.Text
    case BoolType => Boolean
  }

  function DefinedColumn(c: ColumnDefinition, index: nat): ColumnSchema {
    ColumnSchema(c.name, ToSqlType(c.ty), true, index)
  }

  // Columns index.. of the definition list, given the folded names already seen.
  function BindColumns(cs: seq<ColumnDefinition>, index: nat, seen: set<Text>): Result<TableSchema>
    requires index <= |cs|
    decreases |cs| - index
  {
    if index == |cs| then Ok([])
    else if index > UINT32_MAX then Err(BindError)
    else if cs[index].name == [] then Err(BindError)
    else
      var key := FoldIdentifierKey(cs[index].name);
      if key in seen then Err(BindError)
      else
        var rest :- BindColumns(cs, index + 1, seen + {key});
        Ok([DefinedColumn(cs[index], index)] + rest)
  }

  function BindCreate(s: Statement, found: Result<TableInfo>): Result<BoundStatement>
    requires s.CreateTableStatement?
  {
    if s.tableName == [] then Err(BindError)
    else if s.columns == [] then Err(BindError)
    else if found.Ok? then Err(AlreadyExists)
    else if found.error != NotFound then Err(found.error)
    else
      var schema :- BindColumns(s.columns, 0, {});
      Ok(BoundCreateTable(CreateTableRequest(s.tableName, schema)))
  }

  function BindStatement(s: Statement, found: Result<TableInfo>): Result<BoundStatement> {
    match s
    case SelectStatement(_, _, _) => BindSelect(s, found)
    case InsertStatement(_, _) => BindInsertInto(s, found)
    case CreateTableStatement(_, _) => BindCreate(s, found)
  }

  // ---------------------------------------------------------------- the loops

  method ExpandStar(table: TableInfo) returns (p: Projected)
    ensures p == Projected(StarColumns(table), ColumnNames(table.schema))
  {
    var es: seq<BoundExpr> := [];
    var names: seq<Text> := [];
    for i := 0 to |table.schema|
      invariant es == StarColumns(table)[..i] && names == ColumnNames(table.schema)[..i]
    {
      es := es + [MakeBoundColumn(table, table.schema[i])];
      names := names + [table.schema[i].name];
    }
    return Projected(es, names);
  }

  // What the projection loop has so far, completed by the rest.
  function Joined(done: Projected, rest: Result<Projected>): (whole: Result<Projected>)
    ensures done == Projected([], []) ==> whole == rest
    ensures rest == Ok(Projected([], [])) ==> whole == Ok(done)
    ensures rest.Err? ==> whole == rest
  {
    if rest.Err? then rest
    else
      assert [] + rest.value.es == rest.value.es && [] + rest.value.names == rest.value.names;
      assert done.es + [] == done.es && done.names + [] == done.names;
      Ok(Projected(done.es + rest.value.es, done.names + rest.value.names))
  }

  lemma JoinedStep(done: Projected, x: Projected, rest: Result<Projected>)
    ensures Joined(Projected(done.es + x.es, done.names + x.names), rest) ==
            if rest.Err? then rest else Joined(done, Ok(Projected(x.es + rest.value.es, x.names + rest.value.names)))
  {
    if rest.Ok? {
      assert (done.es + x.es) + rest.value.es == done.es + (x.es + rest.value.es);
      assert (done.names + x.names) + rest.value.names == done.names + (x.names + rest.value.names);
    }
  }

  method BindProjectionList(ps: seq<SelectProjection>, table: Option<TableInfo>) returns (r: Result<Projected>)
    ensures r == BindProjections(ps, table)
  {
    hide BindExpression, Joined, StarColumns, ColumnNames;
    var done := Projected([], []);
    assert ps[0..] == ps;
    for i := 0 to |ps|
      invariant BindProjections(ps, table) == Joined(done, BindProjections(ps[i..], table))
    {
      assert ps[i..][0] == ps[i] && ps[i..][1..] == ps[i + 1..];
      var next: Projected;
      if ps[i].expression.StarExpr? {
        if table.None? { return Err(BindError); }
        next := ExpandStar(table.value);
      } else {
        var e := BindExpression(ps[i].expression, table);
        if e.Err? { return Err(e.error); }
        next := Projected([e.value], [ps[i].alias]);
      }
      assert BindProjection(ps[i], table) == Ok(next);
      JoinedStep(done, next, BindProjections(ps[i + 1..], table));
      done := Projected(done.es + next.es, done.names + next.names);
    }
    return Ok(done);
  }

  method BindSelectStatement(s: Statement, found: Result<TableInfo>) returns (r: Result<BoundStatement>)
    requires s.SelectStatement?
    ensures r == BindSelect(s, found)
  {
    hide BindExpression, BindProjections;
    var table: Option<TableInfo> := None;
    if s.tableName != [] {
      if found.Err? { return Err(found.error); }
      table := Some(found.value);
    }
    var projected := BindProjectionList(s.projections, table);
    if projected.Err? { return Err(projected.error); }
    var where: Option<BoundExpr> := None;
    if s.where.Some? {
      var e := BindExpression(s.where.value, table);
      if e.Err? { return Err(e.error); }
      if e.value.ty != Boolean { return Err(TypeMismatch); }
      where := Some(e.value);
    }
    return Ok(BoundSelect(projected.value.es, projected.value.names, if table.Some? then table.value else NO_TABLE, where));
  }

  method BindInsertStatement(s: Statement, found: Result<TableInfo>) returns (r: Result<BoundStatement>)
    requires s.InsertStatement?
    ensures r == BindInsertInto(s, found)
  {
    hide BindExpression, CoerceToColumn, Appended;
    if found.Err? { return Err(found.error); }
    var columns := found.value.schema;
    if |s.values| != |columns| { return Err(BindError); }
    var values: seq<BoundExpr> := [];
    assert s.values[0..] == s.values && columns[0..] == columns;
    for i := 0 to |s.values|
      invariant BindValues(s.values, columns) == Appended(values, BindValues(s.values[i..], columns[i..]))
    {
      assert s.values[i..][0] == s.values[i] && s.values[i..][1..] == s.values[i + 1..];
      assert columns[i..][0] == columns[i] && columns[i..][1..] == columns[i + 1..];
      var e := BindExpression(s.values[i], None);
      if e.Err? { return Err(e.error); }
      var coerced := CoerceToColumn(e.value, columns[i]);
      if coerced.Err? { return Err(coerced.error); }
      AppendedStep(values, [coerced.value], BindValues(s.values[i + 1..], columns[i + 1..]));
      values := values + [coerced.value];
    }
    return Ok(BoundInsert(found.value, values));
  }

  method BindCreateStatement(s: Statement, found: Result<TableInfo>) returns (r: Result<BoundStatement>)
    requires s.CreateTableStatement?
    ensures r == BindCreate(s, found)
  {
    hide FoldIdentifierKey, ToSqlType, Appended;
    if s.tableName == [] || s.columns == [] { return Err(BindError); }
    if found.Ok? { return Err(AlreadyExists); }
    if found.error != NotFound { return Err(found.error); }
    var schema: TableSchema := [];
    var names: set<Text> := {};
    var cs := s.columns;
    for index := 0 to |cs|
      invariant BindColumns(cs, 0, {}) == Appended(schema, BindColumns(cs, index, names))
    {
      if index > UINT32_MAX { return Err(BindError); }
      if cs[index].name == [] { return Err(BindError); }
      var key := FoldIdentifierKey(cs[index].name);
      if key in names { return Err(BindError); }
      AppendedStep(schema, [DefinedColumn(cs[index], index)], BindColumns(cs, index + 1, names + {key}));
      names := names + {key};
      schema := schema + [DefinedColumn(cs[index], index)];
    }
    return Ok(BoundCreateTable(CreateTableRequest(s.tableName, schema)));
  }

  method Bind(s: Statement, found: Result<TableInfo>) returns (r: Result<BoundStatement>)
    ensures r == BindStatement(s, found)
  {
    match s
    case SelectStatement(_, _, _) => r := BindSelectStatement(s, found);
    case InsertStatement(_, _) => r := BindInsertStatement(s, found);
    case CreateTableStatement(_, _) => r := BindCreateStatement(s, found);
  }
}
