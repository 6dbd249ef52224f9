/**
  What whole statements mean, said without the binder and the executor: which bound statement a
  parsed one reads as, or which fault it has, and which answer a SELECT gives over a list of
  rows. Binder and evaluator are then shown to follow exactly this description.
 */
module StatementMeaning {
  import opened Common
  import opened Expressions
  import opened Meaning
  import opened Plans
  import opened QueryExecution
  import opened Parser
  import opened Binder
  import opened TypeSoundness
  import opened BoundStatements
  import opened Engine

  // What the binder accepts, as a statement about readings.
  lemma ReadsExactly(e: Expr, b: BoundExpr, table: Option<TableInfo>)
    requires WellFormedSchema(SchemaOf(table))
    ensures Reads(e, b, table) <==> BindExpression(e, table) == Ok(b)
  {
    hide Mirrors, WellTyped, BindExpression, WellFormedSchema;
    BindingIsExact(e, b, table);
  }

  // ---------------------------------------------------------------- reading a SELECT

  // All columns of the table in order, under their names.
  ghost predicate ColumnsOf(es: seq<BoundExpr>, names: seq<Text>, table: TableInfo) {
    && |es| == |table.schema| && |names| == |table.schema|
    && forall i :: 0 <= i < |es| ==> IsColumnOf(es[i], table, table.schema[i]) && names[i] == table.schema[i].name
  }

  // A star gives the table's columns, anything else one output under its alias.
  ghost predicate ProjectionReads(p: SelectProjection, table: Option<TableInfo>, es: seq<BoundExpr>, names: seq<Text>) {
    if p.expression.StarExpr? then table.Some? && ColumnsOf(es, names, table.value)
    else |es| == 1 && Reads(p.expression, es[0], table) && names == [p.alias]
  }

  ghost predicate ProjectionFault(p: SelectProjection, table: Option<TableInfo>, fault: ErrorCode) {
    if p.expression.StarExpr? then table.None? && fault == BindError else FaultIs(p.expression, table, fault)
  }

  ghost function Width(p: SelectProjection, table: Option<TableInfo>): nat {
    if p.expression.StarExpr? then |SchemaOf(table)| else 1
  }

  // The output list, projection by projection in source order.
  ghost predicate ListReads(ps: seq<SelectProjection>, table: Option<TableInfo>, es: seq<BoundExpr>, names: seq<Text>)
    decreases |ps|
  {
    if ps == [] then es == [] && names == []
    else
      var n := Width(ps[0], table);
      && n <= |es| && n <= |names| && ProjectionReads(ps[0], table, es[..n], names[..n])
      && ListReads(ps[1..], table, es[n..], names[n..])
  }

  // The first fault from the left.
  ghost predicate ListFault(ps: seq<SelectProjection>, table: Option<TableInfo>, fault: ErrorCode)
    decreases |ps|
  {
    ps != [] &&
    if exists f :: ProjectionFault(ps[0], table, f) then ProjectionFault(ps[0], table, fault)
    else ListFault(ps[1..], table, fault)
  }

  // A condition is there exactly when the source has one.
  ghost predicate WhereReads(where: Option<Expr>, table: Option<TableInfo>, bound: Option<BoundExpr>) {
    && (where.Some? <==> bound.Some?)
    && (where.Some? ==> Reads(where.value, bound.value, table) && bound.value.ty == Boolean)
  }

  ghost predicate WhereFault(where: Option<Expr>, table: Option<TableInfo>, fault: ErrorCode) {
    where.Some? &&
    (FaultIs(where.value, table, fault) || (fault == TypeMismatch && exists b :: Reads(where.value, b, table) && b.ty != Boolean))
  }

  function SourceTable(s: Statement, found: Result<TableInfo>): Option<TableInfo> {
    if s.tableName == [] || found.Err? then None else Some(found.value)
  }

  ghost predicate SelectReads(s: Statement, found: Result<TableInfo>, b: BoundStatement)
    requires s.SelectStatement?
  {
    var table := SourceTable(s, found);
    && b.BoundSelect? && (s.tableName != [] ==> found.Ok?)
    && b.table == (if table.Some? then table.value else NO_TABLE)
    && ListReads(s.projections, table, b.projections, b.names)
    && WhereReads(s.where, table, b.where)
  }

  ghost predicate SelectFault(s: Statement, found: Result<TableInfo>, fault: ErrorCode)
    requires s.SelectStatement?
  {
    var table := SourceTable(s, found);
    if s.tableName != [] && found.Err? then fault == found.error
    else if exists f :: ListFault(s.projections, table, f) then ListFault(s.projections, table, fault)
    else WhereFault(s.where, table, fault)
  }

  lemma StarIsColumns(table: TableInfo, es: seq<BoundExpr>, names: seq<Text>)
    ensures ColumnsOf(es, names, table) <==> es == StarColumns(table) && names == ColumnNames(table.schema)
  {
  }

  lemma ProjectionBindsExactly(p: SelectProjection, table: Option<TableInfo>, es: seq<BoundExpr>, names: seq<Text>, fault: ErrorCode)
    requires WellFormedSchema(SchemaOf(table))
    ensures BindProjection(p, table) == Ok(Projected(es, names)) <==> ProjectionReads(p, table, es, names)
    ensures BindProjection(p, table) == Err(fault) <==> ProjectionFault(p, table, fault)
    ensures ProjectionReads(p, table, es, names) ==> |es| == Width(p, table) && |names| == Width(p, table)
  {
    hide BindExpression, Mirrors, WellTyped, FaultIs, WellFormedSchema, StarColumns, ColumnNames, IsColumnOf;
    if p.expression.StarExpr? {
      if table.Some? {
        StarIsColumns(table.value, es, names);
      }
    } else {
      RejectionIsExact(p.expression, table, fault);
      if |es| == 1 {
        assert es == [es[0]];
        BindingIsExact(p.expression, es[0], table);
      }
    }
  }

  lemma {:induction false} ListBindsExactly(ps: seq<SelectProjection>, table: Option<TableInfo>, es: seq<BoundExpr>, names: seq<Text>)
    requires WellFormedSchema(SchemaOf(table))
    ensures BindProjections(ps, table) == Ok(Projected(es, names)) <==> ListReads(ps, table, es, names)
    decreases |ps|
  {
    hide BindProjection, ProjectionReads, Width, WellFormedSchema;
    if ps != [] {
      var n := Width(ps[0], table);
      if n <= |es| && n <= |names| {
        ProjectionBindsExactly(ps[0], table, es[..n], names[..n], BindError);
        ListBindsExactly(ps[1..], table, es[n..], names[n..]);
        assert es[..n] + es[n..] == es && names[..n] + names[n..] == names;
      }
      var first, rest := BindProjection(ps[0], table), BindProjections(ps[1..], table);
      if first.Ok? && rest.Ok? {
        ProjectionBindsExactly(ps[0], table, first.value.es, first.value.names, BindError);
        var all := Projected(first.value.es + rest.value.es, first.value.names + rest.value.names);
        assert all.es[..n] == first.value.es && all.es[n..] == rest.value.es;
        assert all.names[..n] == first.value.names && all.names[n..] == rest.value.names;
      }
    }
  }

  lemma {:induction false} ListFaultsExactly(ps: seq<SelectProjection>, table: Option<TableInfo>, fault: ErrorCode)
    requires WellFormedSchema(SchemaOf(table))
    ensures BindProjections(ps, table) == Err(fault) <==> ListFault(ps, table, fault)
    decreases |ps|
  {
    hide BindProjection, ProjectionFault, WellFormedSchema;
    if ps != [] {
      forall f ensures ProjectionFault(ps[0], table, f) <==> BindProjection(ps[0], table) == Err(f) {
        ProjectionBindsExactly(ps[0], table, [], [], f);
      }
      ListFaultsExactly(ps[1..], table, fault);
    }
  }

  lemma WhereBindsExactly(where: Option<Expr>, table: Option<TableInfo>, bound: Option<BoundExpr>, fault: ErrorCode)
    requires WellFormedSchema(SchemaOf(table))
    ensures BindWhere(where, table) == Ok(bound) <==> WhereReads(where, table, bound)
    ensures BindWhere(where, table) == Err(fault) <==> WhereFault(where, table, fault)
  {
    hide BindExpression, Mirrors, WellTyped, FaultIs, WellFormedSchema;
    if where.Some? {
      RejectionIsExact(where.value, table, fault);
      forall b ensures Reads(where.value, b, table) <==> BindExpression(where.value, table) == Ok(b) {
        BindingIsExact(where.value, b, table);
      }
    }
  }

  // The binder accepts a SELECT exactly as the statement that it reads as, and refuses it
  // exactly for its first fault.
  lemma SelectBindsExactly(s: Statement, found: Result<TableInfo>, b: BoundStatement, fault: ErrorCode)
    requires s.SelectStatement? && (found.Ok? ==> WellFormedSchema(found.value.schema))
    ensures BindSelect(s, found) == Ok(b) <==> SelectReads(s, found, b)
    ensures BindSelect(s, found) == Err(fault) <==> SelectFault(s, found, fault)
  {
    hide BindSelect, SelectReads, SelectFault, WellFormedSchema;
    SelectAccepts(s, found, b);
    SelectRefuses(s, found, fault);
  }

  lemma SelectAccepts(s: Statement, found: Result<TableInfo>, b: BoundStatement)
    requires s.SelectStatement? && (found.Ok? ==> WellFormedSchema(found.value.schema))
    ensures BindSelect(s, found) == Ok(b) <==> SelectReads(s, found, b)
  {
    hide BindProjections, BindWhere, ListReads, WhereReads, WellFormedSchema;
    var table := SourceTable(s, found);
    EmptySchema();
    var list, where := BindProjections(s.projections, table), BindWhere(s.where, table);
    if b.BoundSelect? {
      ListBindsExactly(s.projections, table, b.projections, b.names);
      WhereBindsExactly(s.where, table, b.where, BindError);
    }
    if list.Ok? && where.Ok? {
      ListBindsExactly(s.projections, table, list.value.es, list.value.names);
      WhereBindsExactly(s.where, table, where.value, BindError);
    }
  }

  lemma SelectRefuses(s: Statement, found: Result<TableInfo>, fault: ErrorCode)
    requires s.SelectStatement? && (found.Ok? ==> WellFormedSchema(found.value.schema))
    ensures BindSelect(s, found) == Err(fault) <==> SelectFault(s, found, fault)
  {
    hide BindProjections, BindWhere, ListFault, WhereFault, WellFormedSchema;
    var table := SourceTable(s, found);
    EmptySchema();
    forall f ensures ListFault(s.projections, table, f) <==> BindProjections(s.projections, table) == Err(f) {
      ListFaultsExactly(s.projections, table, f);
    }
    WhereBindsExactly(s.where, table, None, fault);
  }

  lemma EmptySchema()
    ensures WellFormedSchema([])
  {
  }

  // ---------------------------------------------------------------- reading an INSERT

  // A value for a column: NULL where it is allowed, an expression of the column's type, or for
  // a boolean column the literals 1 and 0 as TRUE and FALSE.
  ghost predicate ValueReads(e: Expr, c: ColumnSchema, v: BoundExpr) {
    exists b :: Reads(e, b, None) && Becomes(e, b, c, v)
  }

  ghost predicate Becomes(e: Expr, b: BoundExpr, c: ColumnSchema, v: BoundExpr) {
    if b.ty == NullType then c.nullable && v == b
    else if b.ty == c.ty then v == b
    else c.ty == Boolean && ((e == IntegerLiteral(1) && v == Literal(Boolean, Bool(true))) ||
                             (e == IntegerLiteral(0) && v == Literal(Boolean, Bool(false))))
  }

  ghost predicate ValueFault(e: Expr, c: ColumnSchema, fault: ErrorCode) {
    FaultIs(e, None, fault) || (fault == TypeMismatch && (exists b :: Reads(e, b, None)) && forall v :: !ValueReads(e, c, v))
  }

  ghost predicate InsertReads(s: Statement, found: Result<TableInfo>, b: BoundStatement)
    requires s.InsertStatement?
  {
    && found.Ok? && b.BoundInsert? && b.table == found.value
    && |s.values| == |b.table.schema| && |b.values| == |s.values|
    && forall i :: 0 <= i < |s.values| ==> ValueReads(s.values[i], b.table.schema[i], b.values[i])
  }

  // The first fault from the left.
  ghost predicate ValuesFault(es: seq<Expr>, columns: TableSchema, fault: ErrorCode)
    requires |es| == |columns|
  {
    es != [] &&
    if exists f :: ValueFault(es[0], columns[0], f) then ValueFault(es[0], columns[0], fault)
    else ValuesFault(es[1..], columns[1..], fault)
  }

  ghost predicate InsertFault(s: Statement, found: Result<TableInfo>, fault: ErrorCode)
    requires s.InsertStatement?
  {
    if found.Err? then fault == found.error
    else if |s.values| != |found.value.schema| then fault == BindError
    else ValuesFault(s.values, found.value.schema, fault)
  }

  lemma ValueAccepts(e: Expr, c: ColumnSchema, v: BoundExpr)
    ensures BindValue(e, c) == Ok(v) <==> ValueReads(e, c, v)
  {
    hide BindExpression, Reads, CoerceToColumn, Becomes;
    EmptySchema();
    forall b ensures Reads(e, b, None) <==> BindExpression(e, None) == Ok(b) {
      ReadsExactly(e, b, None);
    }
    var bound := BindExpression(e, None);
    if bound.Ok? {
      LiteralReads(e, bound.value);
      CoercionIsExact(e, bound.value, c, v);
    }
  }

  lemma ValueRefuses(e: Expr, c: ColumnSchema, fault: ErrorCode)
    ensures BindValue(e, c) == Err(fault) <==> ValueFault(e, c, fault)
  {
    hide BindExpression, Reads, CoerceToColumn, FaultIs, ValueReads;
    EmptySchema();
    RejectionIsExact(e, None, fault);
    forall b ensures Reads(e, b, None) <==> BindExpression(e, None) == Ok(b) {
      ReadsExactly(e, b, None);
    }
    forall v ensures ValueReads(e, c, v) <==> BindValue(e, c) == Ok(v) {
      ValueAccepts(e, c, v);
    }
    var bound := BindExpression(e, None);
    if bound.Ok? {
      assert Reads(e, bound.value, None);
      CoercionRefuses(bound.value, c);
    }
  }

  lemma CoercionRefuses(b: BoundExpr, c: ColumnSchema)
    ensures CoerceToColumn(b, c).Err? ==> CoerceToColumn(b, c).error == TypeMismatch
  {
  }

  // Integer literals are bound as themselves, and a bound 0 or 1 comes from the literal.
  lemma LiteralReads(e: Expr, b: BoundExpr)
    requires Reads(e, b, None)
    ensures e.IntegerLiteral? ==> b == Literal(Integer, Int(e.i))
    ensures IsBooleanIntegerLiteral(b) ==> e == IntegerLiteral(b.value.i)
  {
  }

  lemma CoercionIsExact(e: Expr, b: BoundExpr, c: ColumnSchema, v: BoundExpr)
    requires e.IntegerLiteral? ==> b == Literal(Integer, Int(e.i))
    requires IsBooleanIntegerLiteral(b) ==> e == IntegerLiteral(b.value.i)
    ensures CoerceToColumn(b, c) == Ok(v) <==> Becomes(e, b, c, v)
  {
  }

  lemma {:induction false} ValuesBindExactly(es: seq<Expr>, columns: TableSchema, vs: seq<BoundExpr>, fault: ErrorCode)
    requires |es| == |columns|
    ensures BindValues(es, columns) == Ok(vs) <==> |vs| == |es| && forall i :: 0 <= i < |es| ==> ValueReads(es[i], columns[i], vs[i])
    ensures BindValues(es, columns) == Err(fault) <==> ValuesFault(es, columns, fault)
    decreases |es|
  {
    hide BindValue, ValueReads, ValueFault;
    if es != [] {
      forall v ensures BindValue(es[0], columns[0]) == Ok(v) <==> ValueReads(es[0], columns[0], v) {
        ValueAccepts(es[0], columns[0], v);
      }
      forall f ensures BindValue(es[0], columns[0]) == Err(f) <==> ValueFault(es[0], columns[0], f) {
        ValueRefuses(es[0], columns[0], f);
      }
      var tail := if vs == [] then [] else vs[1..];
      ValuesBindExactly(es[1..], columns[1..], tail, fault);
      if vs != [] {
        assert vs == [vs[0]] + tail;
        assert forall i :: 0 < i < |es| ==> es[i] == es[1..][i - 1] && columns[i] == columns[1..][i - 1];
        assert forall i :: 0 < i < |vs| ==> vs[i] == tail[i - 1];
      }
    }
  }

  // The binder accepts an INSERT exactly as the statement that it reads as, and refuses it
  // exactly for its first fault.
  lemma InsertBindsExactly(s: Statement, found: Result<TableInfo>, b: BoundStatement, fault: ErrorCode)
    requires s.InsertStatement?
    ensures BindInsertInto(s, found) == Ok(b) <==> InsertReads(s, found, b)
    ensures BindInsertInto(s, found) == Err(fault) <==> InsertFault(s, found, fault)
  {
    hide BindValues, ValueReads, ValuesFault;
    if found.Ok? && |s.values| == |found.value.schema| {
      var bound := BindValues(s.values, found.value.schema);
      ValuesBindExactly(s.values, found.value.schema, if b.BoundInsert? then b.values else [], fault);
      if bound.Ok? {
        ValuesBindExactly(s.values, found.value.schema, bound.value, fault);
      }
    }
  }

  // ---------------------------------------------------------------- reading a CREATE TABLE

  // INT, TEXT and BOOL columns of the given name, nullable and numbered by position.
  ghost predicate DefinesColumn(d: ColumnDefinition, i: nat, c: ColumnSchema) {
    && c.name == d.name && c.nullable && c.id == i
    && (d.ty == IntType ==> c.ty == Integer)
    && (d.ty == TextType ==> c.ty == SqlType.Text)
    && (d.ty == BoolType ==> c.ty == Boolean)
  }

  ghost predicate DefinesSchema(ds: seq<ColumnDefinition>, schema: TableSchema) {
    |schema| == |ds| && forall i :: 0 <= i < |ds| ==> DefinesColumn(ds[i], i, schema[i])
  }

  ghost predicate CreateReads(s: Statement, found: Result<TableInfo>, schema: TableSchema)
    requires s.CreateTableStatement?
  {
    s.tableName != [] && s.columns != [] && found == Err(NotFound) && Definable(s.columns) && DefinesSchema(s.columns, schema)
  }

  ghost predicate CreateFault(s: Statement, found: Result<TableInfo>, fault: ErrorCode)
    requires s.CreateTableStatement?
  {
    if s.tableName == [] || s.columns == [] then fault == BindError
    else if found.Ok? then fault == AlreadyExists
    else if found.error != NotFound then fault == found.error
    else fault == BindError && !Definable(s.columns)
  }

  lemma SchemaIsDefined(ds: seq<ColumnDefinition>, schema: TableSchema)
    ensures DefinesSchema(ds, schema) <==> schema == DefinedColumns(ds)
  {
    if DefinesSchema(ds, schema) {
      forall i | 0 <= i < |ds| ensures schema[i] == DefinedColumns(ds)[i] {
        assert DefinesColumn(ds[i], i, schema[i]);
      }
    }
  }

  // The binder accepts a CREATE TABLE exactly as the request that it reads as, and refuses it
  // exactly for its first fault.
  lemma CreateReadsExactly(s: Statement, found: Result<TableInfo>, schema: TableSchema, fault: ErrorCode)
    requires s.CreateTableStatement?
    ensures BindCreate(s, found) == Ok(BoundCreateTable(CreateTableRequest(s.tableName, schema))) <==> CreateReads(s, found, schema)
    ensures BindCreate(s, found) == Err(fault) <==> CreateFault(s, found, fault)
  {
    hide BindColumns, Definable, DefinesSchema, DefinedColumns, DefinableFrom;
    CreateBindsExactly(s, found);
    SchemaIsDefined(s.columns, schema);
    ColumnsBindExactly(s.columns, 0, {});
  }

  // ---------------------------------------------------------------- rows and answers

  // The expressions, evaluated on the row, give the output row.
  ghost predicate ProducedBy(es: seq<BoundExpr>, row: Row, out: Row) {
    |out| == |es| && forall i :: 0 <= i < |es| ==> Computes(es[i], row, Ok(out[i]))
  }

  ghost predicate HasValue(e: BoundExpr, row: Row) {
    exists v :: Computes(e, row, Ok(v))
  }

  // The first of them that fails does so with this error.
  ghost predicate FailsWith(es: seq<BoundExpr>, row: Row, error: ErrorCode) {
    exists i :: 0 <= i < |es| && Computes(es[i], row, Err(error)) && forall j :: 0 <= j < i ==> HasValue(es[j], row)
  }

  ghost predicate RowMeans(es: seq<BoundExpr>, row: Row, out: Result<Row>) {
    if out.Ok? then ProducedBy(es, row, out.value) else FailsWith(es, row, out.error)
  }

  lemma {:induction false} ListOutcome(es: seq<BoundExpr>, ctx: Context, out: Result<Row>)
    ensures out == EvaluateAll(es, ctx) <==>
            if out.Ok? then |out.value| == |es| && forall i :: 0 <= i < |es| ==> Evaluate(es[i], ctx) == Ok(out.value[i])
            else exists i :: 0 <= i < |es| && Evaluate(es[i], ctx) == Err(out.error) && forall j :: 0 <= j < i ==> Evaluate(es[j], ctx).Ok?
    decreases |es|
  {
    hide Evaluate;
    if es != [] {
      var rest := es[1..];
      assert forall i :: 0 < i < |es| ==> es[i] == rest[i - 1];
      if out.Ok? {
        if out.value != [] {
          ListOutcome(rest, ctx, Ok(out.value[1..]));
          assert out.value == [out.value[0]] + out.value[1..];
        }
      } else {
        ListOutcome(rest, ctx, out);
        if out == EvaluateAll(es, ctx) && Evaluate(es[0], ctx).Ok? {
          var i :| 0 <= i < |rest| && Evaluate(rest[i], ctx) == Err(out.error) && forall j :: 0 <= j < i ==> Evaluate(rest[j], ctx).Ok?;
          assert Evaluate(es[i + 1], ctx) == Err(out.error);
        }
      }
    }
  }

  lemma RowIsMeant(es: seq<BoundExpr>, row: Row, out: Result<Row>)
    ensures RowMeans(es, row, out) <==> out == EvaluateAll(es, RowContext(|row|, row))
  {
    hide Computes, Evaluate, EvaluateAll;
    ListOutcome(es, RowContext(|row|, row), out);
    forall e, r ensures Computes(e, row, r) <==> r == Evaluate(e, RowContext(|row|, row)) {
      EvaluationIsExact(e, row, r);
    }
    forall e ensures HasValue(e, row) <==> Evaluate(e, RowContext(|row|, row)).Ok? {
      var r := Evaluate(e, RowContext(|row|, row));
      assert Computes(e, row, r);
      if r.Ok? {
        assert Computes(e, row, Ok(r.value));
      }
    }
  }

  lemma RowWithoutInput(es: seq<BoundExpr>, out: Result<Row>)
    ensures RowMeans(es, [], out) <==> out == EvaluateAll(es, NoRow)
  {
    hide RowMeans;
    RowIsMeant(es, [], out);
    ListWithoutInput(es);
  }

  lemma {:induction false} ListWithoutInput(es: seq<BoundExpr>)
    ensures EvaluateAll(es, RowContext(0, [])) == EvaluateAll(es, NoRow)
  {
    hide Evaluate;
    if es != [] {
      EmptyRowIsNoRow(es[0]);
      ListWithoutInput(es[1..]);
    }
  }

  // A SELECT over the listed rows, as the executor computes it: filter, then project.
  function Answer(b: BoundStatement, rows: seq<Row>): Result<QueryResult>
    requires b.BoundSelect? && |b.names| == |b.projections|
  {
    var width := |b.table.schema|;
    var kept :- if b.where.None? then Ok(rows) else FilterRows(b.where.value, width, rows);
    var out :- ProjectRows(b.projections, width, kept);
    Ok(QueryResult(OutputNames(b.projections, b.names), out))
  }

  // The rows for which the condition is TRUE, in order.
  ghost function Chosen(condition: BoundExpr, rows: seq<Row>): seq<Row> {
    if rows == [] then []
    else (if Computes(condition, rows[0], Ok(Bool(true))) then [rows[0]] else []) + Chosen(condition, rows[1..])
  }

  ghost function ChosenBy(where: Option<BoundExpr>, rows: seq<Row>): seq<Row> {
    if where.Some? then Chosen(where.value, rows) else rows
  }

  ghost predicate Decides(condition: BoundExpr, row: Row) {
    Computes(condition, row, Ok(Bool(true))) || Computes(condition, row, Ok(Bool(false)))
  }

  // The condition has an error, or a value that is not a boolean.
  ghost predicate ConditionFails(condition: BoundExpr, row: Row, error: ErrorCode) {
    Computes(condition, row, Err(error)) || (error == TypeMismatch && HasValue(condition, row) && !Decides(condition, row))
  }

  // The alias, else the column's own name, else a made-up one that counts from 1.
  ghost predicate Names(name: Text, alias: Text, e: BoundExpr, i: nat) {
    if alias != [] then name == alias
    else if e.Column? then name == e.columnName
    else name == "expr" + Decimal(i + 1)
  }

  // The answer over the rows: the outputs of the chosen rows in order, under their names; or
  // the error of some row that the condition, or an output of a chosen row, fails on.
  ghost predicate AnswerMeans(b: BoundStatement, rows: seq<Row>, r: Result<QueryResult>)
    requires b.BoundSelect? && |b.names| == |b.projections|
  {
    var chosen := ChosenBy(b.where, rows);
    var decided := b.where.Some? ==> forall row :: row in rows ==> Decides(b.where.value, row);
    if r.Ok? then
      && decided && |r.value.columns| == |b.projections| && |r.value.rows| == |chosen|
      && (forall i :: 0 <= i < |b.projections| ==> Names(r.value.columns[i], b.names[i], b.projections[i], i))
      && (forall i :: 0 <= i < |chosen| ==> ProducedBy(b.projections, chosen[i], r.value.rows[i]))
    else if decided then exists row :: row in chosen && FailsWith(b.projections, row, r.error)
    else exists row :: row in rows && ConditionFails(b.where.value, row, r.error)
  }

  lemma KeepsExactly(condition: BoundExpr, row: Row)
    ensures var keeps := Keeps(condition, |row|, row);
            && (keeps == Ok(true) <==> Computes(condition, row, Ok(Bool(true))))
            && (keeps.Ok? <==> Decides(condition, row))
            && (keeps.Err? <==> ConditionFails(condition, row, if keeps.Err? then keeps.error else Internal))
  {
    hide Computes, Evaluate;
    forall r ensures Computes(condition, row, r) <==> r == Evaluate(condition, RowContext(|row|, row)) {
      EvaluationIsExact(condition, row, r);
    }
    var r := Evaluate(condition, RowContext(|row|, row));
    if r.Ok? {
      assert Computes(condition, row, Ok(r.value));
    }
  }

  lemma {:induction false} FilterChooses(condition: BoundExpr, width: nat, rows: seq<Row>)
    requires forall row :: row in rows ==> |row| == width
    ensures var r := FilterRows(condition, width, rows);
            && (r.Ok? <==> forall row :: row in rows ==> Decides(condition, row))
            && (r.Ok? ==> r.value == Chosen(condition, rows))
            && (r.Err? ==> exists row :: row in rows && ConditionFails(condition, row, r.error))
    decreases |rows|
  {
    hide Keeps, Computes, Decides, ConditionFails;
    if rows != [] {
      assert rows[0] in rows && forall row :: row in rows <==> row == rows[0] || row in rows[1..];
      KeepsExactly(condition, rows[0]);
      FilterChooses(condition, width, rows[1..]);
      var r := FilterRows(condition, width, rows);
      if r.Err? {
        if Keeps(condition, width, rows[0]).Err? {
          assert ConditionFails(condition, rows[0], r.error);
        } else {
          var row :| row in rows[1..] && ConditionFails(condition, row, r.error);
          assert row in rows;
        }
      }
    }
  }

  lemma {:induction false} ChosenAreRows(condition: BoundExpr, rows: seq<Row>)
    ensures forall row :: row in Chosen(condition, rows) ==> row in rows
  {
    hide Computes;
    if rows != [] {
      ChosenAreRows(condition, rows[1..]);
    }
  }

  lemma ProjectionProduces(es: seq<BoundExpr>, width: nat, rows: seq<Row>)
    requires forall row :: row in rows ==> |row| == width
    ensures var r := ProjectRows(es, width, rows);
            && (r.Ok? ==> |r.value| == |rows| && forall i :: 0 <= i < |rows| ==> ProducedBy(es, rows[i], r.value[i]))
            && (r.Err? ==> exists row :: row in rows && FailsWith(es, row, r.error))
  {
    hide EvaluateAll, ProjectRows, FailsWith, ProducedBy;
    var r := ProjectRows(es, width, rows);
    ProjectionIsPointwise(es, width, rows);
    forall i | 0 <= i < |rows| ensures RowMeans(es, rows[i], EvaluateAll(es, RowContext(width, rows[i]))) {
      assert rows[i] in rows;
      RowIsMeant(es, rows[i], EvaluateAll(es, RowContext(width, rows[i])));
    }
    if r.Err? {
      var i :| 0 <= i < |rows| && EvaluateAll(es, RowContext(width, rows[i])) == Err(r.error);
      assert RowMeans(es, rows[i], Err(r.error)) && rows[i] in rows;
    }
  }

  lemma NamesAreMeant(es: seq<BoundExpr>, names: seq<Text>)
    requires |names| == |es|
    ensures forall i :: 0 <= i < |es| ==> Names(OutputNames(es, names)[i], names[i], es[i], i)
  {
    hide Decimal;
  }

  // The executor's answer is the one that is meant.
  lemma AnswerIsMeant(b: BoundStatement, rows: seq<Row>)
    requires b.BoundSelect? && |b.names| == |b.projections|
    requires forall row :: row in rows ==> |row| == |b.table.schema|
    ensures AnswerMeans(b, rows, Answer(b, rows))
  {
    hide FilterRows, ProjectRows, OutputNames, Names, Chosen, Decides, ConditionFails, FailsWith, ProducedBy;
    var width := |b.table.schema|;
    var chosen := ChosenBy(b.where, rows);
    NamesAreMeant(b.projections, b.names);
    if b.where.Some? {
      FilterChooses(b.where.value, width, rows);
      ChosenAreRows(b.where.value, rows);
    }
    ProjectionProduces(b.projections, width, chosen);
  }
}
