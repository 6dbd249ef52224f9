/**
  What the binder guarantees about whole statements: accepted statements plan, accepted queries
  return rows of the announced types, and accepted INSERT rows conform to their table.
 */
module BoundStatements {
  import opened Common
  import opened Expressions
  import opened ConstantFolding
  import opened Plans
  import opened QueryExecution
  import opened Optimizer
  import opened Parser
  import opened Binder
  import opened TypeSoundness

  // ---------------------------------------------------------------- lists of expressions

  ghost predicate AllWellTyped(es: seq<BoundExpr>, schema: TableSchema) {
    forall i :: 0 <= i < |es| ==> WellTyped(es[i], schema)
  }

  lemma {:induction false} WellTypedLists(es: seq<BoundExpr>, schema: TableSchema)
    requires AllWellTyped(es, schema)
    ensures AllStarFree(es)
    ensures schema == [] ==> ValidateAll(es) == OkStatus
  {
    hide WellTyped, StarFree, ColumnFree, ValidateNoColumnReferences;
    if es != [] {
      assert forall i :: 0 <= i < |es[1..]| ==> es[1..][i] == es[i + 1];
      WellTypedLists(es[1..], schema);
      WellTypedIsStarFree(es[0], schema);
      HeadTail(es);
      if schema == [] {
        WellTypedOverNothing(es[0], []);
        ValidationExact(es[0]);
      }
    }
  }

  // A list of results: each fits its expression's type.
  lemma {:induction false} RowsFitTheirTypes(es: seq<BoundExpr>, schema: TableSchema, row: Row)
    requires AllWellTyped(es, schema) && Conforms(schema, row) && EvaluateAll(es, RowContext(|schema|, row)).Ok?
    ensures var out := EvaluateAll(es, RowContext(|schema|, row)).value;
            |out| == |es| && forall i :: 0 <= i < |es| ==> Fits(out[i], es[i])
  {
    hide WellTyped, Fits, Conforms;
    var ctx := RowContext(|schema|, row);
    EvaluateAllPointwise(es, ctx);
    forall i | 0 <= i < |es| ensures Fits(EvaluateAll(es, ctx).value[i], es[i]) {
      ResultsFitTheirType(es[i], schema, row);
    }
  }

  lemma {:induction false} ListsNeverMismatch(es: seq<BoundExpr>, schema: TableSchema, row: Row)
    requires AllWellTyped(es, schema) && Conforms(schema, row) && NoNulls(row)
    requires EvaluateAll(es, RowContext(|schema|, row)).Err?
    ensures EvaluateAll(es, RowContext(|schema|, row)).error == ExecutionError
    decreases |es|
  {
    hide WellTyped, Conforms, Evaluate;
    var ctx := RowContext(|schema|, row);
    WellTypedNeverMismatches(es[0], schema, row);
    if Evaluate(es[0], ctx).Ok? {
      assert forall i :: 0 <= i < |es[1..]| ==> es[1..][i] == es[i + 1];
      ListsNeverMismatch(es[1..], schema, row);
    }
  }

  // ---------------------------------------------------------------- SELECT

  lemma StarIsWellTyped(table: TableInfo)
    requires WellFormedSchema(table.schema)
    ensures AllWellTyped(StarColumns(table), table.schema)
  {
  }

  lemma {:induction false} ProjectionsBindWellTyped(ps: seq<SelectProjection>, table: Option<TableInfo>)
    requires WellFormedSchema(SchemaOf(table)) && BindProjections(ps, table).Ok?
    ensures var p := BindProjections(ps, table).value; |p.es| == |p.names| && AllWellTyped(p.es, SchemaOf(table))
    ensures table.None? || table.value.schema != [] ==> (ps == [] <==> BindProjections(ps, table).value.es == [])
  {
    hide WellTyped, BindExpression, WellFormedSchema, ColumnNames;
    if ps != [] {
      ProjectionsBindWellTyped(ps[1..], table);
      var first := BindProjection(ps[0], table).value;
      if ps[0].expression.StarExpr? {
        StarIsWellTyped(table.value);
        assert |first.names| == |ColumnNames(table.value.schema)|;
      } else {
        BindingIsExact(ps[0].expression, first.es[0], table);
      }
    }
  }

  // Every accepted SELECT is well typed throughout, over the columns of its table.
  lemma BoundSelectIsWellTyped(s: Statement, found: Result<TableInfo>)
    requires s.SelectStatement? && (found.Ok? ==> WellFormedSchema(found.value.schema))
    requires BindSelect(s, found).Ok?
    ensures var b := BindSelect(s, found).value;
            && b.BoundSelect? && |b.names| == |b.projections| && AllWellTyped(b.projections, b.table.schema)
            && (b.where.Some? ==> WellTyped(b.where.value, b.table.schema) && b.where.value.ty == Boolean)
            && (if s.tableName == [] then b.table == NO_TABLE else found == Ok(b.table))
  {
    hide WellTyped, BindExpression, BindProjections;
    var table := SelectTable(s.tableName, found).value;
    ProjectionsBindWellTyped(s.projections, table);
    if s.where.Some? {
      BindingIsExact(s.where.value, BindExpression(s.where.value, table).value, table);
    }
  }

  // An accepted SELECT with output columns always plans, and its condition stays boolean under
  // folding: exactly what the optimizer's preservation theorem asks for.
  lemma AcceptedSelectPlans(s: Statement, found: Result<TableInfo>)
    requires s.SelectStatement? && (found.Ok? ==> WellFormedSchema(found.value.schema) && found.value.name != [])
    requires BindSelect(s, found).Ok?
    ensures var b := BindSelect(s, found).value;
            && (PlanStatement(b).Ok? <==> b.projections != [])
            && ConditionStaysBoolean(b)
  {
    hide WellTyped, BindSelect, FoldExpression, CloneBoundExpression, StarFree, ValidateNoColumnReferences;
    BoundSelectIsWellTyped(s, found);
    var b := BindSelect(s, found).value;
    WellTypedLists(b.projections, b.table.schema);
    if b.where.Some? {
      var c := b.where.value;
      FoldingPreservesTyping(c, b.table.schema);
      WellTypedIsStarFree(c, b.table.schema);
      CloneIsIdentity(c);
      if b.table.name == [] {
        WellTypedOverNothing(c, []);
        ValidationExact(c);
      }
    }
  }

  // The optimizer is transparent for everything the binder accepts, whenever the scan succeeds.
  lemma AcceptedSelectOptimizesSafely(s: Statement, found: Result<TableInfo>, scan: ScanSource)
    requires s.SelectStatement? && (found.Ok? ==> WellFormedSchema(found.value.schema) && found.value.name != [])
    requires BindSelect(s, found).Ok? && BindSelect(s, found).value.projections != []
    requires SourceRelation(BindSelect(s, found).value.table, scan).Ok?
    ensures var b := BindSelect(s, found).value;
            && PlanStatement(b).Ok?
            && OptimizePlan(PlanStatement(b).value).Ok?
            && var plan := OptimizePlan(PlanStatement(b).value).value;
            && Lower(plan).Ok? && IsQuery(Lower(plan).value)
            && SameAnswer(ExecuteQuery(Lower(plan).value, scan), SelectResult(b, scan))
  {
    hide BindSelect, PlanStatement, OptimizePlan, ExecuteQuery, SelectResult, Lower, SourceRelation, IsQuery,
         ConditionStaysBoolean;
    AcceptedSelectPlans(s, found);
    var b := BindSelect(s, found).value;
    BindSelectBinds(s, found);
    PlannedSelectShape(b);
    OptimizerPreservesSelect(b, scan);
    PlannedSelectRuns(b, scan);
  }

  lemma BindSelectBinds(s: Statement, found: Result<TableInfo>)
    requires s.SelectStatement? && BindSelect(s, found).Ok?
    ensures BindSelect(s, found).value.BoundSelect?
  {
  }

  // ---------------------------------------------------------------- the rows of a SELECT

  ghost predicate AllConform(schema: TableSchema, rows: seq<Row>) {
    forall i :: 0 <= i < |rows| ==> Conforms(schema, rows[i])
  }

  lemma {:induction false} KeptRowsAreRows(condition: BoundExpr, width: nat, rows: seq<Row>)
    requires FilterRows(condition, width, rows).Ok?
    ensures forall row :: row in FilterRows(condition, width, rows).value ==> row in rows
    decreases |rows|
  {
    hide Keeps;
    if rows != [] {
      KeptRowsAreRows(condition, width, rows[1..]);
    }
  }

  lemma ProjectedRowsConform(es: seq<BoundExpr>, names: seq<Text>, schema: TableSchema, rows: seq<Row>)
    requires AllWellTyped(es, schema) && (forall row :: row in rows ==> Conforms(schema, row))
    requires ProjectRows(es, |schema|, rows).Ok? && (names == [] || |names| == |es|)
    ensures AllConform(OutputSchema(es, names), ProjectRows(es, |schema|, rows).value)
  {
    hide WellTyped, EvaluateAll, OutputName, Fits, Conforms, ProjectRows;
    ProjectionIsPointwise(es, |schema|, rows);
    var out := ProjectRows(es, |schema|, rows).value;
    forall i | 0 <= i < |rows| ensures Conforms(OutputSchema(es, names), out[i]) {
      assert rows[i] in rows;
      RowsFitTheirTypes(es, schema, rows[i]);
      FittingRowConforms(es, names, out[i]);
    }
  }

  lemma FittingRowConforms(es: seq<BoundExpr>, names: seq<Text>, row: Row)
    requires names == [] || |names| == |es|
    requires |row| == |es| && forall i :: 0 <= i < |es| ==> Fits(row[i], es[i])
    ensures Conforms(OutputSchema(es, names), row)
  {
    hide OutputName, MayBeNull;
    var schema := OutputSchema(es, names);
    forall i | 0 <= i < |row| ensures row[i].Null? || ValueTypeOf(row[i]) == schema[i].ty {
      assert Fits(row[i], es[i]);
    }
  }

  // The rows a SELECT returns conform to the column types it announces.
  lemma SelectedRowsConform(b: BoundStatement, scan: ScanSource)
    requires b.BoundSelect? && b.projections != [] && |b.names| == |b.projections|
    requires AllWellTyped(b.projections, b.table.schema) && (b.table.name == [] ==> b.table == NO_TABLE)
    requires SourceRelation(b.table, scan).Ok? && AllConform(b.table.schema, SourceRelation(b.table, scan).value.rows)
    requires SelectResult(b, scan).Ok?
    ensures AllConform(SelectResult(b, scan).value.schema, SelectResult(b, scan).value.rows)
  {
    hide WellTyped, FilterRows, ProjectRows, OutputNames, OutputSchema, Conforms;
    var source := SourceRelation(b.table, scan).value;
    var kept := source.rows;
    if b.where.Some? {
      KeptRowsAreRows(b.where.value, |source.schema|, source.rows);
      kept := FilterRows(b.where.value, |source.schema|, source.rows).value;
    }
    ProjectedRowsConform(b.projections, b.names, b.table.schema, kept);
  }

  // On rows without NULLs an accepted SELECT either answers or fails with an execution error.
  lemma SelectNeverMismatches(b: BoundStatement, scan: ScanSource)
    requires b.BoundSelect? && b.projections != [] && |b.names| == |b.projections|
    requires AllWellTyped(b.projections, b.table.schema) && (b.table.name == [] ==> b.table == NO_TABLE)
    requires b.where.Some? ==> WellTyped(b.where.value, b.table.schema) && b.where.value.ty == Boolean
    requires SourceRelation(b.table, scan).Ok? && AllConform(b.table.schema, SourceRelation(b.table, scan).value.rows)
    requires forall row :: row in SourceRelation(b.table, scan).value.rows ==> NoNulls(row)
    requires SelectResult(b, scan).Err?
    ensures SelectResult(b, scan).error == ExecutionError
  {
    hide WellTyped, FilterRows, ProjectRows, OutputNames, OutputSchema, Conforms, NoNulls, Keeps, EvaluateAll;
    var schema := b.table.schema;
    var source := SourceRelation(b.table, scan).value;
    var kept := source.rows;
    if b.where.Some? {
      var filtered := FilterRows(b.where.value, |schema|, source.rows);
      FilterIsExact(b.where.value, |schema|, source.rows, []);
      if filtered.Err? {
        var i :| 0 <= i < |source.rows| && Keeps(b.where.value, |schema|, source.rows[i]) == Err(filtered.error);
        ConditionNeverMismatches(b.where.value, schema, source.rows[i]);
        return;
      }
      KeptRowsAreRows(b.where.value, |schema|, source.rows);
      kept := filtered.value;
    }
    ProjectionIsPointwise(b.projections, |schema|, kept);
    var rows := ProjectRows(b.projections, |schema|, kept);
    var i :| 0 <= i < |kept| && EvaluateAll(b.projections, RowContext(|schema|, kept[i])) == Err(rows.error);
    assert kept[i] in kept;
    ListsNeverMismatch(b.projections, schema, kept[i]);
  }

  lemma ConditionNeverMismatches(c: BoundExpr, schema: TableSchema, row: Row)
    requires WellTyped(c, schema) && c.ty == Boolean && Conforms(schema, row) && NoNulls(row)
    ensures Keeps(c, |schema|, row).Err? ==> Keeps(c, |schema|, row).error == ExecutionError
  {
    hide Evaluate;
    WellTypedNeverMismatches(c, schema, row);
  }

  // ---------------------------------------------------------------- INSERT

  // One bound value: it fits the column, and needs no row.
  ghost predicate FitsColumn(e: BoundExpr, c: ColumnSchema) {
    WellTyped(e, []) && (e.ty == c.ty || (e.ty == NullType && c.nullable && e.Literal?))
  }

  lemma {:induction false} NullTypedIsLiteral(e: BoundExpr)
    requires WellTyped(e, []) && e.ty == NullType
    ensures e.Literal?
  {
  }

  lemma BoundValueFits(e: Expr, c: ColumnSchema)
    requires BindValue(e, c).Ok?
    ensures FitsColumn(BindValue(e, c).value, c)
  {
    var bound := BindExpression(e, None).value;
    BindingIsExact(e, bound, None);
    if bound.ty == NullType {
      NullTypedIsLiteral(bound);
    }
  }

  lemma {:induction false} BoundValuesFit(es: seq<Expr>, columns: TableSchema)
    requires |es| == |columns| && BindValues(es, columns).Ok?
    ensures var vs := BindValues(es, columns).value; forall i :: 0 <= i < |es| ==> FitsColumn(vs[i], columns[i])
  {
    hide BindValue, FitsColumn;
    if es != [] {
      BoundValueFits(es[0], columns[0]);
      BoundValuesFit(es[1..], columns[1..]);
    }
  }

  lemma FittingValue(e: BoundExpr, c: ColumnSchema)
    requires FitsColumn(e, c)
    ensures Evaluate(e, NoRow).Ok? ==>
              var v := Evaluate(e, NoRow).value; (v.Null? && c.nullable) || ValueTypeOf(v) == c.ty
    ensures Evaluate(e, NoRow).Err? ==> Evaluate(e, NoRow).error == ExecutionError
  {
    WellTypedOverNothing(e, []);
    RowIsIrrelevant(e, RowContext(0, []));
    WellTypedNeverMismatches(e, [], []);
  }

  // Every accepted INSERT plans, and the row it evaluates conforms to the table's schema; the
  // only way evaluation can fail is an execution error.
  lemma AcceptedInsertConforms(s: Statement, table: TableInfo)
    requires s.InsertStatement? && table.name != [] && (forall c :: c in table.schema ==> c.ty != NullType)
    requires BindInsertInto(s, Ok(table)).Ok?
    ensures var b := BindInsertInto(s, Ok(table)).value;
            && b.BoundInsert? && b.table == table && PlanStatement(b).Ok?
            && var row := EvaluateAll(b.values, NoRow);
            && (row.Ok? ==> Conforms(table.schema, row.value))
            && (row.Err? ==> row.error == ExecutionError)
  {
    hide BindValues, WellTyped, Evaluate;
    var b := BindInsertInto(s, Ok(table)).value;
    BoundValuesFit(s.values, table.schema);
    WellTypedLists(b.values, []);
    InsertRowConforms(b.values, table.schema);
  }

  lemma InsertRowConforms(es: seq<BoundExpr>, columns: TableSchema)
    requires |es| == |columns| && forall i :: 0 <= i < |es| ==> FitsColumn(es[i], columns[i])
    requires forall c :: c in columns ==> c.ty != NullType
    ensures var row := EvaluateAll(es, NoRow);
            && (row.Ok? ==> Conforms(columns, row.value))
            && (row.Err? ==> row.error == ExecutionError)
  {
    hide FitsColumn, Evaluate, EvaluateAll;
    var row := EvaluateAll(es, NoRow);
    EvaluateAllPointwise(es, NoRow);
    forall i | 0 <= i < |es|
      ensures Evaluate(es[i], NoRow).Err? ==> Evaluate(es[i], NoRow).error == ExecutionError
      ensures Evaluate(es[i], NoRow).Ok? ==>
                var v := Evaluate(es[i], NoRow).value; (v.Null? && columns[i].nullable) || ValueTypeOf(v) == columns[i].ty
      ensures columns[i].ty != NullType
    {
      FittingValue(es[i], columns[i]);
    }
    if row.Err? {
      FailingMember(es, NoRow);
    }
  }

  lemma {:induction false} FailingMember(es: seq<BoundExpr>, ctx: Context)
    requires EvaluateAll(es, ctx).Err?
    ensures exists i :: 0 <= i < |es| && Evaluate(es[i], ctx) == Err(EvaluateAll(es, ctx).error)
  {
    hide Evaluate;
    if Evaluate(es[0], ctx).Ok? {
      FailingMember(es[1..], ctx);
      var j :| 0 <= j < |es[1..]| && Evaluate(es[1..][j], ctx) == Err(EvaluateAll(es[1..], ctx).error);
      assert es[j + 1] == es[1..][j];
    }
  }

  // ---------------------------------------------------------------- CREATE TABLE

  // The definitions a table may have: named, at most 2^32 of them, distinct up to case.
  ghost predicate Definable(cs: seq<ColumnDefinition>) {
    && |cs| <= UINT32_MAX + 1
    && (forall i :: 0 <= i < |cs| ==> cs[i].name != [])
    && (forall i, j :: 0 <= i < j < |cs| ==> FoldIdentifierKey(cs[i].name) != FoldIdentifierKey(cs[j].name))
  }

  function DefinedColumns(cs: seq<ColumnDefinition>): (schema: TableSchema)
    ensures |schema| == |cs|
  {
    seq(|cs|, i requires 0 <= i < |cs| => DefinedColumn(cs[i], i))
  }

  // What the column loop still has to check at index.
  ghost predicate DefinableFrom(cs: seq<ColumnDefinition>, index: nat, seen: set<Text>)
    requires index <= |cs|
  {
    && (index < |cs| ==> |cs| <= UINT32_MAX + 1)
    && (forall i :: index <= i < |cs| ==> cs[i].name != [] && FoldIdentifierKey(cs[i].name) !in seen)
    && (forall i, j :: index <= i < j < |cs| ==> FoldIdentifierKey(cs[i].name) != FoldIdentifierKey(cs[j].name))
  }

  lemma {:induction false} ColumnsBindExactly(cs: seq<ColumnDefinition>, index: nat, seen: set<Text>)
    requires index <= |cs|
    ensures BindColumns(cs, index, seen) ==
            if DefinableFrom(cs, index, seen) then Ok(DefinedColumns(cs)[index..]) else Err(BindError)
    decreases |cs| - index
  {
    hide FoldIdentifierKey, DefinedColumn;
    if index == |cs| {
      assert DefinedColumns(cs)[index..] == [];
    } else if index <= UINT32_MAX && cs[index].name != [] && FoldIdentifierKey(cs[index].name) !in seen {
      var key := FoldIdentifierKey(cs[index].name);
      ColumnsBindExactly(cs, index + 1, seen + {key});
      assert DefinedColumns(cs)[index..] == [DefinedColumn(cs[index], index)] + DefinedColumns(cs)[index + 1..];
      if DefinableFrom(cs, index, seen) {
        assert DefinableFrom(cs, index + 1, seen + {key});
      }
    }
  }

  // CREATE TABLE is accepted exactly for a new name and definable columns, and the request
  // then holds a well-formed schema with those columns in order.
  lemma CreateBindsExactly(s: Statement, found: Result<TableInfo>)
    requires s.CreateTableStatement?
    ensures BindCreate(s, found).Ok? <==>
            s.tableName != [] && s.columns != [] && found == Err(NotFound) && Definable(s.columns)
    ensures BindCreate(s, found).Ok? ==>
              && BindCreate(s, found).value == BoundCreateTable(CreateTableRequest(s.tableName, DefinedColumns(s.columns)))
              && WellFormedSchema(DefinedColumns(s.columns))
  {
    hide FoldIdentifierKey, BindColumns;
    ColumnsBindExactly(s.columns, 0, {});
    assert DefinedColumns(s.columns)[0..] == DefinedColumns(s.columns);
    assert DefinableFrom(s.columns, 0, {}) <==> s.columns == [] || Definable(s.columns);
  }
}
