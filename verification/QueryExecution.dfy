/**
  default_executor.cpp, the operators that only read: projection, filter, values and scan.
  The rows a scan yields come from the storage layer and are a parameter here; the operators
  that change the database are in Executor.dfy.
 */
module QueryExecution {
  import opened Common
  import CheckedArithmetic
  import opened Expressions
  import opened Plans

  // ExecutionResult: output names, the schema that column ids index, and the rows.
  datatype Relation = Relation(columns: seq<Text>, schema: TableSchema, rows: seq<Row>)

  // What scanning a table's storage yields: decoded rows in scan order, or an error.
  type ScanSource = StorageRef -> Result<seq<Row>>

  function ProjectRows(es: seq<BoundExpr>, width: nat, rows: seq<Row>): (r: Result<seq<Row>>)
    ensures r.Ok? ==> |r.value| == |rows|
    decreases |rows|
  {
    if rows == [] then Ok([])
    else
      var first :- EvaluateAll(es, RowContext(width, rows[0]));
      var rest :- ProjectRows(es, width, rows[1..]);
      Ok([first] + rest)
  }

  // Whether the filter keeps a row.
  function Keeps(condition: BoundExpr, width: nat, row: Row): Result<bool> {
    var v :- Evaluate(condition, RowContext(width, row));
    CheckedArithmetic.RequireBoolean(v)
  }

  function FilterRows(condition: BoundExpr, width: nat, rows: seq<Row>): Result<seq<Row>>
    decreases |rows|
  {
    if rows == [] then Ok([])
    else
      var keep :- Keeps(condition, width, rows[0]);
      var rest :- FilterRows(condition, width, rows[1..]);
      Ok(if keep then [rows[0]] + rest else rest)
  }

  function ValueRows(rows: seq<seq<BoundExpr>>): Result<seq<Row>>
    decreases |rows|
  {
    if rows == [] then Ok([])
    else
      var first :- EvaluateAll(rows[0], NoRow);
      var rest :- ValueRows(rows[1..]);
      Ok([first] + rest)
  }

  function ColumnNames(schema: TableSchema): (names: seq<Text>)
    ensures |names| == |schema|
  {
    seq(|schema|, i requires 0 <= i < |schema| => schema[i].name)
  }

  // The alias when there is one, else the name derived from the expression.
  function OutputName(es: seq<BoundExpr>, names: seq<Text>, i: nat): Text
    requires i < |es| && (names == [] || |names| == |es|)
  {
    if names != [] && names[i] != [] then names[i] else ProjectionName(es[i], i)
  }

  function OutputNames(es: seq<BoundExpr>, names: seq<Text>): (out: seq<Text>)
    requires names == [] || |names| == |es|
    ensures |out| == |es|
  {
    seq(|es|, i requires 0 <= i < |es| => OutputName(es, names, i))
  }

  function OutputSchema(es: seq<BoundExpr>, names: seq<Text>): (schema: TableSchema)
    requires names == [] || |names| == |es|
    ensures |schema| == |es|
  {
    seq(|es|, i requires 0 <= i < |es| => ColumnSchema(OutputName(es, names, i), es[i].ty, true, i))
  }

  // A plan made of reading operators only; the planners never nest the others.
  predicate IsQuery(plan: PhysicalPlan) {
    && !plan.PCreateTable? && !plan.PInsert?
    && forall i :: 0 <= i < |plan.children| ==> IsQuery(plan.children[i])
  }

  function ExecuteQuery(plan: PhysicalPlan, scan: ScanSource): Result<Relation>
    requires IsQuery(plan)
    decreases plan
  {
    match plan
    case PProjection(children, projections, names) =>
      if |children| != 1 then Err(ExecutionError)
      else if projections == [] then Err(ExecutionError)
      else if names != [] && |names| != |projections| then Err(ExecutionError)
      else
        var input :- ExecuteQuery(children[0], scan);
        var rows :- ProjectRows(projections, |input.schema|, input.rows);
        Ok(Relation(OutputNames(projections, names), OutputSchema(projections, names), rows))
    case PFilter(children, condition) =>
      if |children| != 1 then Err(ExecutionError)
      else
        var input :- ExecuteQuery(children[0], scan);
        var rows :- FilterRows(condition, |input.schema|, input.rows);
        Ok(input.(rows := rows))
    case PValues(children, rows) =>
      if children != [] then Err(ExecutionError)
      else
        var values :- ValueRows(rows);
        Ok(Relation([], [], values))
    case PSeqScan(children, table, storage) =>
      if children != [] then Err(ExecutionError)
      else
        var rows :- scan(storage.(schema := table.schema));
        Ok(Relation(ColumnNames(table.schema), table.schema, rows))
  }

  // ---------------------------------------------------------------- rows as multisets

  // Filtering keeps exactly the rows the predicate accepts, with their multiplicities, and
  // fails exactly when some row makes the predicate fail.
  lemma {:induction false} FilterIsExact(condition: BoundExpr, width: nat, rows: seq<Row>, row: Row)
    ensures var r := FilterRows(condition, width, rows);
            && (r.Ok? <==> forall i :: 0 <= i < |rows| ==> Keeps(condition, width, rows[i]).Ok?)
            && (r.Ok? ==> multiset(r.value)[row] == if Keeps(condition, width, row) == Ok(true) then multiset(rows)[row] else 0)
            && (r.Err? ==> exists i :: 0 <= i < |rows| && Keeps(condition, width, rows[i]) == Err(r.error))
    decreases |rows|
  {
    hide Keeps;
    if rows != [] {
      FilterIsExact(condition, width, rows[1..], row);
      var r := FilterRows(condition, width, rows);
      assert forall i :: 0 < i < |rows| ==> rows[i] == rows[1..][i - 1];
      assert rows == [rows[0]] + rows[1..];
      if r.Err? && Keeps(condition, width, rows[0]).Ok? {
        var j :| 0 <= j < |rows[1..]| && Keeps(condition, width, rows[1..][j]) == Err(r.error);
        assert Keeps(condition, width, rows[j + 1]) == Err(r.error);
      }
    }
  }

  // Projection works row by row, keeps the order, and fails with the error of some row.
  lemma {:induction false} ProjectionIsPointwise(es: seq<BoundExpr>, width: nat, rows: seq<Row>)
    ensures var r := ProjectRows(es, width, rows);
            && (r.Ok? <==> forall i :: 0 <= i < |rows| ==> EvaluateAll(es, RowContext(width, rows[i])).Ok?)
            && (r.Ok? ==> forall i :: 0 <= i < |rows| ==> EvaluateAll(es, RowContext(width, rows[i])) == Ok(r.value[i]))
            && (r.Err? ==> exists i :: 0 <= i < |rows| && EvaluateAll(es, RowContext(width, rows[i])) == Err(r.error))
    decreases |rows|
  {
    hide EvaluateAll;
    if rows != [] {
      ProjectionIsPointwise(es, width, rows[1..]);
      var r := ProjectRows(es, width, rows);
      assert forall i :: 0 < i < |rows| ==> rows[i] == rows[1..][i - 1];
      if r.Err? && EvaluateAll(es, RowContext(width, rows[0])).Ok? {
        var j :| 0 <= j < |rows[1..]| && EvaluateAll(es, RowContext(width, rows[1..][j])) == Err(r.error);
        assert EvaluateAll(es, RowContext(width, rows[j + 1])) == Err(r.error);
      }
    }
  }

  // Lists of values are evaluated one by one, without a row, up to the first that fails.
  lemma {:induction false} ValuesArePointwise(rows: seq<seq<BoundExpr>>)
    ensures var r := ValueRows(rows);
            && (r.Ok? ==> |r.value| == |rows| && forall i :: 0 <= i < |rows| ==> EvaluateAll(rows[i], NoRow) == Ok(r.value[i]))
            && (r.Err? ==> exists i :: && 0 <= i < |rows| && EvaluateAll(rows[i], NoRow) == Err(r.error)
                                       && forall j :: 0 <= j < i ==> EvaluateAll(rows[j], NoRow).Ok?)
  {
    hide EvaluateAll;
    if rows != [] {
      var rest := rows[1..];
      ValuesArePointwise(rest);
      assert forall i :: 0 < i < |rows| ==> rows[i] == rest[i - 1];
      var r := ValueRows(rows);
      if r.Err? && EvaluateAll(rows[0], NoRow).Ok? {
        var i :| && 0 <= i < |rest| && EvaluateAll(rest[i], NoRow) == Err(r.error)
                 && forall j :: 0 <= j < i ==> EvaluateAll(rest[j], NoRow).Ok?;
        assert EvaluateAll(rows[i + 1], NoRow) == Err(r.error);
      }
    }
  }

  // Every query that succeeds returns rows as wide as its column list.
  lemma {:induction false} ProjectedRowsHaveWidth(plan: PhysicalPlan, scan: ScanSource)
    requires IsQuery(plan) && plan.PProjection? && ExecuteQuery(plan, scan).Ok?
    ensures var out := ExecuteQuery(plan, scan).value;
            |out.columns| == |plan.projections| && forall i :: 0 <= i < |out.rows| ==> |out.rows[i]| == |out.columns|
  {
    hide EvaluateAll;
    var input := ExecuteQuery(plan.children[0], scan).value;
    ProjectionIsPointwise(plan.projections, |input.schema|, input.rows);
  }
}
