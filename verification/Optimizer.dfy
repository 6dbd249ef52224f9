/**
  default_optimizer.cpp on plans: constant folding of every expression, then removal of
  filters whose condition has become a boolean literal.
 */
module Optimizer {
  import opened Common
  import opened Expressions
  import opened ConstantFolding
  import opened Plans
  import opened QueryExecution

  // ---------------------------------------------------------------- the two rules

  function FoldAll(es: seq<BoundExpr>): (r: Result<seq<BoundExpr>>)
    ensures r.Ok? ==> |r.value| == |es|
  {
    if es == [] then Ok([])
    else
      var e :- FoldExpression(es[0]);
      var rest :- FoldAll(es[1..]);
      Ok([e] + rest)
  }

  function FoldRows(rows: seq<seq<BoundExpr>>): (r: Result<seq<seq<BoundExpr>>>)
    ensures r.Ok? ==> |r.value| == |rows|
  {
    if rows == [] then Ok([])
    else
      var row :- FoldAll(rows[0]);
      var rest :- FoldRows(rows[1..]);
      Ok([row] + rest)
  }

  // A node whose children are folded, with its own expressions folded.
  function FoldNode(plan: LogicalPlan): Result<LogicalPlan> {
    match plan
    case LFilter(children, condition) =>
      var c :- FoldExpression(condition);
      Ok(LFilter(children, c))
    case LProjection(children, projections, names) =>
      var es :- FoldAll(projections);
      Ok(LProjection(children, es, names))
    case LValues(children, rows) =>
      var folded :- FoldRows(rows);
      Ok(LValues(children, folded))
    case _ => Ok(plan)
  }

  function WithChildren(plan: LogicalPlan, children: seq<LogicalPlan>): LogicalPlan {
    match plan
    case LCreateTable(_, request) => LCreateTable(children, request)
    case LInsert(_, table) => LInsert(children, table)
    case LProjection(_, projections, names) => LProjection(children, projections, names)
    case LFilter(_, condition) => LFilter(children, condition)
    case LValues(_, rows) => LValues(children, rows)
    case LSeqScan(_, table) => LSeqScan(children, table)
  }

  function FoldPlan(plan: LogicalPlan): Result<LogicalPlan>
    decreases plan, 1
  {
    var children :- FoldPlans(plan.children);
    FoldNode(WithChildren(plan, children))
  }

  function FoldPlans(plans: seq<LogicalPlan>): (r: Result<seq<LogicalPlan>>)
    ensures r.Ok? ==> |r.value| == |plans|
    decreases plans, 0
  {
    if plans == [] then Ok([])
    else
      var p :- FoldPlan(plans[0]);
      var rest :- FoldPlans(plans[1..]);
      Ok([p] + rest)
  }

  function BooleanLiteral(e: BoundExpr): Option<bool> {
    if e.Literal? && e.value.Bool? then Some(e.value.b) else None
  }

  // TRUE drops the filter; FALSE replaces filter and input by the empty relation.
  function RemoveNode(plan: LogicalPlan): Result<LogicalPlan> {
    if !plan.LFilter? || BooleanLiteral(plan.condition).None? then Ok(plan)
    else if BooleanLiteral(plan.condition).value then
      if |plan.children| != 1 then Err(PlanError) else Ok(plan.children[0])
    else Ok(LValues([], []))
  }

  function RemoveConstantFilters(plan: LogicalPlan): Result<LogicalPlan>
    decreases plan, 1
  {
    var children :- RemoveInAll(plan.children);
    RemoveNode(WithChildren(plan, children))
  }

  function RemoveInAll(plans: seq<LogicalPlan>): (r: Result<seq<LogicalPlan>>)
    ensures r.Ok? ==> |r.value| == |plans|
    decreases plans, 0
  {
    if plans == [] then Ok([])
    else
      var p :- RemoveConstantFilters(plans[0]);
      var rest :- RemoveInAll(plans[1..]);
      Ok([p] + rest)
  }

  datatype Rule = ConstantFolding | RemoveConstantFilter

  const DEFAULT_RULES: seq<Rule> := [ConstantFolding, RemoveConstantFilter]

  function ApplyRule(rule: Rule, plan: LogicalPlan): Result<LogicalPlan> {
    match rule
    case ConstantFolding => FoldPlan(plan)
    case RemoveConstantFilter => RemoveConstantFilters(plan)
  }

  function ApplyRules(rules: seq<Rule>, plan: LogicalPlan): Result<LogicalPlan> {
    if rules == [] then Ok(plan)
    else
      var next :- ApplyRule(rules[0], plan);
      ApplyRules(rules[1..], next)
  }

  function OptimizePlan(plan: LogicalPlan): Result<LogicalPlan> {
    ApplyRules(DEFAULT_RULES, plan)
  }

  lemma OptimizePlanIs(plan: LogicalPlan)
    ensures OptimizePlan(plan) ==
            var folded := FoldPlan(plan);
            if folded.Err? then folded else RemoveConstantFilters(folded.value)
  {
    assert DEFAULT_RULES[1..] == [RemoveConstantFilter];
    assert [RemoveConstantFilter][1..] == [];
    var folded := FoldPlan(plan);
    if folded.Ok? {
      var removed := RemoveConstantFilters(folded.value);
      assert ApplyRules([RemoveConstantFilter], folded.value) == removed;
    }
  }

  // ---------------------------------------------------------------- optimizing twice

  // Every expression of every node is a fixed point of folding.
  predicate Folded(plan: LogicalPlan) {
    FoldNode(plan) == Ok(plan) && forall i :: 0 <= i < |plan.children| ==> Folded(plan.children[i])
  }

  // No filter has a boolean literal for its condition.
  predicate NoConstantFilter(plan: LogicalPlan) {
    && (plan.LFilter? ==> BooleanLiteral(plan.condition).None?)
    && forall i :: 0 <= i < |plan.children| ==> NoConstantFilter(plan.children[i])
  }

  lemma {:induction false} FoldAllIsIdempotent(es: seq<BoundExpr>)
    requires FoldAll(es).Ok?
    ensures FoldAll(FoldAll(es).value) == FoldAll(es)
  {
    if es != [] {
      FoldingIsIdempotent(es[0]);
      FoldAllIsIdempotent(es[1..]);
      assert FoldAll(es).value[1..] == FoldAll(es[1..]).value;
    }
  }

  lemma {:induction false} FoldRowsIsIdempotent(rows: seq<seq<BoundExpr>>)
    requires FoldRows(rows).Ok?
    ensures FoldRows(FoldRows(rows).value) == FoldRows(rows)
  {
    if rows != [] {
      FoldAllIsIdempotent(rows[0]);
      FoldRowsIsIdempotent(rows[1..]);
      assert FoldRows(rows).value[1..] == FoldRows(rows[1..]).value;
    }
  }

  lemma FoldNodeIsIdempotent(plan: LogicalPlan)
    requires FoldNode(plan).Ok?
    ensures FoldNode(FoldNode(plan).value) == FoldNode(plan)
    ensures FoldNode(plan).value.children == plan.children
  {
    hide FoldExpression, FoldAll, FoldRows;
    match plan {
      case LFilter(_, condition) => FoldingIsIdempotent(condition);
      case LProjection(_, projections, _) => FoldAllIsIdempotent(projections);
      case LValues(_, rows) => FoldRowsIsIdempotent(rows);
      case _ =>
    }
  }

  lemma {:induction false} FoldPlanFolds(plan: LogicalPlan)
    requires FoldPlan(plan).Ok?
    ensures Folded(FoldPlan(plan).value)
    decreases plan, 1
  {
    hide FoldNode;
    FoldPlansFold(plan.children);
    FoldNodeIsIdempotent(WithChildren(plan, FoldPlans(plan.children).value));
  }

  lemma {:induction false} FoldPlansFold(plans: seq<LogicalPlan>)
    requires FoldPlans(plans).Ok?
    ensures forall i :: 0 <= i < |plans| ==> Folded(FoldPlans(plans).value[i])
    decreases plans, 0
  {
    if plans != [] {
      FoldPlanFolds(plans[0]);
      FoldPlansFold(plans[1..]);
    }
  }

  lemma {:induction false} FoldedIsFixed(plan: LogicalPlan)
    requires Folded(plan)
    ensures FoldPlan(plan) == Ok(plan)
    decreases plan, 1
  {
    hide FoldNode;
    FoldedAreFixed(plan.children);
  }

  lemma {:induction false} FoldedAreFixed(plans: seq<LogicalPlan>)
    requires forall i :: 0 <= i < |plans| ==> Folded(plans[i])
    ensures FoldPlans(plans) == Ok(plans)
    decreases plans, 0
  {
    if plans != [] {
      FoldedIsFixed(plans[0]);
      FoldedAreFixed(plans[1..]);
      assert plans == [plans[0]] + plans[1..];
    }
  }

  lemma {:induction false} RemovalKeepsFolded(plan: LogicalPlan)
    requires Folded(plan) && RemoveConstantFilters(plan).Ok?
    ensures var q := RemoveConstantFilters(plan).value; Folded(q) && NoConstantFilter(q)
    decreases plan, 1
  {
    hide FoldExpression, FoldAll;
    RemovalsKeepFolded(plan.children);
    var node := WithChildren(plan, RemoveInAll(plan.children).value);
    assert FoldNode(node) == Ok(node);
  }

  lemma {:induction false} RemovalsKeepFolded(plans: seq<LogicalPlan>)
    requires (forall i :: 0 <= i < |plans| ==> Folded(plans[i])) && RemoveInAll(plans).Ok?
    ensures var qs := RemoveInAll(plans).value;
            forall i :: 0 <= i < |qs| ==> Folded(qs[i]) && NoConstantFilter(qs[i])
    decreases plans, 0
  {
    if plans != [] {
      RemovalKeepsFolded(plans[0]);
      RemovalsKeepFolded(plans[1..]);
    }
  }

  lemma {:induction false} NoConstantFilterIsFixed(plan: LogicalPlan)
    requires NoConstantFilter(plan)
    ensures RemoveConstantFilters(plan) == Ok(plan)
    decreases plan, 1
  {
    NoConstantFiltersAreFixed(plan.children);
  }

  lemma {:induction false} NoConstantFiltersAreFixed(plans: seq<LogicalPlan>)
    requires forall i :: 0 <= i < |plans| ==> NoConstantFilter(plans[i])
    ensures RemoveInAll(plans) == Ok(plans)
    decreases plans, 0
  {
    if plans != [] {
      NoConstantFilterIsFixed(plans[0]);
      NoConstantFiltersAreFixed(plans[1..]);
      assert plans == [plans[0]] + plans[1..];
    }
  }

  // For every plan tree at all: optimizing an optimized plan changes nothing.
  lemma OptimizingTwiceIsOptimizingOnce(plan: LogicalPlan)
    requires OptimizePlan(plan).Ok?
    ensures OptimizePlan(OptimizePlan(plan).value) == OptimizePlan(plan)
  {
    hide FoldPlan, RemoveConstantFilters, Folded, NoConstantFilter;
    OptimizePlanIs(plan);
    var folded := FoldPlan(plan).value;
    FoldPlanFolds(plan);
    RemovalKeepsFolded(folded);
    var q := RemoveConstantFilters(folded).value;
    OptimizePlanIs(q);
    FoldedIsFixed(q);
    NoConstantFilterIsFixed(q);
  }

  // Every expression is folded as far as it goes, and no filter is by TRUE or FALSE.
  ghost predicate PlanNormal(plan: LogicalPlan) {
    && (plan.LFilter? ==> Normal(plan.condition) && !(plan.condition.Literal? && plan.condition.value.Bool?))
    && (plan.LProjection? ==> forall i :: 0 <= i < |plan.projections| ==> Normal(plan.projections[i]))
    && (plan.LValues? ==> forall i, j :: 0 <= i < |plan.rows| && 0 <= j < |plan.rows[i]| ==> Normal(plan.rows[i][j]))
    && forall i :: 0 <= i < |plan.children| ==> PlanNormal(plan.children[i])
  }

  lemma {:induction false} FixedListIsNormal(es: seq<BoundExpr>)
    requires FoldAll(es) == Ok(es)
    ensures forall i :: 0 <= i < |es| ==> Normal(es[i])
  {
    hide FoldExpression, Normal;
    if es != [] {
      FoldedIsNormal(es[0]);
      assert es == [es[0]] + es[1..];
      FixedListIsNormal(es[1..]);
      assert forall i :: 0 < i < |es| ==> es[i] == es[1..][i - 1];
    }
  }

  lemma {:induction false} FixedRowsAreNormal(rows: seq<seq<BoundExpr>>)
    requires FoldRows(rows) == Ok(rows)
    ensures forall i, j :: 0 <= i < |rows| && 0 <= j < |rows[i]| ==> Normal(rows[i][j])
  {
    hide FoldAll, Normal;
    if rows != [] {
      FixedListIsNormal(rows[0]);
      assert rows == [rows[0]] + rows[1..];
      FixedRowsAreNormal(rows[1..]);
      assert forall i :: 0 < i < |rows| ==> rows[i] == rows[1..][i - 1];
    }
  }

  lemma {:induction false} FoldedIsPlanNormal(plan: LogicalPlan)
    requires Folded(plan) && NoConstantFilter(plan)
    ensures PlanNormal(plan)
    decreases plan
  {
    hide FoldExpression, FoldAll, FoldRows, Normal;
    match plan {
      case LFilter(_, condition) => FoldedIsNormal(condition);
      case LProjection(_, projections, _) => FixedListIsNormal(projections);
      case LValues(_, rows) => FixedRowsAreNormal(rows);
      case _ =>
    }
    forall i | 0 <= i < |plan.children| ensures PlanNormal(plan.children[i]) {
      FoldedIsPlanNormal(plan.children[i]);
    }
  }

  // Whatever the plan, an optimized one leaves nothing to do.
  lemma OptimizedPlansAreNormal(plan: LogicalPlan)
    requires OptimizePlan(plan).Ok?
    ensures PlanNormal(OptimizePlan(plan).value)
  {
    hide FoldPlan, RemoveConstantFilters, Folded, NoConstantFilter, PlanNormal;
    OptimizePlanIs(plan);
    FoldPlanFolds(plan);
    RemovalKeepsFolded(FoldPlan(plan).value);
    FoldedIsPlanNormal(OptimizePlan(plan).value);
  }

  // ---------------------------------------------------------------- optimizing preserves meaning

  // Lowering and executing a plan.
  function RunPlan(plan: LogicalPlan, scan: ScanSource): Result<Relation>
    requires Lower(plan).Ok? ==> IsQuery(Lower(plan).value)
  {
    var physical :- Lower(plan);
    ExecuteQuery(physical, scan)
  }

  lemma {:induction false} FoldAllPreserves(es: seq<BoundExpr>, ctx: Context)
    requires AllStarFree(es)
    ensures FoldAll(es).Ok? && AllStarFree(FoldAll(es).value)
    ensures EvaluateAll(FoldAll(es).value, ctx) == EvaluateAll(es, ctx)
  {
    hide Evaluate, FoldExpression, StarFree;
    if es != [] {
      HeadTail(es);
      FoldingPreservesEvaluation(es[0], ctx);
      FoldAllPreserves(es[1..], ctx);
      var fs := FoldAll(es).value;
      assert fs[1..] == FoldAll(es[1..]).value;
      HeadTail(fs);
    }
  }

  lemma {:induction false} FoldAllKeepsNames(es: seq<BoundExpr>, i: nat)
    requires FoldAll(es).Ok? && i < |es|
    ensures FoldExpression(es[i]) == Ok(FoldAll(es).value[i])
    ensures forall k :: ProjectionName(FoldAll(es).value[i], k) == ProjectionName(es[i], k)
  {
    hide FoldExpression, Decimal;
    if i == 0 {
      FoldingKeepsColumns(es[0]);
    } else {
      FoldAllKeepsNames(es[1..], i - 1);
    }
  }

  lemma FoldedOutputNames(es: seq<BoundExpr>, names: seq<Text>)
    requires FoldAll(es).Ok? && (names == [] || |names| == |es|)
    ensures OutputNames(FoldAll(es).value, names) == OutputNames(es, names)
  {
    hide FoldAll, ProjectionName;
    forall i | 0 <= i < |es|
      ensures OutputName(FoldAll(es).value, names, i) == OutputName(es, names, i)
    {
      FoldAllKeepsNames(es, i);
    }
  }

  lemma {:induction false} FoldedProjectRows(es: seq<BoundExpr>, width: nat, rows: seq<Row>)
    requires AllStarFree(es)
    ensures FoldAll(es).Ok?
    ensures ProjectRows(FoldAll(es).value, width, rows) == ProjectRows(es, width, rows)
    decreases |rows|
  {
    hide EvaluateAll, FoldAll, AllStarFree;
    FoldAllPreserves(es, NoRow);
    if rows != [] {
      FoldAllPreserves(es, RowContext(width, rows[0]));
      FoldedProjectRows(es, width, rows[1..]);
    }
  }

  lemma {:induction false} FoldedFilterRows(e: BoundExpr, width: nat, rows: seq<Row>)
    requires StarFree(e)
    ensures FoldExpression(e).Ok?
    ensures FilterRows(FoldExpression(e).value, width, rows) == FilterRows(e, width, rows)
    decreases |rows|
  {
    hide Evaluate, FoldExpression, StarFree;
    FoldingPreservesEvaluation(e, NoRow);
    if rows != [] {
      FoldingPreservesEvaluation(e, RowContext(width, rows[0]));
      FoldedFilterRows(e, width, rows[1..]);
    }
  }

  lemma {:induction false} FilterByLiteral(e: BoundExpr, width: nat, rows: seq<Row>)
    requires BooleanLiteral(e).Some?
    ensures FilterRows(e, width, rows) == Ok(if BooleanLiteral(e).value then rows else [])
    decreases |rows|
  {
    hide Keeps;
    if rows != [] {
      LiteralKeeps(e, width, rows[0]);
      FilterByLiteral(e, width, rows[1..]);
      assert rows == [rows[0]] + rows[1..];
    }
  }

  lemma LiteralKeeps(e: BoundExpr, width: nat, row: Row)
    requires e.Literal?
    ensures Keeps(e, width, row) == if e.value.Bool? then Ok(e.value.b) else Err(TypeMismatch)
  {
    assert Evaluate(e, RowContext(width, row)) == Ok(e.value);
  }

  // A planned SELECT's input relation: a scan, or one empty row.
  function SourceRelation(table: TableInfo, scan: ScanSource): Result<Relation> {
    if table.name != [] then
      var rows :- scan(MakeStorageRef(table));
      Ok(Relation(ColumnNames(table.schema), table.schema, rows))
    else Ok(Relation([], [], [[]]))
  }

  // What a SELECT returns, straight from the bound statement.
  function SelectResult(b: BoundStatement, scan: ScanSource): Result<Relation>
    requires b.BoundSelect? && b.projections != [] && (b.names == [] || |b.names| == |b.projections|)
  {
    var source :- SourceRelation(b.table, scan);
    var kept :- if b.where.None? then Ok(source.rows) else FilterRows(b.where.value, |source.schema|, source.rows);
    var rows :- ProjectRows(b.projections, |source.schema|, kept);
    Ok(Relation(OutputNames(b.projections, b.names), OutputSchema(b.projections, b.names), rows))
  }

  // Names and rows are what a client sees (QueryResult).
  predicate SameAnswer(a: Result<Relation>, b: Result<Relation>) {
    if a.Ok? && b.Ok? then a.value.columns == b.value.columns && a.value.rows == b.value.rows
    else a.Err? && b.Err? && a.error == b.error
  }

  function SourcePlan(table: TableInfo): LogicalPlan {
    if table.name != [] then LSeqScan([], table) else LValues([], [[]])
  }

  function InputPlan(table: TableInfo, where: Option<BoundExpr>): LogicalPlan {
    if where.None? then SourcePlan(table) else LFilter([SourcePlan(table)], where.value)
  }

  lemma LowerOne(p: LogicalPlan)
    ensures LowerAll([p]) == var q := Lower(p); if q.Ok? then Ok([q.value]) else Err(q.error)
  {
    hide Lower;
    var q := Lower(p);
    assert [p][1..] == [] && LowerAll([]) == Ok([]);
    assert q.Ok? ==> [q.value] + [] == [q.value];
  }

  lemma SourceRuns(table: TableInfo, scan: ScanSource)
    ensures Lower(SourcePlan(table)).Ok? && IsQuery(Lower(SourcePlan(table)).value)
    ensures ExecuteQuery(Lower(SourcePlan(table)).value, scan) == SourceRelation(table, scan)
  {
    if table.name == [] {
      var rows: seq<seq<BoundExpr>> := [[]];
      assert rows[1..] == [];
      assert CloneRows(rows) == Ok(rows) by {
        assert CloneAll(rows[0]) == Ok([]) && CloneRows([]) == Ok([]);
        assert [rows[0]] + [] == rows;
      }
      assert Lower(SourcePlan(table)) == Ok(PValues([], rows));
      assert ValueRows(rows) == Ok([[]]) by {
        assert EvaluateAll(rows[0], NoRow) == Ok([]);
        assert ValueRows([]) == Ok([]);
      }
    }
  }

  function FilteredSource(table: TableInfo, where: Option<BoundExpr>, scan: ScanSource): Result<Relation> {
    var source :- SourceRelation(table, scan);
    var kept :- if where.None? then Ok(source.rows) else FilterRows(where.value, |source.schema|, source.rows);
    Ok(source.(rows := kept))
  }

  lemma InputRuns(table: TableInfo, where: Option<BoundExpr>, scan: ScanSource)
    requires where.Some? ==> StarFree(where.value) && where.value.ty == Boolean
    ensures Lower(InputPlan(table, where)).Ok? && IsQuery(Lower(InputPlan(table, where)).value)
    ensures ExecuteQuery(Lower(InputPlan(table, where)).value, scan) == FilteredSource(table, where, scan)
  {
    hide FilterRows, SourcePlan, SourceRelation;
    SourceRuns(table, scan);
    if where.Some? {
      LowerOne(SourcePlan(table));
      CloneIsIdentity(where.value);
      var physical := Lower(InputPlan(table, where)).value;
      assert physical == PFilter([Lower(SourcePlan(table)).value], where.value);
    }
  }

  // A projection over any runnable input.
  lemma ProjectionRuns(input: LogicalPlan, es: seq<BoundExpr>, names: seq<Text>, scan: ScanSource)
    requires Lower(input).Ok? && IsQuery(Lower(input).value)
    requires es != [] && AllStarFree(es) && (names == [] || |names| == |es|)
    ensures var plan := LProjection([input], es, names);
            && Lower(plan).Ok? && IsQuery(Lower(plan).value)
            && RunPlan(plan, scan) ==
               var source := ExecuteQuery(Lower(input).value, scan);
               if source.Err? then Err(source.error)
               else
                 var rows := ProjectRows(es, |source.value.schema|, source.value.rows);
                 if rows.Err? then Err(rows.error)
                 else Ok(Relation(OutputNames(es, names), OutputSchema(es, names), rows.value))
  {
    hide ProjectRows, OutputNames, OutputSchema;
    LowerOne(input);
    var plan := LProjection([input], es, names);
    assert Lower(plan) == Ok(PProjection([Lower(input).value], es, names));
    var physical := Lower(plan).value;
    assert physical.children[0] == Lower(input).value;
  }

  // The plan of a SELECT computes SelectResult.
  lemma PlannedSelectRuns(b: BoundStatement, scan: ScanSource)
    requires b.BoundSelect? && PlanStatement(b).Ok?
    ensures var plan := PlanStatement(b).value;
            && b.projections != [] && (b.names == [] || |b.names| == |b.projections|)
            && Lower(plan).Ok? && IsQuery(Lower(plan).value)
            && RunPlan(plan, scan) == SelectResult(b, scan)
  {
    hide ProjectRows, FilterRows, OutputNames, OutputSchema, SourceRelation, Lower, ExecuteQuery;
    PlannedSelectShape(b);
    InputRuns(b.table, b.where, scan);
    ProjectionRuns(InputPlan(b.table, b.where), b.projections, b.names, scan);
    assert PlanStatement(b).value == LProjection([InputPlan(b.table, b.where)], b.projections, b.names);
  }

  // What the optimizer makes of the condition: kept, dropped, or decided against every row.
  datatype Verdict = KeepFilter(condition: BoundExpr) | DropFilter | EmptyInput

  function FilterVerdict(where: BoundExpr): Verdict
    requires FoldExpression(where).Ok?
  {
    var folded := FoldExpression(where).value;
    if BooleanLiteral(folded).None? then KeepFilter(folded)
    else if BooleanLiteral(folded).value then DropFilter
    else EmptyInput
  }

  function OptimizedInput(table: TableInfo, where: Option<BoundExpr>): LogicalPlan
    requires where.Some? ==> FoldExpression(where.value).Ok?
  {
    if where.None? then SourcePlan(table)
    else match FilterVerdict(where.value)
      case KeepFilter(c) => LFilter([SourcePlan(table)], c)
      case DropFilter => SourcePlan(table)
      case EmptyInput => LValues([], [])
  }

  lemma FoldOne(p: LogicalPlan)
    ensures FoldPlans([p]) == var q := FoldPlan(p); if q.Ok? then Ok([q.value]) else Err(q.error)
    ensures RemoveInAll([p]) == var q := RemoveConstantFilters(p); if q.Ok? then Ok([q.value]) else Err(q.error)
  {
    hide FoldPlan, RemoveConstantFilters;
    var f, r := FoldPlan(p), RemoveConstantFilters(p);
    assert [p][1..] == [] && FoldPlans([]) == Ok([]) && RemoveInAll([]) == Ok([]);
    assert f.Ok? ==> [f.value] + [] == [f.value];
    assert r.Ok? ==> [r.value] + [] == [r.value];
  }

  lemma SourceIsFixed(table: TableInfo)
    ensures FoldPlan(SourcePlan(table)) == Ok(SourcePlan(table))
    ensures RemoveConstantFilters(SourcePlan(table)) == Ok(SourcePlan(table))
  {
    assert FoldPlans([]) == Ok([]) && RemoveInAll([]) == Ok([]);
    if table.name == [] {
      var rows: seq<seq<BoundExpr>> := [[]];
      assert rows[1..] == [];
      assert FoldRows(rows) == Ok(rows) by {
        assert FoldAll(rows[0]) == Ok([]) && FoldRows([]) == Ok([]);
        assert [rows[0]] + [] == rows;
      }
    }
  }

  lemma OptimizedInputIs(table: TableInfo, where: Option<BoundExpr>)
    requires where.Some? ==> StarFree(where.value)
    ensures where.Some? ==> FoldExpression(where.value).Ok?
    ensures var folded := FoldPlan(InputPlan(table, where));
            && folded.Ok? && RemoveConstantFilters(folded.value) == Ok(OptimizedInput(table, where))
  {
    hide FoldExpression, SourcePlan, StarFree;
    SourceIsFixed(table);
    if where.Some? {
      FoldingPreservesEvaluation(where.value, NoRow);
      var source := SourcePlan(table);
      FoldOne(source);
      var c := FoldExpression(where.value).value;
      assert FoldPlan(LFilter([source], where.value)) == FoldNode(LFilter([source], where.value));
      assert FoldPlan(InputPlan(table, where)) == Ok(LFilter([source], c));
      assert RemoveConstantFilters(LFilter([source], c)) == RemoveNode(LFilter([source], c));
    }
  }

  lemma OptimizedSelectIs(b: BoundStatement)
    requires b.BoundSelect? && PlanStatement(b).Ok?
    ensures b.where.Some? ==> FoldExpression(b.where.value).Ok?
    ensures FoldAll(b.projections).Ok?
    ensures OptimizePlan(PlanStatement(b).value) ==
            Ok(LProjection([OptimizedInput(b.table, b.where)], FoldAll(b.projections).value, b.names))
  {
    hide FoldExpression, FoldAll, OptimizedInput, InputPlan;
    PlannedSelectShape(b);
    var input := InputPlan(b.table, b.where);
    assert PlanStatement(b).value == LProjection([input], b.projections, b.names) by { PlannedInput(b); }
    OptimizedInputIs(b.table, b.where);
    FoldAllPreserves(b.projections, NoRow);
    var folded := FoldPlan(input).value;
    FoldOne(input);
    FoldOne(folded);
    OptimizePlanIs(PlanStatement(b).value);
    var es := FoldAll(b.projections).value;
    assert FoldPlan(PlanStatement(b).value) == Ok(LProjection([folded], es, b.names));
    assert RemoveConstantFilters(LProjection([folded], es, b.names)) ==
           Ok(LProjection([OptimizedInput(b.table, b.where)], es, b.names));
  }

  lemma PlannedInput(b: BoundStatement)
    requires b.BoundSelect? && PlanStatement(b).Ok?
    ensures PlanStatement(b).value == LProjection([InputPlan(b.table, b.where)], b.projections, b.names)
  {
    PlannedSelectShape(b);
  }

  // Folding left the annotation of the condition at BOOLEAN, as it does for everything the
  // binder accepts.
  predicate ConditionStaysBoolean(b: BoundStatement) {
    b.BoundSelect? && b.where.Some? && FoldExpression(b.where.value).Ok? ==> FoldExpression(b.where.value).value.ty == Boolean
  }

  // The condition has been decided FALSE, so the optimized plan does not scan at all.
  predicate DecidedFalse(b: BoundStatement) {
    b.BoundSelect? && b.where.Some? && FoldExpression(b.where.value).Ok? && FilterVerdict(b.where.value).EmptyInput?
  }

  lemma EmptyInputRuns(scan: ScanSource)
    ensures Lower(LValues([], [])) == Ok(PValues([], []))
    ensures ExecuteQuery(PValues([], []), scan) == Ok(Relation([], [], []))
  {
  }

  // Before projection: the optimized input has the rows of the filtered source.
  lemma OptimizedInputRuns(table: TableInfo, where: Option<BoundExpr>, scan: ScanSource)
    requires where.Some? ==> StarFree(where.value) && where.value.ty == Boolean
    requires where.Some? ==> FoldExpression(where.value).Ok? && FoldExpression(where.value).value.ty == Boolean
    ensures var plan := OptimizedInput(table, where);
            && Lower(plan).Ok? && IsQuery(Lower(plan).value)
            && ExecuteQuery(Lower(plan).value, scan) ==
               if where.Some? && FilterVerdict(where.value).EmptyInput? then Ok(Relation([], [], []))
               else FilteredSource(table, where, scan)
    ensures where.Some? && FilterVerdict(where.value).EmptyInput? && SourceRelation(table, scan).Ok? ==>
              FilteredSource(table, where, scan) == Ok(SourceRelation(table, scan).value.(rows := []))
  {
    hide FilterRows, SourcePlan, SourceRelation, FoldExpression, StarFree;
    SourceRuns(table, scan);
    EmptyInputRuns(scan);
    if where.Some? {
      var c := FoldExpression(where.value).value;
      FoldingPreservesEvaluation(where.value, NoRow);
      var source := SourceRelation(table, scan);
      if source.Ok? {
        FoldedFilterRows(where.value, |source.value.schema|, source.value.rows);
        if BooleanLiteral(c).Some? {
          FilterByLiteral(c, |source.value.schema|, source.value.rows);
        }
      }
      if BooleanLiteral(c).None? {
        InputRuns(table, Some(c), scan);
      }
    }
  }

  // While the condition stays BOOLEAN the optimized plan lowers, and answers alike exactly when
  // the scan succeeds or the filter was not decided FALSE (a filter decided FALSE hides the
  // error of the scan it no longer makes).
  lemma BooleanSelectRuns(b: BoundStatement, scan: ScanSource)
    requires b.BoundSelect? && PlanStatement(b).Ok? && ConditionStaysBoolean(b)
    ensures var plan := PlanStatement(b).value;
            var optimized := OptimizePlan(plan);
            && optimized.Ok?
            && Lower(plan).Ok? && IsQuery(Lower(plan).value)
            && Lower(optimized.value).Ok? && IsQuery(Lower(optimized.value).value)
            && (SameAnswer(RunPlan(optimized.value, scan), RunPlan(plan, scan)) <==>
                  SourceRelation(b.table, scan).Ok? || !DecidedFalse(b))
  {
    hide ProjectRows, FilterRows, OutputNames, OutputSchema, SourceRelation, Lower, ExecuteQuery, FoldExpression,
         FoldAll, OptimizePlan, OptimizedInput, FilterVerdict, IsQuery;
    PlannedSelectShape(b);
    PlannedSelectRuns(b, scan);
    OptimizedSelectIs(b);
    OptimizedInputRuns(b.table, b.where, scan);
    FoldAllPreserves(b.projections, NoRow);
    FoldedOutputNames(b.projections, b.names);
    var es := FoldAll(b.projections).value;
    var input := OptimizedInput(b.table, b.where);
    ProjectionRuns(input, es, b.names, scan);
    var filtered := FilteredSource(b.table, b.where, scan);
    if filtered.Ok? {
      FoldedProjectRows(b.projections, |filtered.value.schema|, filtered.value.rows);
    }
    if DecidedFalse(b) {
      NoRowsToProject(es, 0);
      if SourceRelation(b.table, scan).Ok? {
        NoRowsToProject(b.projections, |filtered.value.schema|);
      }
    }
    SelectResultIs(b, scan);
  }

  lemma NoRowsToProject(es: seq<BoundExpr>, width: nat)
    ensures ProjectRows(es, width, []) == Ok([])
  {
  }

  lemma SelectResultIs(b: BoundStatement, scan: ScanSource)
    requires b.BoundSelect? && b.projections != [] && (b.names == [] || |b.names| == |b.projections|)
    ensures var filtered := FilteredSource(b.table, b.where, scan);
            SelectResult(b, scan) ==
            if filtered.Err? then Err(filtered.error)
            else
              var rows := ProjectRows(b.projections, |filtered.value.schema|, filtered.value.rows);
              if rows.Err? then Err(rows.error)
              else Ok(Relation(OutputNames(b.projections, b.names), OutputSchema(b.projections, b.names), rows.value))
    ensures SourceRelation(b.table, scan).Err? ==> FilteredSource(b.table, b.where, scan) == Err(SourceRelation(b.table, scan).error)
  {
    hide ProjectRows, FilterRows, OutputNames, OutputSchema, SourceRelation;
  }

  // A BOOLEAN expression that folding annotates otherwise has become a literal of another type.
  lemma ChangedAnnotation(e: BoundExpr)
    requires e.ty == Boolean && FoldExpression(e).Ok? && FoldExpression(e).value.ty != Boolean
    ensures FoldExpression(e).value.Literal? && !FoldExpression(e).value.value.Bool?
  {
    hide FoldUnary, FoldBinary;
  }

  // A filter by such a literal passes exactly no rows at all.
  lemma FilterByOtherLiteral(e: BoundExpr, width: nat, rows: seq<Row>)
    requires e.Literal? && !e.value.Bool?
    ensures FilterRows(e, width, rows) == if rows == [] then Ok([]) else Err(TypeMismatch)
  {
    hide Keeps;
    if rows != [] {
      LiteralKeeps(e, width, rows[0]);
    }
  }

  // When folding changes the annotation, lowering refuses the optimized plan, while the
  // original one fails alike exactly when its scan does or yields a row.
  lemma IllAnnotatedSelectRuns(b: BoundStatement, scan: ScanSource)
    requires b.BoundSelect? && PlanStatement(b).Ok? && !ConditionStaysBoolean(b)
    ensures var plan := PlanStatement(b).value;
            var optimized := OptimizePlan(plan);
            && optimized.Ok? && Lower(optimized.value) == Err(TypeMismatch)
            && Lower(plan).Ok? && IsQuery(Lower(plan).value)
            && (RunPlan(plan, scan) == Err(TypeMismatch) <==>
                  SourceRelation(b.table, scan) == Err(TypeMismatch) ||
                  (SourceRelation(b.table, scan).Ok? && SourceRelation(b.table, scan).value.rows != []))
  {
    hide ProjectRows, FilterRows, OutputNames, OutputSchema, SourceRelation, Lower, ExecuteQuery, FoldExpression,
         FoldAll, OptimizePlan, IsQuery, StarFree;
    PlannedSelectShape(b);
    PlannedSelectRuns(b, scan);
    OptimizedSelectIs(b);
    var where := b.where.value;
    ChangedAnnotation(where);
    IllAnnotatedInput(b.table, where);
    ProjectionOfRefused(OptimizedInput(b.table, b.where), FoldAll(b.projections).value, b.names);
    FoldAllPreserves(b.projections, NoRow);
    var source := SourceRelation(b.table, scan);
    if source.Ok? {
      FoldedFilterRows(where, |source.value.schema|, source.value.rows);
      FilterByOtherLiteral(FoldExpression(where).value, |source.value.schema|, source.value.rows);
      NoRowsToProject(b.projections, |source.value.schema|);
    }
    SelectResultIs(b, scan);
  }

  lemma IllAnnotatedInput(table: TableInfo, where: BoundExpr)
    requires FoldExpression(where).Ok? && FoldExpression(where).value.ty != Boolean
    requires FoldExpression(where).value.Literal? && !FoldExpression(where).value.value.Bool?
    ensures Lower(OptimizedInput(table, Some(where))) == Err(TypeMismatch)
  {
    hide FoldExpression;
  }

  lemma ProjectionOfRefused(input: LogicalPlan, es: seq<BoundExpr>, names: seq<Text>)
    requires Lower(input) == Err(TypeMismatch) && es != [] && (names == [] || |names| == |es|)
    ensures Lower(LProjection([input], es, names)) == Err(TypeMismatch)
  {
    LowerOne(input);
  }

  // With a condition that stays BOOLEAN: the scan succeeds, or is still made. Otherwise: the
  // condition meets a row, or the scan fails with the very error lowering reports.
  predicate AnswersAlike(b: BoundStatement, source: Result<Relation>) {
    if ConditionStaysBoolean(b) then source.Ok? || !DecidedFalse(b)
    else source == Err(TypeMismatch) || (source.Ok? && source.value.rows != [])
  }

  // For every SELECT the planner accepts: the optimized plan lowers exactly when folding leaves
  // its condition BOOLEAN, and it has the answer of the original plan, columns, rows and error,
  // exactly when the condition above holds.
  lemma OptimizerPreservesSelect(b: BoundStatement, scan: ScanSource)
    requires b.BoundSelect? && PlanStatement(b).Ok?
    ensures var plan := PlanStatement(b).value;
            var optimized := OptimizePlan(plan);
            && optimized.Ok?
            && Lower(plan).Ok? && IsQuery(Lower(plan).value)
            && (Lower(optimized.value).Ok? <==> ConditionStaysBoolean(b))
            && (Lower(optimized.value).Ok? ==> IsQuery(Lower(optimized.value).value))
            && (SameAnswer(RunPlan(optimized.value, scan), RunPlan(plan, scan)) <==>
                  AnswersAlike(b, SourceRelation(b.table, scan)))
  {
    hide OptimizePlan, PlanStatement, Lower, ExecuteQuery, SourceRelation, IsQuery, ConditionStaysBoolean, DecidedFalse;
    if ConditionStaysBoolean(b) {
      BooleanSelectRuns(b, scan);
    } else {
      IllAnnotatedSelectRuns(b, scan);
    }
  }

  // Without a correct annotation the rewrite may turn an execution into a planning error: the
  // condition -1, annotated BOOLEAN, folds to an INTEGER literal that lowering rejects.
  lemma IllAnnotatedConditionIsRejected(table: TableInfo, e: BoundExpr, scan: ScanSource)
    requires table.name != [] && scan(MakeStorageRef(table)) == Ok([])
    requires e == Literal(Boolean, Bool(true))
    ensures var minusOne := Unary(Boolean, Minus, Literal(Integer, Int(1)));
            var b := BoundSelect([e], [], table, Some(minusOne));
            && PlanStatement(b).Ok? && !ConditionStaysBoolean(b)
            && SelectResult(b, scan).Ok?
            && OptimizePlan(PlanStatement(b).value).Ok?
            && Lower(OptimizePlan(PlanStatement(b).value).value).Err?
  {
    var minusOne := Unary(Boolean, Minus, Literal(Integer, Int(1)));
    var b := BoundSelect([e], [], table, Some(minusOne));
    assert [e][1..] == [];
    assert AllStarFree([e]);
    assert CloneBoundExpression(minusOne) == Ok(minusOne);
    assert PlanStatement(b).Ok?;
    OptimizedSelectIs(b);
    assert FoldExpression(minusOne) == Ok(Literal(Integer, Int(-1)));
    var input := OptimizedInput(table, Some(minusOne));
    assert input == LFilter([SourcePlan(table)], Literal(Integer, Int(-1)));
    LowerOne(input);
  }

  // INSERT plans keep their target, and the row to insert evaluates to the same value or error.
  lemma OptimizerPreservesInsert(b: BoundStatement, scan: ScanSource)
    requires b.BoundInsert? && PlanStatement(b).Ok?
    ensures var optimized := OptimizePlan(PlanStatement(b).value);
            optimized.Ok? &&
            var before := Lower(PlanStatement(b).value);
            var after := Lower(optimized.value);
            && before == Ok(PInsert([PValues([], [b.values])], b.table, MakeStorageRef(b.table)))
            && after.Ok? && after.value.PInsert? && |after.value.children| == 1
            && after == Ok(PInsert(after.value.children, b.table, MakeStorageRef(b.table)))
            && IsQuery(after.value.children[0])
            && ExecuteQuery(after.value.children[0], scan) == ExecuteQuery(PValues([], [b.values]), scan)
  {
    hide FoldExpression, Evaluate, StarFree, ValidateNoColumnReferences;
    var row := b.values;
    var values := LValues([], [row]);
    assert PlanStatement(b).value == LInsert([values], b.table);
    assert AllStarFree(row);
    FoldAllPreserves(row, NoRow);
    var folded := FoldAll(row).value;
    SingleRow(row);
    SingleRow(folded);
    assert FoldPlan(values) == Ok(LValues([], [folded])) by { assert FoldPlans([]) == Ok([]); }
    assert RemoveConstantFilters(LValues([], [folded])) == Ok(LValues([], [folded])) by { assert RemoveInAll([]) == Ok([]); }
    FoldOne(values);
    FoldOne(LValues([], [folded]));
    OptimizePlanIs(PlanStatement(b).value);
    assert OptimizePlan(PlanStatement(b).value) == Ok(LInsert([LValues([], [folded])], b.table));
    LowerOne(values);
    LowerOne(LValues([], [folded]));
  }

  lemma SingleRow(row: seq<BoundExpr>)
    ensures CloneRows([row]) == if AllStarFree(row) then Ok([row]) else Err(PlanError)
    ensures FoldRows([row]) == var r := FoldAll(row); if r.Ok? then Ok([r.value]) else Err(r.error)
    ensures ValueRows([row]) == var r := EvaluateAll(row, NoRow); if r.Ok? then Ok([r.value]) else Err(r.error)
  {
    hide CloneAll, FoldAll, EvaluateAll, AllStarFree;
    var c, f, v := CloneAll(row), FoldAll(row), EvaluateAll(row, NoRow);
    assert c.Ok? ==> [c.value] + [] == [c.value];
    assert f.Ok? ==> [f.value] + [] == [f.value];
    assert v.Ok? ==> [v.value] + [] == [v.value];
    assert [row][1..] == [];
    assert CloneRows([]) == Ok([]) && FoldRows([]) == Ok([]) && ValueRows([]) == Ok([]);
  }

  lemma OptimizerKeepsCreateTable(b: BoundStatement)
    requires b.BoundCreateTable? && PlanStatement(b).Ok?
    ensures OptimizePlan(PlanStatement(b).value) == PlanStatement(b)
  {
    OptimizePlanIs(PlanStatement(b).value);
    assert FoldPlans([]) == Ok([]) && RemoveInAll([]) == Ok([]);
  }

  // ---------------------------------------------------------------- the code

  method FoldList(es: seq<BoundExpr>) returns (r: Result<seq<BoundExpr>>)
    ensures r == FoldAll(es)
  {
    hide FoldExpression, Appended;
    var folded: seq<BoundExpr> := [];
    assert es[0..] == es;
    for i := 0 to |es|
      invariant FoldAll(es) == Appended(folded, FoldAll(es[i..]))
    {
      assert es[i..][0] == es[i] && es[i..][1..] == es[i + 1..];
      var e := FoldExpression(es[i]);
      if e.Err? {
        return Err(e.error);
      }
      AppendedStep(folded, [e.value], FoldAll(es[i + 1..]));
      folded := folded + [e.value];
    }
    return Ok(folded);
  }

  method FoldValueRows(rows: seq<seq<BoundExpr>>) returns (r: Result<seq<seq<BoundExpr>>>)
    ensures r == FoldRows(rows)
  {
    hide FoldAll, Appended;
    var folded: seq<seq<BoundExpr>> := [];
    assert rows[0..] == rows;
    for i := 0 to |rows|
      invariant FoldRows(rows) == Appended(folded, FoldRows(rows[i..]))
    {
      assert rows[i..][0] == rows[i] && rows[i..][1..] == rows[i + 1..];
      var row := FoldList(rows[i]);
      if row.Err? {
        return Err(row.error);
      }
      AppendedStep(folded, [row.value], FoldRows(rows[i + 1..]));
      folded := folded + [row.value];
    }
    return Ok(folded);
  }

  method ApplyConstantFolding(plan: LogicalPlan) returns (r: Result<LogicalPlan>)
    ensures r == FoldPlan(plan)
    decreases plan
  {
    hide FoldExpression, FoldAll, FoldRows, Appended;
    var children: seq<LogicalPlan> := [];
    assert plan.children[0..] == plan.children;
    for i := 0 to |plan.children|
      invariant FoldPlans(plan.children) == Appended(children, FoldPlans(plan.children[i..]))
    {
      assert plan.children[i..][0] == plan.children[i] && plan.children[i..][1..] == plan.children[i + 1..];
      var child := ApplyConstantFolding(plan.children[i]);
      if child.Err? {
        return child;
      }
      AppendedStep(children, [child.value], FoldPlans(plan.children[i + 1..]));
      children := children + [child.value];
    }
    match plan {
      case LFilter(_, condition) =>
        var c := FoldExpression(condition);
        if c.Err? { return Err(c.error); }
        return Ok(LFilter(children, c.value));
      case LProjection(_, projections, names) =>
        var es := FoldList(projections);
        if es.Err? { return Err(es.error); }
        return Ok(LProjection(children, es.value, names));
      case LValues(_, rows) =>
        var folded := FoldValueRows(rows);
        if folded.Err? { return Err(folded.error); }
        return Ok(LValues(children, folded.value));
      case _ =>
        return Ok(WithChildren(plan, children));
    }
  }

  method ApplyFilterRemoval(plan: LogicalPlan) returns (r: Result<LogicalPlan>)
    ensures r == RemoveConstantFilters(plan)
    decreases plan
  {
    hide Appended;
    var children: seq<LogicalPlan> := [];
    assert plan.children[0..] == plan.children;
    for i := 0 to |plan.children|
      invariant RemoveInAll(plan.children) == Appended(children, RemoveInAll(plan.children[i..]))
    {
      assert plan.children[i..][0] == plan.children[i] && plan.children[i..][1..] == plan.children[i + 1..];
      var child := ApplyFilterRemoval(plan.children[i]);
      if child.Err? {
        return child;
      }
      AppendedStep(children, [child.value], RemoveInAll(plan.children[i + 1..]));
      children := children + [child.value];
    }
    if !plan.LFilter? {
      return Ok(WithChildren(plan, children));
    }
    var decided := BooleanLiteral(plan.condition);
    if decided.None? {
      return Ok(WithChildren(plan, children));
    }
    if decided.value {
      if |children| != 1 { return Err(PlanError); }
      return Ok(children[0]);
    }
    return Ok(LValues([], []));
  }

  method Optimize(rules: seq<Rule>, plan: LogicalPlan) returns (r: Result<LogicalPlan>)
    ensures r == ApplyRules(rules, plan)
  {
    hide FoldPlan, RemoveConstantFilters;
    var current := plan;
    assert rules[0..] == rules;
    for i := 0 to |rules|
      invariant ApplyRules(rules, plan) == ApplyRules(rules[i..], current)
    {
      assert rules[i..][0] == rules[i] && rules[i..][1..] == rules[i + 1..];
      var optimized: Result<LogicalPlan>;
      match rules[i] {
        case ConstantFolding => optimized := ApplyConstantFolding(current);
        case RemoveConstantFilter => optimized := ApplyFilterRemoval(current);
      }
      if optimized.Err? {
        return optimized;
      }
      current := optimized.value;
    }
    return Ok(current);
  }
}
