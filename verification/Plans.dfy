/**
  Bound statements, logical plans and physical plans, with the two planners
  (default_logical_planner.cpp, default_physical_planner.cpp).
 */
module Plans {
  import opened Common
  import opened Expressions

  datatype IndexSchema = IndexSchema(name: Text, keyColumns: seq<nat>, unique: bool)
  datatype IndexInfo = IndexInfo(id: nat, name: Text, tableId: nat, schema: IndexSchema, root: PageId)
  datatype TableInfo = TableInfo(id: nat, name: Text, schema: TableSchema, heapRoot: PageId, indexes: seq<IndexInfo>)

  // The default-constructed TableInfo of a SELECT without FROM.
  const NO_TABLE := TableInfo(0, [], [], INVALID_PAGE_ID, [])

  datatype CreateTableRequest = CreateTableRequest(name: Text, schema: TableSchema)

  datatype BoundStatement =
    | BoundSelect(projections: seq<BoundExpr>, names: seq<Text>, table: TableInfo, where: Option<BoundExpr>)
    | BoundInsert(table: TableInfo, values: seq<BoundExpr>)
    | BoundCreateTable(request: CreateTableRequest)

  datatype LogicalPlan =
    | LCreateTable(children: seq<LogicalPlan>, request: CreateTableRequest)
    | LInsert(children: seq<LogicalPlan>, table: TableInfo)
    | LProjection(children: seq<LogicalPlan>, projections: seq<BoundExpr>, names: seq<Text>)
    | LFilter(children: seq<LogicalPlan>, condition: BoundExpr)
    | LValues(children: seq<LogicalPlan>, rows: seq<seq<BoundExpr>>)
    | LSeqScan(children: seq<LogicalPlan>, table: TableInfo)

  // The key under which table storage is opened.
  datatype StorageRef = StorageRef(tableId: nat, tableName: Text, root: PageId, schema: TableSchema)

  datatype PhysicalPlan =
    | PCreateTable(children: seq<PhysicalPlan>, request: CreateTableRequest)
    | PInsert(children: seq<PhysicalPlan>, table: TableInfo, storage: StorageRef)
    | PProjection(children: seq<PhysicalPlan>, projections: seq<BoundExpr>, names: seq<Text>)
    | PFilter(children: seq<PhysicalPlan>, condition: BoundExpr)
    | PValues(children: seq<PhysicalPlan>, rows: seq<seq<BoundExpr>>)
    | PSeqScan(children: seq<PhysicalPlan>, table: TableInfo, storage: StorageRef)

  // ---------------------------------------------------------------- lists of expressions

  function ValidateAll(es: seq<BoundExpr>): Status {
    if es == [] then OkStatus
    else
      var status := ValidateNoColumnReferences(es[0]);
      if status.Err? then status else ValidateAll(es[1..])
  }

  function CloneAll(es: seq<BoundExpr>): (r: Result<seq<BoundExpr>>)
    ensures r == if AllStarFree(es) then Ok(es) else Err(PlanError)
  {
    if es == [] then Ok([])
    else
      CloneIsIdentity(es[0]);
      HeadTail(es);
      assert es == [es[0]] + es[1..];
      var e :- CloneBoundExpression(es[0]);
      var rest :- CloneAll(es[1..]);
      Ok([e] + rest)
  }

  predicate AllStarFree(es: seq<BoundExpr>) {
    forall i :: 0 <= i < |es| ==> StarFree(es[i])
  }

  lemma HeadTail(es: seq<BoundExpr>)
    requires es != []
    ensures AllStarFree(es) <==> StarFree(es[0]) && AllStarFree(es[1..])
  {
    assert forall i :: 0 < i < |es| ==> es[i] == es[1..][i - 1];
  }

  function CloneRows(rows: seq<seq<BoundExpr>>): Result<seq<seq<BoundExpr>>> {
    if rows == [] then Ok([])
    else
      var row :- CloneAll(rows[0]);
      var rest :- CloneRows(rows[1..]);
      Ok([row] + rest)
  }

  // ---------------------------------------------------------------- logical planner

  function MakeFilter(condition: BoundExpr, child: LogicalPlan): Result<LogicalPlan> {
    if condition.ty != Boolean then Err(TypeMismatch) else Ok(LFilter([child], condition))
  }

  function SelectSource(b: BoundStatement): Result<LogicalPlan>
    requires b.BoundSelect?
  {
    if b.table.name != [] then Ok(LSeqScan([], b.table))
    else
      var projections := ValidateAll(b.projections);
      if projections.Err? then Err(projections.error)
      else
        var where := if b.where.Some? then ValidateNoColumnReferences(b.where.value) else OkStatus;
        if where.Err? then Err(where.error)
        else Ok(LValues([], [[]]))             // one empty input row
  }

  function PlanSelect(b: BoundStatement): Result<LogicalPlan>
    requires b.BoundSelect?
  {
    if b.projections == [] then Err(PlanError)
    else if b.names != [] && |b.names| != |b.projections| then Err(PlanError)
    else
      var source :- SelectSource(b);
      var input :- if b.where.None? then Ok(source) else
        var condition :- CloneBoundExpression(b.where.value);
        MakeFilter(condition, source);
      var projections :- CloneAll(b.projections);
      Ok(LProjection([input], projections, b.names))
  }

  function PlanInsert(b: BoundStatement): Result<LogicalPlan>
    requires b.BoundInsert?
  {
    if b.table.name == [] then Err(PlanError)
    else if |b.values| != |b.table.schema| then Err(PlanError)
    else
      var values := ValidateAll(b.values);
      if values.Err? then Err(values.error)
      else
        var row :- CloneAll(b.values);
        Ok(LInsert([LValues([], [row])], b.table))
  }

  function PlanStatement(b: BoundStatement): Result<LogicalPlan> {
    match b
    case BoundSelect(_, _, _, _) => PlanSelect(b)
    case BoundInsert(_, _) => PlanInsert(b)
    case BoundCreateTable(request) =>
      if request.name == [] then Err(PlanError)
      else if request.schema == [] then Err(PlanError)
      else Ok(LCreateTable([], request))
  }

  // ---------------------------------------------------------------- physical planner

  function MakeStorageRef(table: TableInfo): StorageRef {
    StorageRef(table.id, table.name, table.heapRoot, table.schema)
  }

  function LowerAll(plans: seq<LogicalPlan>): (r: Result<seq<PhysicalPlan>>)
    ensures r.Ok? ==> |r.value| == |plans|
    decreases plans, 0
  {
    if plans == [] then Ok([])
    else
      var p :- Lower(plans[0]);
      var rest :- LowerAll(plans[1..]);
      Ok([p] + rest)
  }

  function Lower(plan: LogicalPlan): Result<PhysicalPlan>
    decreases plan, 1
  {
    match plan
    case LCreateTable(children, request) =>
      if children != [] || request.name == [] || request.schema == [] then Err(PlanError)
      else Ok(PCreateTable([], request))
    case LInsert(children, table) =>
      if |children| != 1 || table.name == [] then Err(PlanError)
      else
        var lowered :- LowerAll(children);
        Ok(PInsert(lowered, table, MakeStorageRef(table)))
    case LProjection(children, projections, names) =>
      if |children| != 1 || projections == [] || (names != [] && |names| != |projections|) then Err(PlanError)
      else
        var lowered :- LowerAll(children);
        var cloned :- CloneAll(projections);
        Ok(PProjection(lowered, cloned, names))
    case LFilter(children, condition) =>
      if |children| != 1 then Err(PlanError)
      else if condition.ty != Boolean then Err(TypeMismatch)
      else
        var lowered :- LowerAll(children);
        var cloned :- CloneBoundExpression(condition);
        Ok(PFilter(lowered, cloned))
    case LValues(children, rows) =>
      if children != [] then Err(PlanError)
      else
        var cloned :- CloneRows(rows);
        Ok(PValues([], cloned))
    case LSeqScan(children, table) =>
      if children != [] || table.name == [] then Err(PlanError)
      else Ok(PSeqScan([], table, MakeStorageRef(table)))
  }

  method LowerChildren(plans: seq<LogicalPlan>) returns (r: Result<seq<PhysicalPlan>>)
    ensures r == LowerAll(plans)
  {
    hide Lower, Appended;
    var planned: seq<PhysicalPlan> := [];
    assert plans[0..] == plans;
    for i := 0 to |plans|
      invariant LowerAll(plans) == Appended(planned, LowerAll(plans[i..]))
    {
      assert plans[i..][0] == plans[i] && plans[i..][1..] == plans[i + 1..];
      var p := Lower(plans[i]);
      if p.Err? {
        return Err(p.error);
      }
      AppendedStep(planned, [p.value], LowerAll(plans[i + 1..]));
      planned := planned + [p.value];
    }
    return Ok(planned);
  }

  // The planner's products, whatever the bound statement: star-free, of the documented arity.
  lemma PlannedSelectShape(b: BoundStatement)
    requires b.BoundSelect? && PlanStatement(b).Ok?
    ensures var source := if b.table.name != [] then LSeqScan([], b.table) else LValues([], [[]]);
            var input := if b.where.None? then source else LFilter([source], b.where.value);
            PlanStatement(b).value == LProjection([input], b.projections, b.names)
    ensures b.projections != [] && (b.names == [] || |b.names| == |b.projections|)
    ensures AllStarFree(b.projections)
    ensures b.where.Some? ==> b.where.value.ty == Boolean && StarFree(b.where.value)
  {
    if b.where.Some? {
      CloneIsIdentity(b.where.value);
    }
  }
}
