/**
  default_executor.cpp: the operators over the catalog and the storage. ExecutePlan threads the
  database through the plan as the recursion of the source does; the loops are methods.
 */
module Executor {
  import opened Common
  import CheckedArithmetic
  import opened ByteIo
  import opened Expressions
  import opened Plans
  import opened QueryExecution
  import opened Catalog
  import opened Heap
  import opened TupleCodec
  import opened TableScan
  import opened TableStorage

  datatype TransactionMode = ReadOnly | ReadWrite
  datatype TransactionState = Active | Committed | RolledBack | Aborted
  datatype Transaction = Transaction(mode: TransactionMode, state: TransactionState)

  datatype DatabaseState = DatabaseState(catalog: CatalogState, storage: StorageState)

  const NO_ROWS := Relation([], [], [])

  function RequireActive(tx: Transaction): Status {
    if tx.state != Active then Err(TransactionConflict) else OkStatus
  }

  function RequireWritable(tx: Transaction): Status {
    var active := RequireActive(tx);
    if active.Err? then active
    else if tx.mode != ReadWrite then Err(TransactionConflict)
    else OkStatus
  }

  // ---------------------------------------------------------------- operators on values

  function ScanTable(s: StorageState, ref: StorageRef): Result<seq<Row>> {
    var heap :- OpenHeap(s, ref);
    ScanHeap(heap, ref.schema)
  }

  function Scanner(s: StorageState): (scan: ScanSource)
    ensures forall ref :: scan(ref) == ScanTable(s, ref)
  {
    ref => ScanTable(s, ref)
  }

  // The catalog learns the root of a listed table, or forgets the table when there is none.
  function NoteRoot(c: CatalogState, table: TableInfo, root: Result<PageId>): (CatalogState, Result<Relation>) {
    if root.Err? then (DropTable(c, table.name).0, Err(root.error))
    else
      var (rooted, status) := SetTableHeapRoot(c, table.id, root.value);
      if status.Err? then (DropTable(rooted, table.name).0, Err(status.error)) else (rooted, Ok(NO_ROWS))
  }

  function ProvideHeap(db: DatabaseState, table: TableInfo): (DatabaseState, Result<Relation>) {
    var (storage, root) := CreateHeap(db.storage, table.id);
    var (catalog, r) := NoteRoot(db.catalog, table, root);
    (DatabaseState(catalog, storage), r)
  }

  function ExecuteCreate(db: DatabaseState, request: CreateTableRequest): (DatabaseState, Result<Relation>) {
    var (listed, table) := Catalog.CreateTable(db.catalog, request);
    if table.Err? then (db.(catalog := listed), Err(table.error))
    else ProvideHeap(db.(catalog := listed), table.value)
  }

  // Rows are stored one by one; those before a failing row stay.
  function InsertRows(s: StorageState, id: nat, schema: TableSchema, rows: seq<Row>): (StorageState, Status)
    requires id in s.tables
    decreases |rows|
  {
    if rows == [] then (s, OkStatus)
    else if |rows[0]| != |schema| then (s, Err(ExecutionError))
    else
      var tuple := EncodeRow(schema, rows[0]);
      if tuple.Err? then (s, Err(tuple.error))
      else
        var (s1, r) := InsertInto(s, id, tuple.value);
        if r.Err? then (s1, Err(r.error)) else InsertRows(s1, id, schema, rows[1..])
  }

  function StoreRows(db: DatabaseState, table: TableInfo, ref: StorageRef, rows: seq<Row>): (DatabaseState, Result<Relation>) {
    var heap := OpenHeap(db.storage, ref);
    if heap.Err? then (db, Err(heap.error))
    else
      var (storage, status) := InsertRows(db.storage, ref.tableId, table.schema, rows);
      (db.(storage := storage), if status.Err? then Err(status.error) else Ok(NO_ROWS))
  }

  function Project(input: Relation, es: seq<BoundExpr>, names: seq<Text>): Result<Relation>
    requires names == [] || |names| == |es|
  {
    var rows :- ProjectRows(es, |input.schema|, input.rows);
    Ok(Relation(OutputNames(es, names), OutputSchema(es, names), rows))
  }

  function Filter(input: Relation, condition: BoundExpr): Result<Relation> {
    var rows :- FilterRows(condition, |input.schema|, input.rows);
    Ok(input.(rows := rows))
  }

  function ExecutePlan(db: DatabaseState, plan: PhysicalPlan, tx: Transaction): (DatabaseState, Result<Relation>)
    decreases plan
  {
    match plan
    case PCreateTable(children, request) =>
      if children != [] then (db, Err(ExecutionError))
      else if RequireWritable(tx).Err? then (db, Err(RequireWritable(tx).error))
      else ExecuteCreate(db, request)
    case PInsert(children, table, ref) =>
      if |children| != 1 then (db, Err(ExecutionError))
      else if RequireWritable(tx).Err? then (db, Err(RequireWritable(tx).error))
      else
        var (db1, input) := ExecutePlan(db, children[0], tx);
        if input.Err? then (db1, input) else StoreRows(db1, table, ref, input.value.rows)
    case PProjection(children, es, names) =>
      if |children| != 1 || es == [] || (names != [] && |names| != |es|) then (db, Err(ExecutionError))
      else
        var (db1, input) := ExecutePlan(db, children[0], tx);
        (db1, if input.Err? then input else Project(input.value, es, names))
    case PFilter(children, condition) =>
      if |children| != 1 then (db, Err(ExecutionError))
      else
        var (db1, input) := ExecutePlan(db, children[0], tx);
        (db1, if input.Err? then input else Filter(input.value, condition))
    case PValues(children, rows) =>
      if children != [] then (db, Err(ExecutionError))
      else
        var values := ValueRows(rows);
        (db, if values.Err? then Err(values.error) else Ok(Relation([], [], values.value)))
    case PSeqScan(children, table, ref) =>
      if children != [] then (db, Err(ExecutionError))
      else
        var rows := ScanTable(db.storage, ref.(schema := table.schema));
        (db, if rows.Err? then Err(rows.error) else Ok(Relation(ColumnNames(table.schema), table.schema, rows.value)))
  }

  function Execute(db: DatabaseState, plan: PhysicalPlan, tx: Transaction): (DatabaseState, Result<Relation>) {
    var active := RequireActive(tx);
    if active.Err? then (db, Err(active.error)) else ExecutePlan(db, plan, tx)
  }

  // ---------------------------------------------------------------- laws of the guards

  // Plans of reading operators leave the database as it is and compute the query's meaning.
  lemma {:induction false} QueriesOnlyRead(db: DatabaseState, plan: PhysicalPlan, tx: Transaction)
    requires IsQuery(plan)
    ensures ExecutePlan(db, plan, tx) == (db, ExecuteQuery(plan, Scanner(db.storage)))
    decreases plan
  {
    hide ScanTable, ProjectRows, FilterRows, OutputNames, OutputSchema, ValueRows;
    match plan
    case PProjection(children, _, _) => if |children| == 1 { QueriesOnlyRead(db, children[0], tx); }
    case PFilter(children, _) => if |children| == 1 { QueriesOnlyRead(db, children[0], tx); }
    case PValues(_, _) =>
    case PSeqScan(_, _, _) =>
  }

  // Without a read-write transaction no plan whatsoever changes the database.
  lemma {:induction false} ReadOnlyChangesNothing(db: DatabaseState, plan: PhysicalPlan, tx: Transaction)
    requires tx.mode != ReadWrite || tx.state != Active
    ensures ExecutePlan(db, plan, tx).0 == db
    decreases plan
  {
    hide ScanTable, Project, Filter, ValueRows, StoreRows, ExecuteCreate;
    match plan
    case PCreateTable(_, _) =>
    case PInsert(_, _, _) =>
    case PProjection(children, _, _) => if |children| == 1 { ReadOnlyChangesNothing(db, children[0], tx); }
    case PFilter(children, _) => if |children| == 1 { ReadOnlyChangesNothing(db, children[0], tx); }
    case PValues(_, _) =>
    case PSeqScan(_, _, _) =>
  }

  // An inactive transaction executes nothing.
  lemma InactiveIsRefused(db: DatabaseState, plan: PhysicalPlan, tx: Transaction)
    requires tx.state != Active
    ensures Execute(db, plan, tx) == (db, Err(TransactionConflict))
  {
  }

  // ---------------------------------------------------------------- the code

  method ProjectLoop(input: Relation, es: seq<BoundExpr>, names: seq<Text>) returns (r: Result<Relation>)
    requires names == [] || |names| == |es|
    ensures r == Project(input, es, names)
  {
    hide Evaluate, Appended, EvaluateAll, OutputName;
    var columns: seq<Text> := [];
    var schema: TableSchema := [];
    for index := 0 to |es|
      invariant columns == OutputNames(es, names)[..index] && schema == OutputSchema(es, names)[..index]
    {
      var name := OutputName(es, names, index);
      columns := columns + [name];
      schema := schema + [ColumnSchema(name, es[index].ty, true, index)];
    }
    assert columns == OutputNames(es, names) && schema == OutputSchema(es, names);
    var rows := ProjectAllRows(es, |input.schema|, input.rows);
    if rows.Err? { return Err(rows.error); }
    return Ok(Relation(columns, schema, rows.value));
  }

  method ProjectAllRows(es: seq<BoundExpr>, width: nat, input: seq<Row>) returns (r: Result<seq<Row>>)
    ensures r == ProjectRows(es, width, input)
  {
    hide EvaluateAll, Appended;
    var rows: seq<Row> := [];
    assert input[0..] == input;
    for i := 0 to |input|
      invariant ProjectRows(es, width, input) == Appended(rows, ProjectRows(es, width, input[i..]))
    {
      assert input[i..][0] == input[i] && input[i..][1..] == input[i + 1..];
      var projected := EvaluateExpressions(es, RowContext(width, input[i]));
      if projected.Err? { return Err(projected.error); }
      AppendedStep(rows, [projected.value], ProjectRows(es, width, input[i + 1..]));
      rows := rows + [projected.value];
    }
    return Ok(rows);
  }

  method FilterLoop(input: Relation, condition: BoundExpr) returns (r: Result<Relation>)
    ensures r == Filter(input, condition)
  {
    hide Evaluate, Appended;
    var width, given := |input.schema|, input.rows;
    var rows: seq<Row> := [];
    assert given[0..] == given;
    for i := 0 to |given|
      invariant FilterRows(condition, width, given) == Appended(rows, FilterRows(condition, width, given[i..]))
    {
      assert given[i..][0] == given[i] && given[i..][1..] == given[i + 1..];
      ghost var rest := FilterRows(condition, width, given[i + 1..]);
      var v := Evaluate(condition, RowContext(width, given[i]));
      if v.Err? { return Err(v.error); }
      var keep := CheckedArithmetic.RequireBoolean(v.value);
      if keep.Err? { return Err(keep.error); }
      assert Keeps(condition, width, given[i]) == keep;
      AppendedStep(rows, [given[i]], rest);
      if keep.value {
        rows := rows + [given[i]];
      }
    }
    return Ok(input.(rows := rows));
  }

  method ValuesLoop(lists: seq<seq<BoundExpr>>) returns (r: Result<seq<Row>>)
    ensures r == ValueRows(lists)
  {
    hide EvaluateAll, Appended;
    var rows: seq<Row> := [];
    assert lists[0..] == lists;
    for i := 0 to |lists|
      invariant ValueRows(lists) == Appended(rows, ValueRows(lists[i..]))
    {
      assert lists[i..][0] == lists[i] && lists[i..][1..] == lists[i + 1..];
      var values := EvaluateExpressions(lists[i], NoRow);
      if values.Err? { return Err(values.error); }
      AppendedStep(rows, [values.value], ValueRows(lists[i + 1..]));
      rows := rows + [values.value];
    }
    return Ok(rows);
  }

  lemma InsertIntoKeepsTables(s: StorageState, id: nat, record: Bytes)
    requires id in s.tables
    ensures InsertInto(s, id, record).0.tables.Keys == s.tables.Keys
  {
    hide HeapInsert;
  }

  class ExecutionDriver {
    const catalog: InMemoryCatalog
    const storage: InMemoryTableStorage
    const transaction: Transaction

    ghost predicate Valid()
      reads storage, storage.Repr
    {
      storage.Valid() && catalog.hosted !in storage.Repr
    }

    ghost function State(): DatabaseState
      requires Valid()
      reads catalog.hosted, storage, storage.Repr
    {
      DatabaseState(catalog.State(), storage.State())
    }

    constructor (c: InMemoryCatalog, s: InMemoryTableStorage, tx: Transaction)
      requires s.Valid() && c.hosted !in s.Repr
      ensures catalog == c && storage == s && transaction == tx
      ensures Valid() && State() == DatabaseState(c.State(), s.State())
    {
      catalog, storage, transaction := c, s, tx;
    }

    // Storage for a listed table, or its catalog entry undone.
    method AttachHeap(table: TableInfo) returns (r: Result<Relation>)
      requires Valid()
      modifies catalog.hosted, storage.Repr
      ensures Valid() && fresh(storage.Repr - old(storage.Repr))
      ensures (State(), r) == ProvideHeap(old(State()), table)
    {
      assert storage in storage.Repr;
      hide InMemoryTableStorage.State, InMemoryTableStorage.Valid, CreateHeap, NoteRoot, HostedCatalog.State,
           InMemoryCatalog.State;
      var root := storage.Create(table.id);
      ghost var stored := storage.State();
      assert catalog.State() == old(catalog.State()) && catalog.hosted !in storage.Repr;
      r := RecordRoot(table, root);
      assert storage.State() == stored;
    }

    method RecordRoot(table: TableInfo, root: Result<PageId>) returns (r: Result<Relation>)
      modifies catalog.hosted
      ensures (catalog.State(), r) == NoteRoot(old(catalog.State()), table, root)
    {
      if root.Err? {
        var dropped := catalog.Drop(table.name);
        return Err(root.error);
      }
      var status := catalog.SetRoot(table.id, root.value);
      if status.Err? {
        var dropped := catalog.Drop(table.name);
        return Err(status.error);
      }
      return Ok(NO_ROWS);
    }

    method CreateTable(request: CreateTableRequest) returns (r: Result<Relation>)
      requires Valid()
      modifies catalog.hosted, storage.Repr
      ensures Valid() && fresh(storage.Repr - old(storage.Repr))
      ensures (State(), r) == ExecuteCreate(old(State()), request)
    {
      hide InMemoryTableStorage.State, InMemoryTableStorage.Valid, Catalog.CreateTable, ProvideHeap, HostedCatalog.State,
           InMemoryCatalog.State;
      var table := catalog.Create(request);
      if table.Err? { return Err(table.error); }
      r := AttachHeap(table.value);
    }

    method Store(table: TableInfo, ref: StorageRef, rows: seq<Row>) returns (r: Result<Relation>)
      requires Valid()
      modifies storage.Repr
      ensures Valid() && fresh(storage.Repr - old(storage.Repr))
      ensures (State(), r) == StoreRows(old(State()), table, ref, rows)
    {
      hide InMemoryTableStorage.State, InMemoryTableStorage.Valid, InsertInto, EncodeRow, HeapInsert;
      var heap := storage.Open(ref);
      if heap.Err? { return Err(heap.error); }
      ghost var before := storage.State();
      var id := ref.tableId;
      assert rows[0..] == rows;
      for i := 0 to |rows|
        invariant Valid() && fresh(storage.Repr - old(storage.Repr))
        invariant storage.tables == old(storage.tables) && id in storage.tables && heap.value == storage.tables[id].heap
        invariant catalog.State() == old(catalog.State()) && id in before.tables && id in storage.State().tables
        invariant InsertRows(before, id, table.schema, rows) == InsertRows(storage.State(), id, table.schema, rows[i..])
      {
        assert rows[i..][0] == rows[i] && rows[i..][1..] == rows[i + 1..];
        if |rows[i]| != |table.schema| { return Err(ExecutionError); }
        var tuple := Encode(table.schema, rows[i]);
        if tuple.Err? { return Err(tuple.error); }
        InsertIntoKeepsTables(storage.State(), id, tuple.value);
        var inserted := InsertThroughHandle(storage, id, heap.value, tuple.value);
        if inserted.Err? { return Err(inserted.error); }
      }
      return Ok(NO_ROWS);
    }

    method Scan(table: TableInfo, ref: StorageRef) returns (r: Result<Relation>)
      requires Valid()
      ensures r == var rows := ScanTable(storage.State(), ref.(schema := table.schema));
                   if rows.Err? then Err(rows.error) else Ok(Relation(ColumnNames(table.schema), table.schema, rows.value))
    {
      hide ScanHeap;
      var heap := storage.Open(ref);
      if heap.Err? { return Err(heap.error); }
      var columns: seq<Text> := [];
      for i := 0 to |table.schema|
        invariant columns == ColumnNames(table.schema)[..i]
      {
        columns := columns + [table.schema[i].name];
      }
      assert columns == ColumnNames(table.schema);
      var rows := ScanRows(heap.value, table.schema);
      if rows.Err? { return Err(rows.error); }
      return Ok(Relation(columns, table.schema, rows.value));
    }

    method ExecuteNode(plan: PhysicalPlan) returns (r: Result<Relation>)
      requires Valid()
      modifies catalog.hosted, storage.Repr
      ensures Valid() && fresh(storage.Repr - old(storage.Repr))
      ensures (State(), r) == ExecutePlan(old(State()), plan, transaction)
      decreases plan
    {
      hide ExecuteCreate, StoreRows, Project, Filter, ValueRows, ScanTable, State, InMemoryTableStorage.Valid;
      match plan
      case PCreateTable(children, request) =>
        if children != [] { return Err(ExecutionError); }
        var writable := RequireWritable(transaction);
        if writable.Err? { return Err(writable.error); }
        r := CreateTable(request);
      case PInsert(children, table, ref) =>
        if |children| != 1 { return Err(ExecutionError); }
        var writable := RequireWritable(transaction);
        if writable.Err? { return Err(writable.error); }
        var input := ExecuteNode(children[0]);
        if input.Err? { return input; }
        r := Store(table, ref, input.value.rows);
      case PProjection(children, es, names) =>
        if |children| != 1 || es == [] || (names != [] && |names| != |es|) { return Err(ExecutionError); }
        var input := ExecuteNode(children[0]);
        if input.Err? { return input; }
        r := ProjectLoop(input.value, es, names);
      case PFilter(children, condition) =>
        if |children| != 1 { return Err(ExecutionError); }
        var input := ExecuteNode(children[0]);
        if input.Err? { return input; }
        r := FilterLoop(input.value, condition);
      case PValues(children, rows) =>
        if children != [] { return Err(ExecutionError); }
        var values := ValuesLoop(rows);
        if values.Err? { return Err(values.error); }
        return Ok(Relation([], [], values.value));
      case PSeqScan(children, table, ref) =>
        if children != [] { return Err(ExecutionError); }
        r := ScanNode(table, ref);
    }

    method ScanNode(table: TableInfo, ref: StorageRef) returns (r: Result<Relation>)
      requires Valid()
      ensures r == ExecutePlan(State(), PSeqScan([], table, ref), transaction).1
    {
      hide ScanTable;
      r := Scan(table, ref);
    }
  }
}
