/**
  The engine against an abstract database: a map from folded table names to a schema and a bag
  of rows. Every statement moves the abstract database as its specification says, and every run
  from the empty engine keeps the catalog and the storage linked.
 */
module Refinement {
  import opened Common
  import opened ByteIo
  import opened Expressions
  import opened Plans
  import opened QueryExecution
  import opened Optimizer
  import opened Parser
  import opened Binder
  import opened BoundStatements
  import opened TypeSoundness
  import opened StatementMeaning
  import opened Catalog
  import opened SlottedPage
  import opened Heap
  import opened TupleCodec
  import opened TableScan
  import opened TableStorage
  import opened Executor
  import opened Engine

  // ---------------------------------------------------------------- the abstract database

  datatype AbstractTable = AbstractTable(schema: TableSchema, rows: multiset<Row>)
  type AbstractDatabase = map<Text, AbstractTable>

  ghost predicate Stored(db: DatabaseState, t: TableInfo) {
    && t.heapRoot != INVALID_PAGE_ID && t.id in db.storage.tables
    && db.storage.tables[t.id].root == t.heapRoot
    && Decodes(db.storage.tables[t.id].heap, t.schema)
  }

  // Catalog and storage are sound, every listed table has a root that OpenHeap accepts and a
  // heap of records of its schema, and no heap belongs to a table id not yet issued.
  ghost predicate Linked(db: DatabaseState) {
    && CatalogInv(db.catalog) && StorageInv(db.storage)
    && (forall key :: key in db.catalog.tables ==> Stored(db, db.catalog.tables[key]))
    && (forall id :: id in db.storage.tables ==> id < db.catalog.nextTableId)
  }

  ghost function TableContents(db: DatabaseState, t: TableInfo): AbstractTable
    requires t.id in db.storage.tables
  {
    AbstractTable(t.schema, Bag(db.storage.tables[t.id].heap, t.schema))
  }

  ghost function Abstraction(db: DatabaseState): (a: AbstractDatabase)
    requires Linked(db)
    ensures a.Keys == db.catalog.tables.Keys
    ensures forall key :: key in a ==> a[key] == TableContents(db, db.catalog.tables[key])
  {
    hide CatalogInv, StorageInv, Decodes, Bag;
    assert forall key :: key in db.catalog.tables ==> Stored(db, db.catalog.tables[key]);
    map key | key in db.catalog.tables :: TableContents(db, db.catalog.tables[key])
  }

  // What the catalog says about a name, as far as the abstract database knows.
  ghost predicate Describes(a: AbstractDatabase, name: Text, found: Result<TableInfo>) {
    var key := FoldIdentifierKey(name);
    if key in a then
      && found.Ok? && found.value.schema == a[key].schema && WellFormedSchema(found.value.schema)
      && found.value.schema != [] && found.value.name != [] && FoldIdentifierKey(found.value.name) == key
    else found == Err(NotFound)
  }

  // ---------------------------------------------------------------- what statements mean

  // The rows a SELECT ranges over: some listing of the table's bag, or one empty row.
  ghost predicate RangesOver(a: AbstractDatabase, name: Text, rows: seq<Row>) {
    if name == [] then rows == [[]]
    else FoldIdentifierKey(name) in a && multiset(rows) == a[FoldIdentifierKey(name)].rows
  }

  // A SELECT fails for its first fault, or answers what it reads as over a listing.
  ghost predicate SelectSpec(a: AbstractDatabase, s: Statement, found: Result<TableInfo>, tx: Transaction, r: Result<QueryResult>)
    requires s.SelectStatement?
  {
    || (exists fault :: SelectFault(s, found, fault) && r == Err(fault))
    || (exists b :: SelectReads(s, found, b) && SelectedBy(a, s.tableName, b, tx, r))
  }

  ghost predicate SelectedBy(a: AbstractDatabase, name: Text, b: BoundStatement, tx: Transaction, r: Result<QueryResult>)
  {
    && b.BoundSelect? && |b.names| == |b.projections|
    && if b.projections == [] then r == Err(PlanError)
       else if tx.state != Active then r == Err(TransactionConflict)
       else exists rows :: RangesOver(a, name, rows) && AnswerMeans(b, rows, r)
  }

  // The largest record a page of the default size takes.
  const MAX_RECORD: nat := DEFAULT_PAGE_SIZE - SLOT_ENTRY_SIZE

  ghost predicate Writable(tx: Transaction) {
    tx.state == Active && tx.mode == ReadWrite
  }

  // INSERT fails for its first fault, or adds the row its values mean, or fails and changes
  // nothing. A legal one is refused only for a row too large for a page, as long as page ids
  // are ample, and with Internal once they are used up.
  ghost predicate InsertSpec(a: AbstractDatabase, s: Statement, found: Result<TableInfo>, tx: Transaction, ample: bool,
                             a1: AbstractDatabase, r: Result<QueryResult>)
    requires s.InsertStatement?
  {
    || (exists fault :: InsertFault(s, found, fault) && r == Err(fault) && a1 == a)
    || (exists b :: InsertReads(s, found, b) && InsertedBy(a, FoldIdentifierKey(s.tableName), b, tx, ample, a1, r))
  }

  ghost predicate InsertedBy(a: AbstractDatabase, key: Text, b: BoundStatement, tx: Transaction, ample: bool,
                             a1: AbstractDatabase, r: Result<QueryResult>) {
    b.BoundInsert? &&
    if !Writable(tx) then r == Err(TransactionConflict) && a1 == a
    else exists row :: RowMeans(b.values, [], row) && RowAdded(a, key, row, ample, a1, r)
  }

  ghost predicate RowAdded(a: AbstractDatabase, key: Text, row: Result<Row>, ample: bool, a1: AbstractDatabase,
                           r: Result<QueryResult>) {
    if row.Err? then r == Err(row.error) && a1 == a
    else
      && key in a && Conforms(a[key].schema, row.value)
      && StoredExactly(row.value, ample, r)
      && (r.Ok? ==> r.value == QueryResult([], []) && a1 == a[key := AbstractTable(a[key].schema, a[key].rows + multiset{row.value})])
      && (r.Err? ==> a1 == a)
  }

  // What storing a legal row comes to.
  ghost predicate StoredExactly<T>(row: Row, ample: bool, r: Result<T>) {
    && (r.Ok? ==> RowSize(row) <= MAX_RECORD)
    && (r.Err? && RowSize(row) <= MAX_RECORD ==> r.error == ErrorCode.Internal && !ample)
    && (r.Err? ==> r.error == InvalidArgument || (r.error == ErrorCode.Internal && !ample))
  }

  // CREATE TABLE fails for its first fault, or adds an empty table of the columns it defines; a
  // legal one fails only once the page ids are used up, and then changes nothing.
  ghost predicate CreateSpec(a: AbstractDatabase, s: Statement, found: Result<TableInfo>, tx: Transaction, ample: bool,
                             a1: AbstractDatabase, r: Result<QueryResult>)
    requires s.CreateTableStatement?
  {
    || (exists fault :: CreateFault(s, found, fault) && r == Err(fault) && a1 == a)
    || (exists schema :: CreateReads(s, found, schema) && TableAdded(a, FoldIdentifierKey(s.tableName), schema, tx, ample, a1, r))
  }

  ghost predicate TableAdded(a: AbstractDatabase, key: Text, schema: TableSchema, tx: Transaction, ample: bool,
                             a1: AbstractDatabase, r: Result<QueryResult>) {
    if !Writable(tx) then r == Err(TransactionConflict) && a1 == a
    else
      && key !in a
      && (r.Ok? ==> r.value == QueryResult([], []) && a1 == a[key := AbstractTable(schema, multiset{})])
      && (r.Err? ==> a1 == a && r.error == ErrorCode.Internal && !ample)
  }

  ghost predicate StatementSpec(a: AbstractDatabase, s: Statement, found: Result<TableInfo>, tx: Transaction, ample: bool,
                                a1: AbstractDatabase, r: Result<QueryResult>) {
    match s
    case SelectStatement(_, _, _) => a1 == a && SelectSpec(a, s, found, tx, r)
    case InsertStatement(_, _) => InsertSpec(a, s, found, tx, ample, a1, r)
    case CreateTableStatement(_, _) => CreateSpec(a, s, found, tx, ample, a1, r)
  }

  // ---------------------------------------------------------------- what a step may use up

  // The page id after the last one of a heap.
  ghost function NextPageId(db: DatabaseState, id: nat): nat
    requires id in db.storage.tables
  {
    db.storage.tables[id].root + |db.storage.tables[id].heap.pages|
  }

  // There is a root for one more heap and a page id for one more page of each.
  ghost predicate Ample(db: DatabaseState) {
    && db.storage.nextRoot < INVALID_PAGE_ID
    && forall id :: id in db.storage.tables ==> NextPageId(db, id) < INVALID_PAGE_ID
  }

  // No root and no page id beyond n has been handed out.
  ghost predicate UsedAtMost(db: DatabaseState, n: nat) {
    && db.storage.nextRoot <= n + 1
    && forall id :: id in db.storage.tables ==> NextPageId(db, id) <= n + 1
  }

  // Table ids already used are not given to other tables.
  ghost predicate IdsStay(db: DatabaseState, db1: DatabaseState) {
    && db.catalog.nextTableId <= db1.catalog.nextTableId
    && forall key :: key in db1.catalog.tables ==>
         || (key in db.catalog.tables && db1.catalog.tables[key].id == db.catalog.tables[key].id)
         || db1.catalog.tables[key].id >= db.catalog.nextTableId
  }

  // At most one page or one heap more, and no table id twice.
  ghost predicate Grew(db: DatabaseState, db1: DatabaseState) {
    && IdsStay(db, db1)
    && db1.storage.nextRoot <= db.storage.nextRoot + 1
    && forall id :: id in db1.storage.tables ==>
         NextPageId(db1, id) <= if id in db.storage.tables then NextPageId(db, id) + 1 else db.storage.nextRoot
  }

  lemma NothingGrew(db: DatabaseState)
    ensures Grew(db, db)
  {
  }

  lemma GrownUse(db: DatabaseState, db1: DatabaseState, n: nat)
    requires Grew(db, db1) && UsedAtMost(db, n)
    ensures UsedAtMost(db1, n + 1)
  {
    hide IdsStay;
  }

  // ---------------------------------------------------------------- the linked tables

  lemma EmptyDatabaseIsLinked()
    ensures Linked(EMPTY_DATABASE) && Abstraction(EMPTY_DATABASE) == map[]
  {
    EmptyCatalogIsLinked();
    EmptyStorageIsSound();
  }

  lemma ListedTable(db: DatabaseState, key: Text)
    requires Linked(db) && key in db.catalog.tables
    ensures var t := db.catalog.tables[key];
            && Stored(db, t) && TableLinked(db.catalog, key) && HeapInv(db.storage.tables[t.id].heap)
            && WellFormedSchema(t.schema) && t.name != [] && t.schema != [] && FoldIdentifierKey(t.name) == key
  {
    hide ListMirrorsMap, IndexValid, IndexKeysInverse, NamesInverse, Decodes, HeapInv, WellFormedSchema, FoldIdentifierKey;
    assert TableLinked(db.catalog, key);
    assert Stored(db, db.catalog.tables[key]);
  }

  // Every listed table has a valid root, OpenHeap accepts it, and a scan lists its bag.
  lemma ListedTablesOpen(db: DatabaseState, key: Text)
    requires Linked(db) && key in db.catalog.tables
    ensures var t := db.catalog.tables[key];
            && t.heapRoot != INVALID_PAGE_ID && t.id in db.storage.tables
            && OpenHeap(db.storage, MakeStorageRef(t)) == Ok(db.storage.tables[t.id].heap)
            && ScanTable(db.storage, MakeStorageRef(t)).Ok?
            && multiset(ScanTable(db.storage, MakeStorageRef(t)).value) == Abstraction(db)[key].rows
            && (forall row :: row in ScanTable(db.storage, MakeStorageRef(t)).value ==> Conforms(t.schema, row))
  {
    hide CatalogInv, StorageInv, Decodes, HeapInv, WellFormedSchema, FoldIdentifierKey, ScanHeap, Conforms;
    ListedTable(db, key);
    var t := db.catalog.tables[key];
    ScannedRowsConform(db.storage.tables[t.id].heap, t.schema);
  }

  lemma CatalogDescribes(db: DatabaseState, name: Text)
    requires Linked(db)
    ensures Describes(Abstraction(db), name, GetTable(db.catalog, name))
  {
    hide CatalogInv, StorageInv, Decodes, HeapInv, WellFormedSchema, FoldIdentifierKey, Bag;
    var key := FoldIdentifierKey(name);
    if key in db.catalog.tables {
      ListedTable(db, key);
    }
  }

  // ---------------------------------------------------------------- SELECT

  // A reading statement's result depends only on the rows its scan yields.
  lemma AnswerIsSelectResult(b: BoundStatement, scan: ScanSource, rows: seq<Row>)
    requires b.BoundSelect? && b.projections != [] && |b.names| == |b.projections|
    requires b.table.name == [] ==> b.table == NO_TABLE && rows == [[]]
    requires b.table.name != [] ==> scan(MakeStorageRef(b.table)) == Ok(rows)
    ensures ToQueryResult(SelectResult(b, scan)) == Answer(b, rows)
  {
    hide FilterRows, ProjectRows, OutputNames, OutputSchema;
  }

  lemma SameAnswerToClient(x: Result<Relation>, y: Result<Relation>)
    requires SameAnswer(x, y)
    ensures ToQueryResult(x) == ToQueryResult(y)
  {
  }

  lemma CompiledSelect(s: Statement, found: Result<TableInfo>, scan: ScanSource)
    requires s.SelectStatement? && (found.Ok? ==> WellFormedSchema(found.value.schema) && found.value.name != [])
    requires BindSelect(s, found).Ok? && BindSelect(s, found).value.BoundSelect?
    requires BindSelect(s, found).value.projections != [] && SourceRelation(BindSelect(s, found).value.table, scan).Ok?
    ensures Compile(s, found).Ok? && IsQuery(Compile(s, found).value)
    ensures var b := BindSelect(s, found).value;
            |b.names| == |b.projections| && SameAnswer(ExecuteQuery(Compile(s, found).value, scan), SelectResult(b, scan))
  {
    hide BindSelect, PlanStatement, OptimizePlan, Lower, ExecuteQuery, SelectResult, SameAnswer, IsQuery, SourceRelation,
         WellFormedSchema, AllWellTyped;
    AcceptedSelectOptimizesSafely(s, found, scan);
    BoundSelectIsWellTyped(s, found);
  }

  lemma EmptySelectIsRefused(s: Statement, found: Result<TableInfo>)
    requires s.SelectStatement? && BindSelect(s, found).Ok? && BindSelect(s, found).value.BoundSelect?
    requires BindSelect(s, found).value.projections == []
    ensures Compile(s, found) == Err(PlanError)
  {
    hide BindSelect;
  }

  lemma ExecutedQuery(db: DatabaseState, plan: PhysicalPlan, tx: Transaction)
    requires IsQuery(plan)
    ensures Executor.Execute(db, plan, tx) ==
            (db, if tx.state != Active then Err(TransactionConflict) else ExecuteQuery(plan, Scanner(db.storage)))
  {
    hide ExecutePlan, ExecuteQuery, Scanner;
    QueriesOnlyRead(db, plan, tx);
  }

  // The rows a bound SELECT ranges over, and that its source relation is there.
  lemma BoundSource(db: DatabaseState, s: Statement) returns (rows: seq<Row>)
    requires Linked(db) && s.SelectStatement?
    requires BindSelect(s, NamedTable(db.catalog, s)).Ok?
    ensures var b := BindSelect(s, NamedTable(db.catalog, s)).value;
            var scan := Scanner(db.storage);
            && b.BoundSelect? && |b.names| == |b.projections|
            && SourceRelation(b.table, scan).Ok?
            && (b.table.name == [] ==> b.table == NO_TABLE && rows == [[]])
            && (b.table.name != [] ==> scan(MakeStorageRef(b.table)) == Ok(rows))
            && RangesOver(Abstraction(db), s.tableName, rows)
            && (forall row :: row in rows ==> |row| == |b.table.schema|)
  {
    hide CatalogInv, StorageInv, Decodes, HeapInv, WellFormedSchema, FoldIdentifierKey, ScanTable, BindSelect,
         AllWellTyped, WellTyped, Bag, Conforms, Scanner;
    var found := NamedTable(db.catalog, s);
    var key := FoldIdentifierKey(s.tableName);
    if key in db.catalog.tables {
      ListedTable(db, key);
      ListedTablesOpen(db, key);
    }
    BoundSelectIsWellTyped(s, found);
    if s.tableName == [] {
      rows := [[]];
    } else {
      var t := db.catalog.tables[key];
      rows := ScanTable(db.storage, MakeStorageRef(t)).value;
      forall row | row in rows ensures |row| == |t.schema| {
        ConformingLength(t.schema, row);
      }
    }
  }

  // What executing a SELECT comes to, by its bound statement.
  lemma SelectOutcome(db: DatabaseState, s: Statement, tx: Transaction) returns (rows: seq<Row>)
    requires Linked(db) && s.SelectStatement? && BindSelect(s, NamedTable(db.catalog, s)).Ok?
    ensures var b := BindSelect(s, NamedTable(db.catalog, s)).value;
            && b.BoundSelect? && |b.names| == |b.projections|
            && RangesOver(Abstraction(db), s.tableName, rows) && (forall row :: row in rows ==> |row| == |b.table.schema|)
            && ExecuteStatement(db, s, tx) ==
               (db, if b.projections == [] then Err(PlanError)
                    else if tx.state != Active then Err(TransactionConflict)
                    else Answer(b, rows))
  {
    hide CatalogInv, StorageInv, Stored, WellFormedSchema, BindSelect, Compile, ExecuteQuery, Answer, SelectResult,
         SourceRelation, RangesOver, Executor.Execute, Scanner, IsQuery, SameAnswer, Describes, ToQueryResult,
         FoldIdentifierKey;
    var found := NamedTable(db.catalog, s);
    var bound := BindSelect(s, found);
    var scan := Scanner(db.storage);
    rows := BoundSource(db, s);
    if bound.value.projections == [] {
      EmptySelectIsRefused(s, found);
    } else {
      FoundIsWellFormed(db, s.tableName);
      CompiledSelect(s, found, scan);
      var plan := Compile(s, found).value;
      ExecutedQuery(db, plan, tx);
      if tx.state == Active {
        SameAnswerToClient(ExecuteQuery(plan, scan), SelectResult(bound.value, scan));
        AnswerIsSelectResult(bound.value, scan, rows);
      } else {
        ErrorToClient(TransactionConflict);
      }
    }
  }

  // SELECT changes nothing and answers its meaning over a listing of the table's bag.
  lemma SelectRefines(db: DatabaseState, s: Statement, tx: Transaction)
    requires Linked(db) && s.SelectStatement?
    ensures var (db1, r) := ExecuteStatement(db, s, tx);
            db1 == db && SelectSpec(Abstraction(db), s, NamedTable(db.catalog, s), tx, r)
  {
    hide Linked, WellFormedSchema, BindSelect, ExecuteStatement, Answer, AnswerMeans, RangesOver, SelectFault, SelectReads,
         Abstraction, FoldIdentifierKey;
    var found := NamedTable(db.catalog, s);
    var bound := BindSelect(s, found);
    FoundIsWellFormed(db, s.tableName);
    if bound.Err? {
      SelectBindsExactly(s, found, BoundCreateTable(CreateTableRequest([], [])), bound.error);
      SelectBindError(s, found);
      CompileError(db, s, tx, bound.error);
    } else {
      var b := bound.value;
      SelectBindsExactly(s, found, b, BindError);
      var rows := SelectOutcome(db, s, tx);
      AnswerIsMeant(b, rows);
      assert SelectedBy(Abstraction(db), s.tableName, b, tx, ExecuteStatement(db, s, tx).1);
    }
  }

  lemma ErrorToClient(e: ErrorCode)
    ensures ToQueryResult(Err(e)) == Err(e)
  {
  }

  lemma SelectBindError(s: Statement, found: Result<TableInfo>)
    requires s.SelectStatement? && BindSelect(s, found).Err?
    ensures Compile(s, found) == Err(BindSelect(s, found).error)
  {
    hide BindSelect;
  }

  lemma FoundIsWellFormed(db: DatabaseState, name: Text)
    requires Linked(db)
    ensures var found := GetTable(db.catalog, name); found.Ok? ==> WellFormedSchema(found.value.schema) && found.value.name != []
  {
    hide CatalogInv, StorageInv, Decodes, HeapInv, WellFormedSchema, FoldIdentifierKey;
    var key := FoldIdentifierKey(name);
    if key in db.catalog.tables {
      ListedTable(db, key);
    }
  }

  // ---------------------------------------------------------------- INSERT

  // What an accepted INSERT compiles to, and the one row it evaluates.
  lemma CompiledInsert(s: Statement, table: TableInfo, scan: ScanSource)
    requires s.InsertStatement? && table.name != [] && WellFormedSchema(table.schema)
    requires BindInsertInto(s, Ok(table)).Ok?
    ensures Compile(s, Ok(table)).Ok? && BindInsertInto(s, Ok(table)).value.BoundInsert?
    ensures var plan := Compile(s, Ok(table)).value;
            && plan.PInsert? && |plan.children| == 1 && IsQuery(plan.children[0])
            && plan.table == table && plan.storage == MakeStorageRef(table)
            && var row := EvaluateAll(BindInsertInto(s, Ok(table)).value.values, NoRow);
            && ExecuteQuery(plan.children[0], scan) == (if row.Err? then Err(row.error) else Ok(Relation([], [], [row.value])))
            && (row.Ok? ==> Conforms(table.schema, row.value))
  {
    hide BindInsertInto, PlanStatement, OptimizePlan, Lower, FoldIdentifierKey, EvaluateAll, Conforms, IsQuery;
    AcceptedInsertConforms(s, table);
    var b := BindInsertInto(s, Ok(table)).value;
    OptimizerPreservesInsert(b, scan);
    OneValueRow(b.values, scan);
  }

  lemma OneValueRow(es: seq<BoundExpr>, scan: ScanSource)
    ensures ExecuteQuery(PValues([], [es]), scan) ==
            var row := EvaluateAll(es, NoRow); if row.Err? then Err(row.error) else Ok(Relation([], [], [row.value]))
  {
    hide EvaluateAll;
    SingleRow(es);
  }

  lemma PageFitsAtMost(h: HeapState, record: Bytes)
    requires HeapInv(h) && h.pageSize == DEFAULT_PAGE_SIZE && (SomePageFits(h, record) || FreshPageTakes(h, record))
    ensures |record| <= MAX_RECORD
  {
    hide HeapContents, Contents;
    if SomePageFits(h, record) {
      var i :| 0 <= i < |h.pages| && SlottedPage.Fits(h.pages[i], record);
      PageAt(h, i);
      FittingRecordIsSmall(h.pages[i], record);
    }
  }

  lemma FittingRecordIsSmall(p: PageState, record: Bytes)
    requires PageInv(p) && SlottedPage.Fits(p, record)
    ensures |record| + SLOT_ENTRY_SIZE <= |p.bytes|
  {
  }

  // Storing one conforming row through the table's handle.
  lemma StoredRow(db: DatabaseState, key: Text, row: Row)
    requires Linked(db) && key in db.catalog.tables && Conforms(db.catalog.tables[key].schema, row)
    ensures var t := db.catalog.tables[key];
            var (db1, r) := StoreRows(db, t, MakeStorageRef(t), [row]);
            && Linked(db1)
            && (r.Ok? ==> r.value == NO_ROWS && EncodeRow(t.schema, row).Ok? && RowSize(row) <= MAX_RECORD
                          && t.id in db.storage.tables
                          && db1 == db.(storage := InsertInto(db.storage, t.id, EncodeRow(t.schema, row).value).0)
                          && Abstraction(db1) == Abstraction(db)[key := AbstractTable(t.schema, Abstraction(db)[key].rows + multiset{row})])
            && (r.Err? ==> db1 == db)
            && (r.Ok? <==> HasRoom(db, t, row))
            && StoredExactly(row, Ample(db), r) && Grew(db, db1)
  {
    hide CatalogInv, StorageInv, Decodes, HeapInv, WellFormedSchema, FoldIdentifierKey, EncodeRow, InsertInto,
         Abstraction, Conforms, HasRoom, Linked, StoreRows, ScanTable, OpenHeap, StoredExactly, Ample, Grew;
    var t := db.catalog.tables[key];
    ListedTablesOpen(db, key);
    ConformingLength(t.schema, row);
    StoreOneRow(db, t, MakeStorageRef(t), row);
    StoringOutcome(db, key, row, StoreRows(db, t, MakeStorageRef(t), [row]).1);
    NothingGrew(db);
    if EncodeRow(t.schema, row).Ok? {
      RoomIsExact(db, key, row);
      InsertionGrew(db, key, EncodeRow(t.schema, row).value);
      if InsertInto(db.storage, t.id, EncodeRow(t.schema, row).value).1.Ok? {
        InsertedRow(db, key, row);
      }
    } else {
      RoomNeedsEncoding(db, t, row);
    }
  }

  // An insertion into a listed table takes at most one page.
  lemma InsertionGrew(db: DatabaseState, key: Text, record: Bytes)
    requires Linked(db) && key in db.catalog.tables
    ensures db.catalog.tables[key].id in db.storage.tables
    ensures Grew(db, db.(storage := InsertInto(db.storage, db.catalog.tables[key].id, record).0))
  {
    hide CatalogInv, StorageInv, Decodes, HeapInv, WellFormedSchema, FoldIdentifierKey, InsertInto, SomePageFits,
         FreshPageTakes, HeapContents;
    ListedTable(db, key);
    InsertIntoOneHeap(db.storage, db.catalog.tables[key].id, record);
  }

  lemma StoringOutcome(db: DatabaseState, key: Text, row: Row, r: Result<Relation>)
    requires Linked(db) && key in db.catalog.tables && Conforms(db.catalog.tables[key].schema, row)
    requires db.catalog.tables[key].id in db.storage.tables
    requires var t := db.catalog.tables[key];
             var tuple := EncodeRow(t.schema, row);
             if tuple.Err? then r == Err(tuple.error)
             else
               var stored := InsertInto(db.storage, t.id, tuple.value).1;
               r == if stored.Err? then Err(stored.error) else Ok(NO_ROWS)
    ensures StoredExactly(row, Ample(db), r)
  {
    hide CatalogInv, Decodes, HeapInv, FoldIdentifierKey, EncodeRow, HeapInsert, SomePageFits, Conforms, RowSize,
         HasRoom;
    ListedTable(db, key);
    var t := db.catalog.tables[key];
    ConformingRowEncodes(t.schema, row);
    if EncodeRow(t.schema, row).Ok? {
      var record := EncodeRow(t.schema, row).value;
      EncodeSucceedsExactly(t.schema, row);
      InsertErrorIs(db.storage.tables[t.id].heap, record);
      InsertIntoOneHeap(db.storage, t.id, record);
      RoomIsExact(db, key, row);
    }
  }

  // The rows the storage lists for a table, as a bag.
  ghost function StoredRows(s: StorageState, id: nat, schema: TableSchema): multiset<Row>
    requires id in s.tables
  {
    Bag(s.tables[id].heap, schema)
  }

  // Several rows are stored in order until one fails, and those before it stay.
  lemma {:induction false} RowsStoredInOrder(s: StorageState, id: nat, schema: TableSchema, rows: seq<Row>) returns (n: nat)
    requires StorageInv(s) && id in s.tables && Decodes(s.tables[id].heap, schema)
    ensures var (s1, r) := InsertRows(s, id, schema, rows);
            && n <= |rows| && (r.Ok? <==> n == |rows|) && id in s1.tables && s1.tables.Keys == s.tables.Keys
            && StoredRows(s1, id, schema) == StoredRows(s, id, schema) + multiset(rows[..n])
            && forall other :: other in s.tables && other != id ==> s1.tables[other] == s.tables[other]
    decreases |rows|
  {
    hide StorageInv, Decodes, EncodeRow, InsertInto, Bag;
    n := 0;
    assert rows[..0] == [];
    if rows != [] && |rows[0]| == |schema| && EncodeRow(schema, rows[0]).Ok? {
      var record := EncodeRow(schema, rows[0]).value;
      OneRowStored(s, id, schema, rows[0]);
      var (s1, r) := InsertInto(s, id, record);
      if r.Ok? {
        var m := RowsStoredInOrder(s1, id, schema, rows[1..]);
        n := m + 1;
        assert rows[..n] == [rows[0]] + rows[1..][..m];
      }
    }
  }

  lemma OneRowStored(s: StorageState, id: nat, schema: TableSchema, row: Row)
    requires StorageInv(s) && id in s.tables && Decodes(s.tables[id].heap, schema) && EncodeRow(schema, row).Ok?
    ensures var (s1, r) := InsertInto(s, id, EncodeRow(schema, row).value);
            && StorageInv(s1) && s1.tables.Keys == s.tables.Keys && Decodes(s1.tables[id].heap, schema)
            && (forall other :: other in s.tables && other != id ==> s1.tables[other] == s.tables[other])
            && StoredRows(s1, id, schema) == StoredRows(s, id, schema) + if r.Ok? then multiset{row} else multiset{}
  {
    hide HeapInv, Decodes, EncodeRow, DecodeRecord, HeapInsert, HeapContents, Bag, SomePageFits, FreshPageTakes;
    var record := EncodeRow(schema, row).value;
    InsertIntoOneHeap(s, id, record);
    DecodeInvertsEncode(schema, row);
    if InsertInto(s, id, record).1.Ok? {
      InsertAddsOneRow(s.tables[id].heap, schema, record, row);
    }
  }

  lemma StoreOneRow(db: DatabaseState, t: TableInfo, ref: StorageRef, row: Row)
    requires OpenHeap(db.storage, ref).Ok? && |row| == |t.schema|
    ensures ref.tableId in db.storage.tables
    ensures StoreRows(db, t, ref, [row]) ==
            var tuple := EncodeRow(t.schema, row);
            if tuple.Err? then (db, Err(tuple.error))
            else
              var (storage, r) := InsertInto(db.storage, ref.tableId, tuple.value);
              (db.(storage := storage), if r.Err? then Err(r.error) else Ok(NO_ROWS))
  {
    hide EncodeRow, InsertInto;
    var tuple := EncodeRow(t.schema, row);
    assert [row][1..] == [];
    if tuple.Ok? {
      InsertIntoKeepsTables(db.storage, ref.tableId, tuple.value);
      var storage := InsertInto(db.storage, ref.tableId, tuple.value).0;
      assert InsertRows(storage, ref.tableId, t.schema, []) == (storage, OkStatus);
    }
  }

  lemma ConformingLength(schema: TableSchema, row: Row)
    requires Conforms(schema, row)
    ensures |row| == |schema|
  {
  }

  // The row can be encoded, and its record fits a page of the heap or a fresh page.
  ghost predicate HasRoom(db: DatabaseState, t: TableInfo, row: Row) {
    && t.id in db.storage.tables && Storable(t.schema, row) && EncodeRow(t.schema, row).Ok?
    && var record := EncodeRow(t.schema, row).value;
       SomePageFits(db.storage.tables[t.id].heap, record) || FreshPageTakes(db.storage.tables[t.id].heap, record)
  }

  lemma RoomNeedsEncoding(db: DatabaseState, t: TableInfo, row: Row)
    requires EncodeRow(t.schema, row).Err?
    ensures !HasRoom(db, t, row)
  {
    hide EncodeRow;
  }

  lemma RoomIsExact(db: DatabaseState, key: Text, row: Row)
    requires Linked(db) && key in db.catalog.tables && EncodeRow(db.catalog.tables[key].schema, row).Ok?
    ensures var t := db.catalog.tables[key];
            var record := EncodeRow(t.schema, row).value;
            && t.id in db.storage.tables
            && (InsertInto(db.storage, t.id, record).1.Ok? <==> HasRoom(db, t, row))
            && (InsertInto(db.storage, t.id, record).1.Err? ==> InsertInto(db.storage, t.id, record).0 == db.storage)
            && (InsertInto(db.storage, t.id, record).1.Ok? ==> RowSize(row) <= MAX_RECORD)
  {
    hide CatalogInv, Decodes, HeapInv, WellFormedSchema, FoldIdentifierKey, EncodeRow, InsertInto, SomePageFits,
         FreshPageTakes, Storable;
    ListedTable(db, key);
    var t := db.catalog.tables[key];
    var record := EncodeRow(t.schema, row).value;
    InsertIntoOneHeap(db.storage, t.id, record);
    EncodeSucceedsExactly(t.schema, row);
    if InsertInto(db.storage, t.id, record).1.Ok? {
      PageFitsAtMost(db.storage.tables[t.id].heap, record);
    }
  }

  // A stored row joins its table's bag and no other.
  lemma InsertedRow(db: DatabaseState, key: Text, row: Row)
    requires Linked(db) && key in db.catalog.tables && EncodeRow(db.catalog.tables[key].schema, row).Ok?
    requires db.catalog.tables[key].id in db.storage.tables
    requires InsertInto(db.storage, db.catalog.tables[key].id, EncodeRow(db.catalog.tables[key].schema, row).value).1.Ok?
    ensures var t := db.catalog.tables[key];
            var db1 := db.(storage := InsertInto(db.storage, t.id, EncodeRow(t.schema, row).value).0);
            && Linked(db1)
            && Abstraction(db1) == Abstraction(db)[key := AbstractTable(t.schema, Abstraction(db)[key].rows + multiset{row})]
  {
    hide CatalogInv, Decodes, HeapInv, WellFormedSchema, FoldIdentifierKey, EncodeRow, DecodeRecord, HeapInsert,
         HeapContents, Bag, SomePageFits, FreshPageTakes;
    ListedTable(db, key);
    var t := db.catalog.tables[key];
    var record := EncodeRow(t.schema, row).value;
    InsertIntoOneHeap(db.storage, t.id, record);
    DecodeInvertsEncode(t.schema, row);
    InsertAddsOneRow(db.storage.tables[t.id].heap, t.schema, record, row);
    var db1 := db.(storage := InsertInto(db.storage, t.id, record).0);
    forall k | k in db.catalog.tables ensures Stored(db1, db1.catalog.tables[k]) {
      assert Stored(db, db.catalog.tables[k]);
      DistinctIds(db.catalog, key, k);
    }
    var bag := AbstractTable(t.schema, Abstraction(db)[key].rows + multiset{row});
    forall k | k in db.catalog.tables ensures Abstraction(db1)[k] == if k == key then bag else Abstraction(db)[k] {
      DistinctIds(db.catalog, key, k);
    }
  }

  lemma DistinctIds(c: CatalogState, key: Text, other: Text)
    requires CatalogInv(c) && key in c.tables && other in c.tables
    ensures c.tables[key].id == c.tables[other].id ==> key == other
  {
    hide ListMirrorsMap, IndexValid, IndexKeysInverse;
    Filed(c, key);
    Filed(c, other);
  }

  lemma InsertBindError(s: Statement, found: Result<TableInfo>)
    requires s.InsertStatement? && BindInsertInto(s, found).Err?
    ensures Compile(s, found) == Err(BindInsertInto(s, found).error)
  {
    hide BindInsertInto;
  }

  lemma ExecutedInsert(db: DatabaseState, plan: PhysicalPlan, tx: Transaction)
    requires plan.PInsert? && |plan.children| == 1 && IsQuery(plan.children[0])
    ensures Executor.Execute(db, plan, tx) ==
            if RequireWritable(tx).Err? then (db, Err(TransactionConflict))
            else
              var input := ExecuteQuery(plan.children[0], Scanner(db.storage));
              if input.Err? then (db, Err(input.error)) else StoreRows(db, plan.table, plan.storage, input.value.rows)
  {
    hide ExecuteQuery, Scanner, StoreRows, IsQuery;
    QueriesOnlyRead(db, plan.children[0], tx);
  }

  // An accepted INSERT evaluates its row and stores it.
  lemma InsertOutcome(db: DatabaseState, s: Statement, tx: Transaction)
    requires Linked(db) && s.InsertStatement? && BindInsertInto(s, NamedTable(db.catalog, s)).Ok?
    ensures var key := FoldIdentifierKey(s.tableName);
            var bound := BindInsertInto(s, NamedTable(db.catalog, s)).value;
            && key in db.catalog.tables && NamedTable(db.catalog, s) == Ok(db.catalog.tables[key]) && bound.BoundInsert?
            && var t := db.catalog.tables[key];
               var row := EvaluateAll(bound.values, NoRow);
               && (row.Ok? ==> Conforms(t.schema, row.value))
               && (RequireWritable(tx).Err? ==> ExecuteStatement(db, s, tx) == (db, Err(TransactionConflict)))
               && (RequireWritable(tx).Ok? && row.Err? ==> ExecuteStatement(db, s, tx) == (db, Err(row.error)))
               && (RequireWritable(tx).Ok? && row.Ok? ==>
                     var stored := StoreRows(db, t, MakeStorageRef(t), [row.value]);
                     ExecuteStatement(db, s, tx) == (stored.0, ToQueryResult(stored.1)))
  {
    hide CatalogInv, StorageInv, Stored, Linked, WellFormedSchema, BindInsertInto, Compile, ExecuteQuery,
         Executor.Execute, Scanner, IsQuery, StoreRows, EvaluateAll, Conforms, FoldIdentifierKey;
    var found := NamedTable(db.catalog, s);
    var key := FoldIdentifierKey(s.tableName);
    InsertTargetIsListed(s, found);
    ListedTable(db, key);
    CompiledInsert(s, db.catalog.tables[key], Scanner(db.storage));
    ExecutedInsert(db, Compile(s, found).value, tx);
  }

  lemma InsertRefines(db: DatabaseState, s: Statement, tx: Transaction)
    requires Linked(db) && s.InsertStatement?
    ensures var (db1, r) := ExecuteStatement(db, s, tx);
            && Linked(db1)
            && InsertSpec(Abstraction(db), s, NamedTable(db.catalog, s), tx, Ample(db), Abstraction(db1), r)
            && Grew(db, db1)
  {
    hide Ample, Grew, Linked, BindInsertInto, ExecuteStatement, StoreRows, EvaluateAll, Conforms, StoredExactly,
         FoldIdentifierKey, Abstraction, HasRoom, EncodeRow, InsertInto, CatalogInv, StorageInv, RequireWritable,
         InsertReads, InsertFault, RowMeans, RowAdded;
    var found := NamedTable(db.catalog, s);
    var bound := BindInsertInto(s, found);
    NothingGrew(db);
    if bound.Err? {
      InsertBindsExactly(s, found, BoundCreateTable(CreateTableRequest([], [])), bound.error);
      InsertBindError(s, found);
      CompileError(db, s, tx, bound.error);
    } else {
      var b := bound.value;
      var key := FoldIdentifierKey(s.tableName);
      InsertBindsExactly(s, found, b, BindError);
      InsertOutcome(db, s, tx);
      WritableOrConflict(tx);
      var row := EvaluateAll(b.values, NoRow);
      RowWithoutInput(b.values, row);
      var (db1, r) := ExecuteStatement(db, s, tx);
      if RequireWritable(tx).Ok? {
        if row.Ok? {
          AbstractSchema(db, key);
          StoredRow(db, key, row.value);
          StoredReply(row.value, Ample(db), StoreRows(db, db.catalog.tables[key], MakeStorageRef(db.catalog.tables[key]), [row.value]).1);
        }
        assert RowAdded(Abstraction(db), key, row, Ample(db), Abstraction(db1), r) by {
          RowAddedIs(Abstraction(db), key, row, Ample(db), Abstraction(db1), r);
        }
      }
      assert InsertedBy(Abstraction(db), key, b, tx, Ample(db), Abstraction(db1), r);
    }
  }

  lemma RowAddedIs(a: AbstractDatabase, key: Text, row: Result<Row>, ample: bool, a1: AbstractDatabase, r: Result<QueryResult>)
    requires row.Err? ==> r == Err(row.error) && a1 == a
    requires row.Ok? ==>
               && key in a && Conforms(a[key].schema, row.value) && StoredExactly(row.value, ample, r)
               && (r.Ok? ==> r.value == QueryResult([], []) && a1 == a[key := AbstractTable(a[key].schema, a[key].rows + multiset{row.value})])
               && (r.Err? ==> a1 == a)
    ensures RowAdded(a, key, row, ample, a1, r)
  {
    hide Conforms, StoredExactly;
  }

  lemma WritableOrConflict(tx: Transaction)
    ensures if Writable(tx) then RequireWritable(tx) == OkStatus else RequireWritable(tx) == Err(TransactionConflict)
  {
  }

  lemma StoredReply(row: Row, ample: bool, r: Result<Relation>)
    requires StoredExactly(row, ample, r) && (r.Ok? ==> r.value == NO_ROWS)
    ensures StoredExactly(row, ample, ToQueryResult(r)) && (r.Ok? ==> ToQueryResult(r) == Ok(QueryResult([], [])))
    ensures r.Err? ==> ToQueryResult(r) == Err(r.error)
  {
    hide RowSize;
  }

  lemma CompileError(db: DatabaseState, s: Statement, tx: Transaction, e: ErrorCode)
    requires Compile(s, NamedTable(db.catalog, s)) == Err(e)
    ensures ExecuteStatement(db, s, tx) == (db, Err(e))
  {
    hide Compile;
  }

  lemma AbstractSchema(db: DatabaseState, key: Text)
    requires Linked(db) && key in db.catalog.tables
    ensures key in Abstraction(db) && Abstraction(db)[key].schema == db.catalog.tables[key].schema
  {
    hide CatalogInv, StorageInv, Bag;
    assert Stored(db, db.catalog.tables[key]);
  }

  lemma InsertTargetIsListed(s: Statement, found: Result<TableInfo>)
    requires s.InsertStatement? && BindInsertInto(s, found).Ok?
    ensures found.Ok?
  {
  }

  // Exactly when a legal INSERT succeeds: the row can be encoded and its record fits some page
  // of the table or a fresh page.
  lemma InsertSucceedsExactly(db: DatabaseState, s: Statement, tx: Transaction)
    requires Linked(db) && s.InsertStatement? && BindInsertInto(s, NamedTable(db.catalog, s)).Ok?
    ensures BindInsertInto(s, NamedTable(db.catalog, s)).value.BoundInsert?
    ensures var t := NamedTable(db.catalog, s);
            var row := EvaluateAll(BindInsertInto(s, t).value.values, NoRow);
            && t.Ok?
            && (ExecuteStatement(db, s, tx).1.Ok? <==>
                  RequireWritable(tx).Ok? && row.Ok? && HasRoom(db, t.value, row.value))
  {
    hide Linked, BindInsertInto, ExecuteStatement, StoreRows, EvaluateAll, Conforms, FoldIdentifierKey, Abstraction,
         HasRoom, EncodeRow, InsertInto, Grew, Ample, StoredExactly;
    InsertOutcome(db, s, tx);
    var row := EvaluateAll(BindInsertInto(s, NamedTable(db.catalog, s)).value.values, NoRow);
    if row.Ok? {
      StoredRow(db, FoldIdentifierKey(s.tableName), row.value);
    }
  }

  // ---------------------------------------------------------------- CREATE TABLE

  lemma CompiledCreate(s: Statement, found: Result<TableInfo>)
    requires s.CreateTableStatement?
    ensures BindCreate(s, found).Err? ==> Compile(s, found) == Err(BindCreate(s, found).error)
    ensures BindCreate(s, found).Ok? ==>
              Compile(s, found) == Ok(PCreateTable([], CreateTableRequest(s.tableName, DefinedColumns(s.columns))))
  {
    hide BindCreate, OptimizePlan, FoldIdentifierKey;
    CreateBindsExactly(s, found);
    if BindCreate(s, found).Ok? {
      OptimizerKeepsCreateTable(BindCreate(s, found).value);
    }
  }

  lemma DefinedSchemaIsCreatable(columns: TableSchema)
    requires WellFormedSchema(columns)
    ensures Creatable(columns) && Renumbered(columns) == columns
  {
    hide FoldIdentifierKey;
  }

  // A created table is listed with storage of its own and no rows; without a root nothing
  // remains of it.
  lemma CreatedTable(db: DatabaseState, request: CreateTableRequest)
    requires Linked(db) && request.name != [] && request.schema != [] && WellFormedSchema(request.schema)
    requires FoldIdentifierKey(request.name) !in db.catalog.tables
    ensures var (db1, r) := ExecuteCreate(db, request);
            && Linked(db1)
            && (r.Ok? <==> db.storage.nextRoot != INVALID_PAGE_ID)
            && (r.Ok? ==> r.value == NO_ROWS && Abstraction(db1) ==
                          Abstraction(db)[FoldIdentifierKey(request.name) := AbstractTable(request.schema, multiset{})])
            && (r.Err? ==> r.error == ErrorCode.Internal && Abstraction(db1) == Abstraction(db))
            && Grew(db, db1)
  {
    hide Grew, CatalogInv, StorageInv, Linked, WellFormedSchema, FoldIdentifierKey, Abstraction, Catalog.CreateTable,
         CreateHeap, SetTableHeapRoot, DropTable, Creatable, Renumbered;
    DefinedSchemaIsCreatable(request.schema);
    LinkedParts(db);
    CreateTableExactly(db.catalog, request);
    CreateTableKeepsLinks(db.catalog, request);
    var (listed, table) := Catalog.CreateTable(db.catalog, request);
    CreateHeapExactly(db.storage, table.value.id);
    if db.storage.nextRoot != INVALID_PAGE_ID {
      HeapProvided(db, request);
    } else {
      CreationUndone(db, request);
    }
  }

  lemma LinkedParts(db: DatabaseState)
    requires Linked(db)
    ensures CatalogInv(db.catalog) && StorageInv(db.storage) && db.catalog.nextTableId !in db.storage.tables
  {
    hide CatalogInv, StorageInv, Stored;
  }

  lemma HeapProvided(db: DatabaseState, request: CreateTableRequest)
    requires Linked(db) && db.storage.nextRoot != INVALID_PAGE_ID
    requires request.name != [] && request.schema != [] && FoldIdentifierKey(request.name) !in db.catalog.tables
    requires Catalog.CreateTable(db.catalog, request).1 ==
             Ok(TableInfo(db.catalog.nextTableId, request.name, request.schema, INVALID_PAGE_ID, []))
    requires CatalogInv(Catalog.CreateTable(db.catalog, request).0)
    requires Catalog.CreateTable(db.catalog, request).0.tables ==
             db.catalog.tables[FoldIdentifierKey(request.name) := Catalog.CreateTable(db.catalog, request).1.value]
    requires Catalog.CreateTable(db.catalog, request).0.nextTableId == db.catalog.nextTableId + 1
    ensures var (db1, r) := ExecuteCreate(db, request);
            && r == Ok(NO_ROWS) && Linked(db1) && Grew(db, db1)
            && Abstraction(db1) == Abstraction(db)[FoldIdentifierKey(request.name) := AbstractTable(request.schema, multiset{})]
  {
    hide Grew, CatalogInv, StorageInv, Stored, WellFormedSchema, FoldIdentifierKey, Catalog.CreateTable, CreateHeap,
         SetTableHeapRoot, Bag, HeapContents;
    LinkedParts(db);
    var (listed, table) := Catalog.CreateTable(db.catalog, request);
    var t := table.value;
    var key := FoldIdentifierKey(request.name);
    CreateHeapExactly(db.storage, t.id);
    var (storage, root) := CreateHeap(db.storage, t.id);
    Filed(listed, key);
    SetRootExactly(listed, t.id, root.value);
    SetRootKeepsLinks(listed, t.id, root.value);
    var rooted := SetTableHeapRoot(listed, t.id, root.value).0;
    var db1 := DatabaseState(rooted, storage);
    ProvidedGrew(db, db1, key);
    EmptyBag(root.value, DEFAULT_PAGE_SIZE, request.schema);
    NewTableIsStored(db1, rooted.tables[key], root.value);
    forall k | k in rooted.tables ensures Stored(db1, rooted.tables[k]) {
      if k != key {
        StillStored(db, db1, k);
      }
    }
    hide Decodes;
    assert Linked(db1);
    ProvidedContents(db, db1, key, request.schema);
  }

  lemma ProvidedGrew(db: DatabaseState, db1: DatabaseState, key: Text)
    requires db.storage.nextRoot < INVALID_PAGE_ID && db1.storage == CreateHeap(db.storage, db.catalog.nextTableId).0
    requires db1.catalog.nextTableId == db.catalog.nextTableId + 1 && db1.catalog.tables.Keys == db.catalog.tables.Keys + {key}
    requires db1.catalog.tables[key].id == db.catalog.nextTableId
    requires forall k :: k in db.catalog.tables && k != key ==> db1.catalog.tables[k] == db.catalog.tables[k]
    ensures Grew(db, db1)
  {
  }

  // Tables other than a new, empty one keep their contents.
  lemma ProvidedContents(db: DatabaseState, db1: DatabaseState, key: Text, schema: TableSchema)
    requires Linked(db) && Linked(db1) && key !in db.catalog.tables && key in db1.catalog.tables
    requires db1.catalog.tables.Keys == db.catalog.tables.Keys + {key}
    requires forall k :: k in db.catalog.tables ==> db1.catalog.tables[k] == db.catalog.tables[k]
    requires forall id :: id in db.storage.tables ==> id in db1.storage.tables && db1.storage.tables[id] == db.storage.tables[id]
    requires db1.catalog.tables[key].id in db1.storage.tables
    requires TableContents(db1, db1.catalog.tables[key]) == AbstractTable(schema, multiset{})
    ensures Abstraction(db1) == Abstraction(db)[key := AbstractTable(schema, multiset{})]
  {
    hide Linked, TableContents, CatalogInv, StorageInv, Stored;
    forall k | k in db.catalog.tables ensures Abstraction(db1)[k] == Abstraction(db)[k] {
      StillStored(db, db1, k);
    }
  }

  lemma NewTableIsStored(db: DatabaseState, t: TableInfo, root: PageId)
    requires t.heapRoot == root != INVALID_PAGE_ID && t.id in db.storage.tables
    requires db.storage.tables[t.id] == StoredTable(root, EmptyHeap(root, DEFAULT_PAGE_SIZE))
    requires Decodes(EmptyHeap(root, DEFAULT_PAGE_SIZE), t.schema) && Bag(EmptyHeap(root, DEFAULT_PAGE_SIZE), t.schema) == multiset{}
    ensures Stored(db, t) && TableContents(db, t) == AbstractTable(t.schema, multiset{})
  {
    hide Decodes, Bag;
  }

  lemma StillStored(db: DatabaseState, db1: DatabaseState, key: Text)
    requires Linked(db) && key in db.catalog.tables && key in db1.catalog.tables
    requires db1.catalog.tables[key] == db.catalog.tables[key]
    requires forall id :: id in db.storage.tables ==> id in db1.storage.tables && db1.storage.tables[id] == db.storage.tables[id]
    ensures Stored(db1, db1.catalog.tables[key])
    ensures TableContents(db1, db1.catalog.tables[key]) == TableContents(db, db.catalog.tables[key])
  {
    hide CatalogInv, StorageInv, Decodes, Bag;
    assert Stored(db, db.catalog.tables[key]);
  }

  lemma CreationUndone(db: DatabaseState, request: CreateTableRequest)
    requires Linked(db) && db.storage.nextRoot == INVALID_PAGE_ID
    requires request.name != [] && request.schema != [] && FoldIdentifierKey(request.name) !in db.catalog.tables
    requires Catalog.CreateTable(db.catalog, request).1 ==
             Ok(TableInfo(db.catalog.nextTableId, request.name, request.schema, INVALID_PAGE_ID, []))
    requires CatalogInv(Catalog.CreateTable(db.catalog, request).0)
    requires Catalog.CreateTable(db.catalog, request).0.tables ==
             db.catalog.tables[FoldIdentifierKey(request.name) := Catalog.CreateTable(db.catalog, request).1.value]
    requires Catalog.CreateTable(db.catalog, request).0.nextTableId == db.catalog.nextTableId + 1
    ensures var (db1, r) := ExecuteCreate(db, request);
            && r == Err(ErrorCode.Internal) && Linked(db1) && Grew(db, db1) && Abstraction(db1) == Abstraction(db)
            && db1.catalog.tables == db.catalog.tables && db1.storage == db.storage
  {
    hide CatalogInv, StorageInv, Stored, WellFormedSchema, FoldIdentifierKey, Catalog.CreateTable, SetTableHeapRoot, Bag,
         HeapContents;
    LinkedParts(db);
    var (listed, table) := Catalog.CreateTable(db.catalog, request);
    DropTableKeepsLinks(listed, request.name);
    var db1 := ExecuteCreate(db, request).0;
    assert db1.catalog.tables == db.catalog.tables;
    forall k | k in db1.catalog.tables ensures Stored(db1, db1.catalog.tables[k]) {
      StillStored(db, db1, k);
    }
  }

  lemma ExecutedCreate(db: DatabaseState, request: CreateTableRequest, tx: Transaction)
    ensures Executor.Execute(db, PCreateTable([], request), tx) ==
            if RequireWritable(tx).Err? then (db, Err(TransactionConflict)) else ExecuteCreate(db, request)
  {
    hide ExecuteCreate;
  }

  lemma CreateRefines(db: DatabaseState, s: Statement, tx: Transaction)
    requires Linked(db) && s.CreateTableStatement?
    ensures var (db1, r) := ExecuteStatement(db, s, tx);
            && Linked(db1)
            && CreateSpec(Abstraction(db), s, NamedTable(db.catalog, s), tx, Ample(db), Abstraction(db1), r)
            && Grew(db, db1)
  {
    hide Grew, CatalogInv, StorageInv, Stored, Linked, WellFormedSchema, BindCreate, Compile, Executor.Execute, ExecuteCreate,
         FoldIdentifierKey, Abstraction, DefinedColumns, Definable, DefinesSchema, RequireWritable, CreateFault, CreateReads;
    var found := NamedTable(db.catalog, s);
    var bound := BindCreate(s, found);
    CompiledCreate(s, found);
    CreateBindsExactly(s, found);
    NothingGrew(db);
    if bound.Err? {
      CreateReadsExactly(s, found, [], bound.error);
    } else {
      var schema := DefinedColumns(s.columns);
      var request := CreateTableRequest(s.tableName, schema);
      CreateReadsExactly(s, found, schema, BindError);
      ExecutedCreate(db, request, tx);
      NameIsFree(db, s.tableName);
      CreatedTable(db, request);
      WritableOrConflict(tx);
      var (db1, r) := ExecuteStatement(db, s, tx);
      assert TableAdded(Abstraction(db), FoldIdentifierKey(s.tableName), schema, tx, Ample(db), Abstraction(db1), r);
    }
  }

  lemma NameIsFree(db: DatabaseState, name: Text)
    requires Linked(db) && GetTable(db.catalog, name) == Err(NotFound)
    ensures FoldIdentifierKey(name) !in db.catalog.tables && FoldIdentifierKey(name) !in Abstraction(db)
  {
    hide CatalogInv, StorageInv, Stored, FoldIdentifierKey;
  }

  // ---------------------------------------------------------------- every statement, every run

  // One statement: the links hold afterwards, and the abstract database moved as specified.
  lemma StatementRefines(db: DatabaseState, s: Statement, tx: Transaction)
    requires Linked(db)
    ensures var (db1, r) := ExecuteStatement(db, s, tx);
            && Linked(db1)
            && Describes(Abstraction(db), s.tableName, NamedTable(db.catalog, s))
            && StatementSpec(Abstraction(db), s, NamedTable(db.catalog, s), tx, Ample(db), Abstraction(db1), r)
            && Grew(db, db1)
  {
    hide Linked, Abstraction, ExecuteStatement, SelectSpec, InsertSpec, CreateSpec, Describes, Ample, Grew;
    CatalogDescribes(db, s.tableName);
    NothingGrew(db);
    match s
    case SelectStatement(_, _, _) => SelectRefines(db, s, tx);
    case InsertStatement(_, _) => InsertRefines(db, s, tx);
    case CreateTableStatement(_, _) => CreateRefines(db, s, tx);
  }

  // A statement's text with the transaction it runs in.
  datatype Request = Request(sql: Text, tx: Transaction)

  // One request against the abstract database: unparsable text is a parse error and no change.
  ghost predicate RequestSpec(a: AbstractDatabase, q: Request, ample: bool, a1: AbstractDatabase, r: Result<QueryResult>) {
    var s := ParseSql(q.sql);
    if s.Err? then a1 == a && r == Err(s.error)
    else exists found :: Describes(a, s.value.tableName, found) && StatementSpec(a, s.value, found, q.tx, ample, a1, r)
  }

  // The replies of a run, with the abstract database before and after each.
  ghost predicate RunSpec(a: AbstractDatabase, requests: seq<Request>, ample: bool, replies: seq<Result<QueryResult>>,
                          end: AbstractDatabase)
    decreases |requests|
  {
    if requests == [] then replies == [] && end == a
    else
      && replies != []
      && exists a1 :: RequestSpec(a, requests[0], ample, a1, replies[0]) && RunSpec(a1, requests[1..], ample, replies[1..], end)
  }

  function RunEngine(db: DatabaseState, requests: seq<Request>): (DatabaseState, seq<Result<QueryResult>>)
    decreases |requests|
  {
    if requests == [] then (db, [])
    else
      var (db1, r) := ExecuteSql(db, requests[0].sql, requests[0].tx);
      var (end, rest) := RunEngine(db1, requests[1..]);
      (end, [r] + rest)
  }

  // Less is promised where page ids may run out.
  lemma AmpleIsStronger(a: AbstractDatabase, s: Statement, found: Result<TableInfo>, tx: Transaction,
                        a1: AbstractDatabase, r: Result<QueryResult>)
    requires StatementSpec(a, s, found, tx, true, a1, r)
    ensures StatementSpec(a, s, found, tx, false, a1, r)
  {
    hide SelectSpec, BindInsertInto, BindCreate, EvaluateAll, Conforms, FoldIdentifierKey, RowSize, DefinedColumns;
  }

  lemma RequestRefines(db: DatabaseState, q: Request, ample: bool)
    requires Linked(db) && (ample ==> Ample(db))
    ensures var (db1, r) := ExecuteSql(db, q.sql, q.tx);
            Linked(db1) && RequestSpec(Abstraction(db), q, ample, Abstraction(db1), r) && Grew(db, db1)
  {
    hide Linked, Abstraction, ExecuteStatement, StatementSpec, Describes, ParseSql, Ample, Grew;
    var s := ParseSql(q.sql);
    NothingGrew(db);
    if s.Ok? {
      var (db1, r) := ExecuteStatement(db, s.value, q.tx);
      StatementRefines(db, s.value, q.tx);
      if Ample(db) && !ample {
        AmpleIsStronger(Abstraction(db), s.value, NamedTable(db.catalog, s.value), q.tx, Abstraction(db1), r);
      }
    }
  }

  lemma IdsStayOn(db: DatabaseState, db1: DatabaseState, db2: DatabaseState)
    requires IdsStay(db, db1) && IdsStay(db1, db2)
    ensures IdsStay(db, db2)
  {
  }

  // From any linked database, a whole run of requests keeps the links, is a run of the abstract
  // database with the same replies, and gives no table id to two tables. When it is too short
  // to use up the page ids, every legal CREATE TABLE succeeds in it, and every legal INSERT
  // exactly when its row fits a page.
  lemma {:induction false} RunRefines(db: DatabaseState, requests: seq<Request>, used: nat)
    requires Linked(db) && UsedAtMost(db, used)
    ensures var (end, replies) := RunEngine(db, requests);
            && Linked(end) && IdsStay(db, end)
            && RunSpec(Abstraction(db), requests, used + |requests| < INVALID_PAGE_ID, replies, Abstraction(end))
    decreases |requests|
  {
    hide Linked, Abstraction, ExecuteSql, RequestSpec, Grew, IdsStay, UsedAtMost, Ample;
    if requests == [] {
      NothingGrew(db);
      GrownIdsStay(db, db);
    } else {
      var (db1, r) := ExecuteSql(db, requests[0].sql, requests[0].tx);
      var ample := used + |requests| < INVALID_PAGE_ID;
      if ample {
        UsedIsAmple(db, used);
      }
      RequestRefines(db, requests[0], ample);
      GrownUse(db, db1, used);
      GrownIdsStay(db, db1);
      RunRefines(db1, requests[1..], used + 1);
      var (end, rest) := RunEngine(db1, requests[1..]);
      IdsStayOn(db, db1, end);
      assert ([r] + rest)[1..] == rest;
    }
  }

  lemma GrownIdsStay(db: DatabaseState, db1: DatabaseState)
    requires Grew(db, db1)
    ensures IdsStay(db, db1)
  {
  }

  lemma UsedIsAmple(db: DatabaseState, used: nat)
    requires UsedAtMost(db, used) && used + 1 < INVALID_PAGE_ID
    ensures Ample(db)
  {
  }

  // The default engine, from its construction, refines the empty abstract database; in runs of
  // fewer than 2^64 - 1 requests page ids cannot run out.
  lemma EngineRefines(requests: seq<Request>)
    ensures var (end, replies) := RunEngine(EMPTY_DATABASE, requests);
            Linked(end) && RunSpec(map[], requests, |requests| < INVALID_PAGE_ID, replies, Abstraction(end))
  {
    hide Linked, Abstraction, RunEngine, RunSpec;
    EmptyDatabaseIsLinked();
    RunRefines(EMPTY_DATABASE, requests, 0);
  }

  // A text that fails leaves every table's schema and rows as they were.
  lemma FailureChangesNothing(db: DatabaseState, sql: Text, tx: Transaction)
    requires Linked(db) && ExecuteSql(db, sql, tx).1.Err?
    ensures Linked(ExecuteSql(db, sql, tx).0) && Abstraction(ExecuteSql(db, sql, tx).0) == Abstraction(db)
  {
    hide Linked, Abstraction, ExecuteSql, StatementSpec;
    var (db1, r) := ExecuteSql(db, sql, tx);
    RequestRefines(db, Request(sql, tx), false);
    var s := ParseSql(sql);
    if s.Ok? {
      var found :| StatementSpec(Abstraction(db), s.value, found, tx, false, Abstraction(db1), r);
      FailedStatement(Abstraction(db), s.value, found, tx, Abstraction(db1), r);
    }
  }

  lemma FailedStatement(a: AbstractDatabase, s: Statement, found: Result<TableInfo>, tx: Transaction,
                        a1: AbstractDatabase, r: Result<QueryResult>)
    requires StatementSpec(a, s, found, tx, false, a1, r) && r.Err?
    ensures a1 == a
  {
    hide SelectSpec, Conforms, EvaluateAll, BindCreate, BindInsertInto, FoldIdentifierKey, RowSize;
  }

  // ---------------------------------------------------------------- bags, not lists

  // The bag a single row contributes to a filtered result.
  ghost function KeptBag(condition: BoundExpr, width: nat, row: Row): multiset<Row> {
    if Keeps(condition, width, row) == Ok(true) then multiset{row} else multiset{}
  }

  lemma FilterCons(condition: BoundExpr, width: nat, row: Row, rest: seq<Row>)
    ensures FilterRows(condition, width, [row] + rest).Ok? <==>
            Keeps(condition, width, row).Ok? && FilterRows(condition, width, rest).Ok?
    ensures FilterRows(condition, width, [row] + rest).Ok? ==>
              multiset(FilterRows(condition, width, [row] + rest).value) ==
              multiset(FilterRows(condition, width, rest).value) + KeptBag(condition, width, row)
  {
    hide Keeps;
    assert ([row] + rest)[1..] == rest;
  }

  lemma {:induction false} FilterWithout(condition: BoundExpr, width: nat, rows: seq<Row>, k: nat)
    requires k < |rows| && FilterRows(condition, width, rows).Ok?
    ensures var rest := FilterRows(condition, width, Without(rows, k));
            && rest.Ok?
            && multiset(FilterRows(condition, width, rows).value) == multiset(rest.value) + KeptBag(condition, width, rows[k])
    decreases k
  {
    hide Keeps, FilterRows, KeptBag;
    var tail := rows[1..];
    assert rows == [rows[0]] + tail;
    FilterCons(condition, width, rows[0], tail);
    if k == 0 {
      assert Without(rows, 0) == tail;
    } else {
      FilterWithout(condition, width, tail, k - 1);
      assert Without(rows, k) == [rows[0]] + Without(tail, k - 1);
      FilterCons(condition, width, rows[0], Without(tail, k - 1));
    }
  }

  lemma {:induction false} ProjectWithout(es: seq<BoundExpr>, width: nat, rows: seq<Row>, k: nat)
    requires k < |rows| && ProjectRows(es, width, rows).Ok?
    ensures EvaluateAll(es, RowContext(width, rows[k])).Ok?
    ensures var rest := ProjectRows(es, width, Without(rows, k));
            && rest.Ok?
            && multiset(ProjectRows(es, width, rows).value) == multiset(rest.value) + multiset{EvaluateAll(es, RowContext(width, rows[k])).value}
  {
    hide EvaluateAll;
    ProjectionIsPointwise(es, width, rows);
    ProjectionIsPointwise(es, width, Without(rows, k));
    var out := ProjectRows(es, width, rows).value;
    assert ProjectRows(es, width, Without(rows, k)).Ok?;
    assert ProjectRows(es, width, Without(rows, k)).value == Without(out, k);
    WithoutBag(out, k);
  }

  lemma RemoveSame(a: seq<Row>, b: seq<Row>) returns (k: nat)
    requires a != [] && multiset(a) == multiset(b)
    ensures k < |b| && b[k] == a[0] && multiset(Without(a, 0)) == multiset(Without(b, k)) && |Without(a, 0)| < |a|
  {
    assert a[0] in multiset(b);
    k :| 0 <= k < |b| && b[k] == a[0];
    WithoutBag(a, 0);
    WithoutBag(b, k);
  }

  lemma FilterOfMembers(condition: BoundExpr, width: nat, a: seq<Row>, b: seq<Row>)
    requires FilterRows(condition, width, a).Ok? && forall row :: row in b ==> row in a
    ensures FilterRows(condition, width, b).Ok?
  {
    hide Keeps, FilterRows;
    FilterIsExact(condition, width, a, []);
    FilterIsExact(condition, width, b, []);
    forall i | 0 <= i < |b| ensures Keeps(condition, width, b[i]).Ok? {
      assert b[i] in a;
    }
  }

  lemma ProjectionOfMembers(es: seq<BoundExpr>, width: nat, a: seq<Row>, b: seq<Row>)
    requires ProjectRows(es, width, a).Ok? && forall row :: row in b ==> row in a
    ensures ProjectRows(es, width, b).Ok?
  {
    hide EvaluateAll, ProjectRows;
    ProjectionIsPointwise(es, width, a);
    ProjectionIsPointwise(es, width, b);
    forall i | 0 <= i < |b| ensures EvaluateAll(es, RowContext(width, b[i])).Ok? {
      assert b[i] in a;
    }
  }

  lemma {:induction false} FilterOfBag(condition: BoundExpr, width: nat, a: seq<Row>, b: seq<Row>)
    requires multiset(a) == multiset(b)
    ensures FilterRows(condition, width, a).Ok? <==> FilterRows(condition, width, b).Ok?
    ensures FilterRows(condition, width, a).Ok? ==>
              multiset(FilterRows(condition, width, a).value) == multiset(FilterRows(condition, width, b).value)
    decreases |a|
  {
    hide Keeps, FilterRows, Without;
    SameMembers(a, b);
    if FilterRows(condition, width, b).Ok? {
      FilterOfMembers(condition, width, b, a);
    }
    if FilterRows(condition, width, a).Ok? {
      FilterOfMembers(condition, width, a, b);
      if a == [] {
        assert |multiset(a)| == |multiset(b)|;
        assert b == [];
      } else {
        var k := RemoveSame(a, b);
        FilterWithout(condition, width, a, 0);
        FilterWithout(condition, width, b, k);
        FilterOfBag(condition, width, Without(a, 0), Without(b, k));
      }
    }
  }

  lemma SameMembers(a: seq<Row>, b: seq<Row>)
    requires multiset(a) == multiset(b)
    ensures forall row :: row in a <==> row in b
  {
    assert forall row :: row in a <==> row in multiset(a);
    assert forall row :: row in b <==> row in multiset(b);
  }

  lemma {:induction false} ProjectionOfBag(es: seq<BoundExpr>, width: nat, a: seq<Row>, b: seq<Row>)
    requires multiset(a) == multiset(b)
    ensures ProjectRows(es, width, a).Ok? <==> ProjectRows(es, width, b).Ok?
    ensures ProjectRows(es, width, a).Ok? ==>
              multiset(ProjectRows(es, width, a).value) == multiset(ProjectRows(es, width, b).value)
    decreases |a|
  {
    hide EvaluateAll, ProjectRows, Without;
    SameMembers(a, b);
    if ProjectRows(es, width, b).Ok? {
      ProjectionOfMembers(es, width, b, a);
    }
    if ProjectRows(es, width, a).Ok? {
      ProjectionOfMembers(es, width, a, b);
      if a == [] {
        assert |multiset(a)| == |multiset(b)|;
        assert b == [];
      } else {
        var k := RemoveSame(a, b);
        ProjectWithout(es, width, a, 0);
        ProjectWithout(es, width, b, k);
        ProjectionOfBag(es, width, Without(a, 0), Without(b, k));
      }
    }
  }

  // The order in which a table's rows are listed does not matter: a SELECT over two listings of
  // one bag succeeds for both or for neither, with the same column names and the same bag.
  lemma AnswerIsOrderIndependent(b: BoundStatement, x: seq<Row>, y: seq<Row>)
    requires b.BoundSelect? && |b.names| == |b.projections| && multiset(x) == multiset(y)
    ensures Answer(b, x).Ok? <==> Answer(b, y).Ok?
    ensures Answer(b, x).Ok? ==>
              && Answer(b, x).value.columns == Answer(b, y).value.columns
              && multiset(Answer(b, x).value.rows) == multiset(Answer(b, y).value.rows)
  {
    hide FilterRows, ProjectRows, OutputNames;
    var width := |b.table.schema|;
    if b.where.None? {
      ProjectionOfBag(b.projections, width, x, y);
    } else {
      FilterOfBag(b.where.value, width, x, y);
      if FilterRows(b.where.value, width, x).Ok? {
        ProjectionOfBag(b.projections, width, FilterRows(b.where.value, width, x).value, FilterRows(b.where.value, width, y).value);
      }
    }
  }

  // In every state a run can reach, each listed table has a valid root that OpenHeap accepts,
  // and the storage's record count is the number of its rows.
  lemma ReachableTablesOpen(requests: seq<Request>, key: Text)
    ensures var db := RunEngine(EMPTY_DATABASE, requests).0;
            && CatalogInv(db.catalog)
            && (key in db.catalog.tables ==>
                  var t := db.catalog.tables[key];
                  && t.heapRoot != INVALID_PAGE_ID && OpenHeap(db.storage, MakeStorageRef(t)).Ok?
                  && ScanTable(db.storage, MakeStorageRef(t)).Ok?
                  && RecordCount(db.storage, t.id) == Ok(|ScanTable(db.storage, MakeStorageRef(t)).value|))
  {
    hide RunEngine, CatalogInv, StorageInv, OpenHeap, ScanTable, Decodes, HeapInv, Stored, Abstraction;
    EngineRefines(requests);
    var db := RunEngine(EMPTY_DATABASE, requests).0;
    if key in db.catalog.tables {
      ListedTablesOpen(db, key);
      CountIsRowCount(db, key);
    }
  }

  lemma CountIsRowCount(db: DatabaseState, key: Text)
    requires Linked(db) && key in db.catalog.tables
    ensures var t := db.catalog.tables[key];
            && ScanTable(db.storage, MakeStorageRef(t)).Ok?
            && RecordCount(db.storage, t.id) == Ok(|ScanTable(db.storage, MakeStorageRef(t)).value|)
  {
    hide CatalogInv, HeapInv, WellFormedSchema, FoldIdentifierKey, DecodeRecord, HeapContents, ScanHeap, Views, ViewSet;
    ListedTable(db, key);
    var t := db.catalog.tables[key];
    var heap := db.storage.tables[t.id].heap;
    ScanSucceeds(heap, t.schema);
    ViewsBag(heap);
    RecordCountIsExact(db.storage, t.id);
    ViewSetSize(HeapContents(heap));
    assert |multiset(Views(heap, SCAN_START))| == |Views(heap, SCAN_START)|;
  }

  lemma {:induction false} ViewSetSize(m: map<RecordId, Bytes>)
    ensures |ViewSet(m)| == |m|
    decreases |m|
  {
    if m == map[] {
      assert ViewSet(m) == {};
    } else {
      var id :| id in m;
      var rest := m - {id};
      ViewSetSize(rest);
      assert rest.Keys == m.Keys - {id};
      assert ViewSet(m) == ViewSet(rest) + {RecordView(id, m[id])};
      assert RecordView(id, m[id]) !in ViewSet(rest);
    }
  }
}
