/**
  sql_engine.cpp: the stages of Execute in order over the catalog and the storage the engine
  holds. Every stage's error is returned at once, and lexical errors count as parse errors.
 */
module Engine {
  import opened Common
  import opened Lexer
  import opened LexerTiling
  import opened Parser
  import opened Plans
  import opened QueryExecution
  import opened Optimizer
  import opened Binder
  import opened Catalog
  import opened TableStorage
  import opened Executor

  // What a client gets back.
  datatype QueryResult = QueryResult(columns: seq<Text>, rows: seq<Row>)

  const EMPTY_DATABASE := DatabaseState(EMPTY_CATALOG, EMPTY_STORAGE)

  lemma {:induction false} ScanEndsWithEof(input: Text, pos: nat)
    requires pos <= |input| && ScanFrom(input, pos).complete
    ensures var ts := ScanFrom(input, pos).tokens; ts != [] && ts[|ts| - 1].ty == EndOfFile
    decreases |input| - pos
  {
    hide LocationAt, TriviaEnd, TokenAt;
    var start := TriviaEnd(input, pos).value;
    var (ty, end) := TokenAt(input, start);
    if ty != EndOfFile {
      ScanEndsWithEof(input, end);
    }
  }

  function ParseSql(sql: Text): Result<Statement> {
    var tokens := TokenizeText(sql);
    if tokens.Err? then Err(ParseError)
    else
      ScanEndsWithEof(sql, 0);
      ParseStatement(Lexemes(tokens.value))
  }

  // Whatever is wrong with a text, it is a parse error.
  lemma ParsingFailsAlike(sql: Text)
    ensures ParseSql(sql).Err? ==> ParseSql(sql).error == ParseError
  {
    hide TokenizeText, ParseProjections, ParseFrom, ParseWhere, ParseExpr, ParseMoreExpressions, ParseColumns, Take;
    var tokens := TokenizeText(sql);
  }

  function NamedTable(c: CatalogState, s: Statement): Result<TableInfo> {
    GetTable(c, s.tableName)
  }

  // Binding to lowering: everything between the parser and the executor.
  function Compile(s: Statement, found: Result<TableInfo>): Result<PhysicalPlan> {
    var bound :- BindStatement(s, found);
    var logical :- PlanStatement(bound);
    var optimized :- OptimizePlan(logical);
    Lower(optimized)
  }

  function ToQueryResult(r: Result<Relation>): Result<QueryResult> {
    if r.Err? then Err(r.error) else Ok(QueryResult(r.value.columns, r.value.rows))
  }

  function ExecuteStatement(db: DatabaseState, s: Statement, tx: Transaction): (DatabaseState, Result<QueryResult>) {
    var plan := Compile(s, NamedTable(db.catalog, s));
    if plan.Err? then (db, Err(plan.error))
    else
      var (db1, r) := Executor.Execute(db, plan.value, tx);
      (db1, ToQueryResult(r))
  }

  function ExecuteSql(db: DatabaseState, sql: Text, tx: Transaction): (DatabaseState, Result<QueryResult>) {
    var s := ParseSql(sql);
    if s.Err? then (db, Err(s.error)) else ExecuteStatement(db, s.value, tx)
  }

  // A read-only or inactive transaction leaves every database exactly as it was, whatever the
  // text says.
  lemma ReadOnlySqlChangesNothing(db: DatabaseState, sql: Text, tx: Transaction)
    requires tx.mode != ReadWrite || tx.state != Active
    ensures ExecuteSql(db, sql, tx).0 == db
  {
    hide ParseSql, Compile, ExecutePlan;
    var s := ParseSql(sql);
    if s.Ok? {
      var plan := Compile(s.value, NamedTable(db.catalog, s.value));
      if plan.Ok? {
        ReadOnlyChangesNothing(db, plan.value, tx);
      }
    }
  }

  // ---------------------------------------------------------------- the code

  class DefaultSqlEngine {
    const catalog: InMemoryCatalog
    const storage: InMemoryTableStorage

    ghost predicate Valid()
      reads storage, storage.Repr
    {
      storage.Valid() && catalog.hosted !in storage.Repr
    }

    ghost function State(): DatabaseState
      requires Valid()
      reads catalog.hosted, storage, storage.Repr
    {
      DatabaseState(catalog.State(), storage.State())
    }

    constructor ()
      ensures Valid() && State() == EMPTY_DATABASE
    {
      catalog := new InMemoryCatalog();
      storage := new InMemoryTableStorage();
    }

    method Parse(sql: Text) returns (r: Result<Statement>)
      ensures r == ParseSql(sql)
    {
      hide TokenizeText, ParseStatement;
      var scanner := new Scanner(sql);
      var tokens := scanner.Tokenize();
      if tokens.Err? { return Err(ParseError); }
      TokenizedIsTerminated(sql);
      var parser := new TokenParser(tokens.value);
      r := parser.Parse();
    }

    method CompileStatement(s: Statement) returns (r: Result<PhysicalPlan>)
      ensures r == Compile(s, NamedTable(catalog.State(), s))
    {
      hide BindStatement, PlanStatement, ApplyRules, Lower;
      var found := catalog.Get(s.tableName);
      var bound := Bind(s, found);
      if bound.Err? { return Err(bound.error); }
      var logical := PlanStatement(bound.value);
      if logical.Err? { return Err(logical.error); }
      var optimized := Optimize(DEFAULT_RULES, logical.value);
      if optimized.Err? { return Err(optimized.error); }
      r := Lower(optimized.value);
    }

    method Execute(sql: Text, tx: Transaction) returns (r: Result<QueryResult>)
      requires Valid()
      modifies catalog.hosted, storage.Repr
      ensures Valid() && fresh(storage.Repr - old(storage.Repr))
      ensures (State(), r) == ExecuteSql(old(State()), sql, tx)
    {
      hide ParseSql, Compile, ExecutePlan, InMemoryTableStorage.Valid, InMemoryTableStorage.State;
      var s := Parse(sql);
      if s.Err? { return Err(s.error); }
      var plan := CompileStatement(s.value);
      if plan.Err? { return Err(plan.error); }
      var active := RequireActive(tx);
      if active.Err? { return Err(active.error); }
      var driver := new ExecutionDriver(catalog, storage, tx);
      var result := driver.ExecuteNode(plan.value);
      if result.Err? { return Err(result.error); }
      return Ok(QueryResult(result.value.columns, result.value.rows));
    }
  }

  lemma TokenizedIsTerminated(sql: Text)
    requires TokenizeText(sql).Ok?
    ensures Terminated(Lexemes(TokenizeText(sql).value))
  {
    ScanEndsWithEof(sql, 0);
  }
}
