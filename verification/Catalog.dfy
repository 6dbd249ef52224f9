/**
  The catalog: four cross-linked maps and two id counters (hosted_catalog_api.cpp) behind the
  operations that validate their requests (in_memory_catalog.cpp). Keys are folded names.
 */
module Catalog {
  import opened Common
  import opened Plans

  datatype CreateIndexRequest = CreateIndexRequest(tableName: Text, schema: IndexSchema)

  datatype CatalogState = CatalogState(
    nextTableId: nat,
    nextIndexId: nat,
    tables: map<Text, TableInfo>,
    namesById: map<nat, Text>,
    indexKeys: map<nat, (Text, Text)>,
    indexes: map<Text, map<Text, IndexInfo>>)

  const EMPTY_CATALOG := CatalogState(1, 1, map[], map[], map[], map[])

  // ---------------------------------------------------------------- hosted metadata

  function LoadTable(s: CatalogState, key: Text): Result<TableInfo> {
    if key in s.tables then Ok(s.tables[key]) else Err(NotFound)
  }

  // Internal stands for the exception of map::at; see CatalogInv.
  function LoadTableById(s: CatalogState, id: nat): Result<TableInfo> {
    if id !in s.namesById then Err(NotFound)
    else if s.namesById[id] in s.tables then Ok(s.tables[s.namesById[id]])
    else Err(Internal)
  }

  function StoreTable(s: CatalogState, key: Text, table: TableInfo): (CatalogState, Result<TableInfo>) {
    if key in s.tables || table.id in s.namesById then (s, Err(AlreadyExists))
    else (s.(namesById := s.namesById[table.id := key], tables := s.tables[key := table]), Ok(table))
  }

  function IndexIds(list: seq<IndexInfo>): set<nat> {
    set i | 0 <= i < |list| :: list[i].id
  }

  function EraseTable(s: CatalogState, key: Text): (CatalogState, Status) {
    if key !in s.tables then (s, Err(NotFound))
    else
      var table := s.tables[key];
      (s.(namesById := s.namesById - {table.id}, indexKeys := s.indexKeys - IndexIds(table.indexes),
          indexes := s.indexes - {key}, tables := s.tables - {key}), OkStatus)
  }

  function UpdateTable(s: CatalogState, table: TableInfo): (CatalogState, Status) {
    if table.id !in s.namesById then (s, Err(NotFound))
    else
      var key := s.namesById[table.id];
      if key !in s.tables then (s, Err(Corruption))
      else (s.(tables := s.tables[key := table.(name := s.tables[key].name)]), OkStatus)
  }

  function TableIndexes(s: CatalogState, key: Text): map<Text, IndexInfo> {
    if key in s.indexes then s.indexes[key] else map[]
  }

  function StoreIndex(s: CatalogState, key: Text, indexKey: Text, index: IndexInfo): (CatalogState, Result<IndexInfo>) {
    if key !in s.tables then (s, Err(NotFound))
    else if index.tableId != s.tables[key].id then (s, Err(InvalidArgument))
    else if index.id in s.indexKeys then (s, Err(AlreadyExists))
    else
      var mine := TableIndexes(s, key);
      if indexKey in mine then (s, Err(AlreadyExists))
      else
        var table := s.tables[key];
        (s.(tables := s.tables[key := table.(indexes := table.indexes + [index])],
            indexes := s.indexes[key := mine[indexKey := index]],
            indexKeys := s.indexKeys[index.id := (key, indexKey)]), Ok(index))
  }

  function LoadIndex(s: CatalogState, key: Text, indexKey: Text): Result<IndexInfo> {
    if key !in s.tables then Err(NotFound)
    else if indexKey in TableIndexes(s, key) then Ok(TableIndexes(s, key)[indexKey])
    else Err(NotFound)
  }

  // ---------------------------------------------------------------- validated operations

  // Columns index.. of a requested schema, renumbered, given the folded names already seen.
  function ValidateColumns(columns: TableSchema, index: nat, seen: set<Text>): Result<TableSchema>
    requires index <= |columns|
    decreases |columns| - index
  {
    if index == |columns| then Ok([])
    else if index > UINT32_MAX then Err(InvalidArgument)
    else if columns[index].name == [] || columns[index].ty == NullType then Err(InvalidArgument)
    else
      var key := FoldIdentifierKey(columns[index].name);
      if key in seen then Err(AlreadyExists)
      else
        var rest :- ValidateColumns(columns, index + 1, seen + {key});
        Ok([columns[index].(id := index)] + rest)
  }

  function CreateTable(s: CatalogState, request: CreateTableRequest): (CatalogState, Result<TableInfo>) {
    if request.name == [] then (s, Err(InvalidArgument))
    else if request.schema == [] then (s, Err(InvalidArgument))
    else
      var key := FoldIdentifierKey(request.name);
      if key in s.tables then (s, Err(AlreadyExists))
      else
        var schema := ValidateColumns(request.schema, 0, {});
        if schema.Err? then (s, Err(schema.error))
        else
          var issued := s.(nextTableId := s.nextTableId + 1);
          StoreTable(issued, key, TableInfo(s.nextTableId, request.name, schema.value, INVALID_PAGE_ID, []))
  }

  function DropTable(s: CatalogState, name: Text): (CatalogState, Status) {
    EraseTable(s, FoldIdentifierKey(name))
  }

  function GetTable(s: CatalogState, name: Text): Result<TableInfo> {
    LoadTable(s, FoldIdentifierKey(name))
  }

  function SetTableHeapRoot(s: CatalogState, id: nat, root: PageId): (CatalogState, Status) {
    if root == INVALID_PAGE_ID then (s, Err(InvalidArgument))
    else
      var table := LoadTableById(s, id);
      if table.Err? then (s, Err(table.error))
      else UpdateTable(s, table.value.(heapRoot := root))
  }

  function ValidateKeyColumns(ids: seq<nat>, width: nat, seen: set<nat>): Status {
    if ids == [] then OkStatus
    else if ids[0] >= width || ids[0] in seen then Err(InvalidArgument)
    else ValidateKeyColumns(ids[1..], width, seen + {ids[0]})
  }

  function CreateIndex(s: CatalogState, request: CreateIndexRequest): (CatalogState, Result<IndexInfo>) {
    if request.tableName == [] || request.schema.name == [] || request.schema.keyColumns == [] then (s, Err(InvalidArgument))
    else
      var key := FoldIdentifierKey(request.tableName);
      if key !in s.tables then (s, Err(NotFound))
      else
        var table := s.tables[key];
        var indexKey := FoldIdentifierKey(request.schema.name);
        if LoadIndex(s, key, indexKey).Ok? then (s, Err(AlreadyExists))
        else
          var valid := ValidateKeyColumns(request.schema.keyColumns, |table.schema|, {});
          if valid.Err? then (s, Err(valid.error))
          else
            var index := IndexInfo(s.nextIndexId, request.schema.name, table.id, request.schema, INVALID_PAGE_ID);
            StoreIndex(s.(nextIndexId := s.nextIndexId + 1), key, indexKey, index)
  }

  function GetIndex(s: CatalogState, table: Text, index: Text): Result<IndexInfo> {
    LoadIndex(s, FoldIdentifierKey(table), FoldIdentifierKey(index))
  }

  // ---------------------------------------------------------------- the links

  // A listed table: filed under its folded name and its id, and validated.
  ghost predicate TableLinked(s: CatalogState, key: Text)
    requires key in s.tables
  {
    var t := s.tables[key];
    && t.name != [] && FoldIdentifierKey(t.name) == key
    && 0 < t.id < s.nextTableId && t.id in s.namesById && s.namesById[t.id] == key
    && t.schema != [] && WellFormedSchema(t.schema)
  }

  // An index list and the map of the same table hold the same indexes, each under its name.
  ghost predicate ListMirrorsMap(list: seq<IndexInfo>, m: map<Text, IndexInfo>) {
    && (forall i :: 0 <= i < |list| ==> FoldIdentifierKey(list[i].name) in m && m[FoldIdentifierKey(list[i].name)] == list[i])
    && (forall i, j :: 0 <= i < j < |list| ==> FoldIdentifierKey(list[i].name) != FoldIdentifierKey(list[j].name))
    && (forall k :: k in m ==> FoldIdentifierKey(m[k].name) == k && m[k] in list)
  }

  ghost predicate IndexValid(s: CatalogState, t: TableInfo, x: IndexInfo) {
    && x.tableId == t.id && 0 < x.id < s.nextIndexId
    && x.name != [] && x.name == x.schema.name
    && ValidKeys(x.schema.keyColumns, |t.schema|)
  }

  ghost predicate NamesInverse(s: CatalogState) {
    forall id :: id in s.namesById ==> s.namesById[id] in s.tables && s.tables[s.namesById[id]].id == id
  }

  ghost predicate IndexKeysInverse(s: CatalogState) {
    && (forall id :: id in s.indexKeys ==>
          var (k, x) := s.indexKeys[id]; k in s.indexes && x in s.indexes[k] && s.indexes[k][x].id == id)
    && (forall k, x :: k in s.indexes && x in s.indexes[k] ==>
          s.indexes[k][x].id in s.indexKeys && s.indexKeys[s.indexes[k][x].id] == (k, x))
  }

  ghost predicate CatalogInv(s: CatalogState) {
    && s.nextTableId > 0 && s.nextIndexId > 0
    && (forall key :: key in s.tables ==> TableLinked(s, key))
    && NamesInverse(s)
    && (forall key :: key in s.indexes ==> key in s.tables)
    && (forall key :: key in s.tables ==> ListMirrorsMap(s.tables[key].indexes, TableIndexes(s, key)))
    && (forall key, x :: key in s.tables && x in s.tables[key].indexes ==> IndexValid(s, s.tables[key], x))
    && IndexKeysInverse(s)
  }

  // ---------------------------------------------------------------- requests, exactly

  // The schemas a table may be created with.
  ghost predicate Creatable(columns: TableSchema) {
    && |columns| <= UINT32_MAX + 1
    && (forall i :: 0 <= i < |columns| ==> columns[i].name != [] && columns[i].ty != NullType)
    && (forall i, j :: 0 <= i < j < |columns| ==> FoldIdentifierKey(columns[i].name) != FoldIdentifierKey(columns[j].name))
  }

  ghost predicate CreatableFrom(columns: TableSchema, index: nat, seen: set<Text>)
    requires index <= |columns|
  {
    && (index < |columns| ==> |columns| <= UINT32_MAX + 1)
    && (forall i :: index <= i < |columns| ==>
          columns[i].name != [] && columns[i].ty != NullType && FoldIdentifierKey(columns[i].name) !in seen)
    && (forall i, j :: index <= i < j < |columns| ==> FoldIdentifierKey(columns[i].name) != FoldIdentifierKey(columns[j].name))
  }

  // Column ids are positions, whatever ids the request carried.
  function Renumbered(columns: TableSchema): (r: TableSchema)
    ensures |r| == |columns|
    ensures forall i :: 0 <= i < |r| ==> r[i] == columns[i].(id := i)
  {
    seq(|columns|, i requires 0 <= i < |columns| => columns[i].(id := i))
  }

  lemma {:induction false} ColumnsValidateExactly(columns: TableSchema, index: nat, seen: set<Text>)
    requires index <= |columns|
    ensures ValidateColumns(columns, index, seen).Ok? <==> CreatableFrom(columns, index, seen)
    ensures ValidateColumns(columns, index, seen).Ok? ==> ValidateColumns(columns, index, seen).value == Renumbered(columns)[index..]
    decreases |columns| - index
  {
    hide FoldIdentifierKey, Renumbered;
    if index == |columns| {
      assert Renumbered(columns)[index..] == [];
    } else if index <= UINT32_MAX && columns[index].name != [] && columns[index].ty != NullType
              && FoldIdentifierKey(columns[index].name) !in seen {
      var key := FoldIdentifierKey(columns[index].name);
      ColumnsValidateExactly(columns, index + 1, seen + {key});
      assert Renumbered(columns)[index..] == [columns[index].(id := index)] + Renumbered(columns)[index + 1..];
      if CreatableFrom(columns, index, seen) {
        assert CreatableFrom(columns, index + 1, seen + {key});
      }
    }
  }

  lemma SchemaValidatesExactly(columns: TableSchema)
    ensures ValidateColumns(columns, 0, {}).Ok? <==> columns == [] || Creatable(columns)
    ensures ValidateColumns(columns, 0, {}).Ok? ==>
              ValidateColumns(columns, 0, {}).value == Renumbered(columns) && WellFormedSchema(Renumbered(columns))
  {
    hide FoldIdentifierKey, ValidateColumns, Renumbered;
    ColumnsValidateExactly(columns, 0, {});
    assert Renumbered(columns)[0..] == Renumbered(columns);
    assert CreatableFrom(columns, 0, {}) <==> columns == [] || Creatable(columns);
    if Creatable(columns) {
      RenumberedIsWellFormed(columns);
    }
  }

  lemma RenumberedIsWellFormed(columns: TableSchema)
    requires Creatable(columns)
    ensures WellFormedSchema(Renumbered(columns))
  {
    hide FoldIdentifierKey;
    var r := Renumbered(columns);
    assert forall i :: 0 <= i < |r| ==> r[i].name == columns[i].name;
  }

  // CREATE TABLE succeeds exactly for a named, creatable schema under a free name; it then adds
  // that one table, with the next id and no storage yet, and otherwise changes nothing.
  lemma CreateTableExactly(s: CatalogState, request: CreateTableRequest)
    requires CatalogInv(s)
    ensures var (s1, r) := CreateTable(s, request);
            && (r.Ok? <==> request.name != [] && request.schema != [] && Creatable(request.schema)
                           && GetTable(s, request.name) == Err(NotFound))
            && (r.Err? ==> s1 == s)
            && (r.Ok? ==>
                  && r.value == TableInfo(s.nextTableId, request.name, Renumbered(request.schema), INVALID_PAGE_ID, [])
                  && s1.tables == s.tables[FoldIdentifierKey(request.name) := r.value]
                  && s1.nextTableId == s.nextTableId + 1)
  {
    hide FoldIdentifierKey, ValidateColumns, Creatable, WellFormedSchema;
    SchemaValidatesExactly(request.schema);
    forall id | id in s.namesById ensures id < s.nextTableId {
      assert TableLinked(s, s.namesById[id]);
    }
  }

  // A column that stops the validation: unnamed, untyped or beyond 2^32 columns, or under a name
  // already used before it.
  ghost predicate ColumnFault(columns: TableSchema, i: nat, fault: ErrorCode)
    requires i < |columns|
  {
    if i > UINT32_MAX || columns[i].name == [] || columns[i].ty == NullType then fault == InvalidArgument
    else fault == AlreadyExists && exists j :: 0 <= j < i && FoldIdentifierKey(columns[j].name) == FoldIdentifierKey(columns[i].name)
  }

  ghost predicate ColumnFaulty(columns: TableSchema, i: nat)
    requires i < |columns|
  {
    exists fault :: ColumnFault(columns, i, fault)
  }

  // Validation reports the first such column.
  lemma {:induction false} ColumnErrors(columns: TableSchema, index: nat, seen: set<Text>)
    requires index <= |columns| && ValidateColumns(columns, index, seen).Err?
    requires forall key :: key in seen <==> exists j :: 0 <= j < index && FoldIdentifierKey(columns[j].name) == key
    ensures exists i :: && index <= i < |columns| && ColumnFault(columns, i, ValidateColumns(columns, index, seen).error)
                        && forall k :: index <= k < i ==> !ColumnFaulty(columns, k)
    decreases |columns| - index
  {
    hide FoldIdentifierKey;
    if !ColumnFaulty(columns, index) {
      assert !ColumnFault(columns, index, InvalidArgument) && !ColumnFault(columns, index, AlreadyExists);
      var key := FoldIdentifierKey(columns[index].name);
      ColumnErrors(columns, index + 1, seen + {key});
    } else {
      assert ColumnFault(columns, index, ValidateColumns(columns, index, seen).error);
    }
  }

  // Which error a refused CREATE TABLE reports.
  lemma CreateTableErrors(s: CatalogState, request: CreateTableRequest)
    requires CatalogInv(s) && CreateTable(s, request).1.Err?
    ensures var error := CreateTable(s, request).1.error;
            if request.name == [] || request.schema == [] then error == InvalidArgument
            else if FoldIdentifierKey(request.name) in s.tables then error == AlreadyExists
            else exists i :: && 0 <= i < |request.schema| && ColumnFault(request.schema, i, error)
                             && forall k :: 0 <= k < i ==> !ColumnFaulty(request.schema, k)
  {
    hide FoldIdentifierKey, ValidateColumns, ColumnFault, ColumnFaulty, WellFormedSchema, ListMirrorsMap, IndexValid, IndexKeysInverse;
    CreateTableExactly(s, request);
    if request.name != [] && request.schema != [] && FoldIdentifierKey(request.name) !in s.tables {
      SchemaValidatesExactly(request.schema);
      ColumnErrors(request.schema, 0, {});
    }
  }

  // Which error the other operations report.
  lemma CatalogErrors(s: CatalogState, name: Text, id: nat, root: PageId, request: CreateIndexRequest)
    requires CatalogInv(s)
    ensures var key, indexKey := FoldIdentifierKey(request.tableName), FoldIdentifierKey(request.schema.name);
            && DropTable(s, name).1 == (if FoldIdentifierKey(name) in s.tables then OkStatus else Err(NotFound))
            && (SetTableHeapRoot(s, id, root).1.Err? ==>
                  SetTableHeapRoot(s, id, root).1.error == if root == INVALID_PAGE_ID then InvalidArgument else NotFound)
            && (CreateIndex(s, request).1.Err? ==>
                  CreateIndex(s, request).1.error ==
                  if request.tableName == [] || request.schema.name == [] || request.schema.keyColumns == [] then InvalidArgument
                  else if key !in s.tables then NotFound
                  else if indexKey in TableIndexes(s, key) then AlreadyExists
                  else InvalidArgument)
  {
    hide FoldIdentifierKey, ValidateKeyColumns, WellFormedSchema, ListMirrorsMap, CatalogInv, IndexKeysInverse, ValidKeys;
    SetRootExactly(s, id, root);
    NextIndexIdIsFree(s);
    RootErrors(s, id, root);
    var key := FoldIdentifierKey(request.tableName);
    if key in s.tables {
      KeysValidateExactly(request.schema.keyColumns, |s.tables[key].schema|, {});
    }
  }

  lemma RootErrors(s: CatalogState, id: nat, root: PageId)
    requires CatalogInv(s)
    ensures SetTableHeapRoot(s, id, root).1.Err? ==>
              SetTableHeapRoot(s, id, root).1.error == if root == INVALID_PAGE_ID then InvalidArgument else NotFound
  {
    hide TableLinked, ListMirrorsMap, IndexValid, IndexKeysInverse;
  }

  // ---------------------------------------------------------------- the links are kept

  lemma EmptyCatalogIsLinked()
    ensures CatalogInv(EMPTY_CATALOG)
  {
  }

  lemma CreateTableKeepsLinks(s: CatalogState, request: CreateTableRequest)
    requires CatalogInv(s)
    ensures CatalogInv(CreateTable(s, request).0)
  {
    hide FoldIdentifierKey, ValidateColumns, Creatable, WellFormedSchema, ValidKeys;
    CreateTableExactly(s, request);
    SchemaValidatesExactly(request.schema);
    var (s1, r) := CreateTable(s, request);
    if r.Ok? {
      var key := FoldIdentifierKey(request.name);
      AddedTableKeepsLinks(s, s1, key, r.value);
    }
  }

  lemma AddedTableKeepsLinks(s: CatalogState, s1: CatalogState, key: Text, t: TableInfo)
    requires CatalogInv(s) && key !in s.tables && t.id == s.nextTableId && t.indexes == []
    requires t.name != [] && FoldIdentifierKey(t.name) == key && t.schema != [] && WellFormedSchema(t.schema)
    requires s1 == s.(nextTableId := s.nextTableId + 1, tables := s.tables[key := t], namesById := s.namesById[t.id := key])
    ensures CatalogInv(s1)
  {
    hide FoldIdentifierKey, WellFormedSchema, ValidKeys, ListMirrorsMap, IndexKeysInverse, IndexValid, TableLinked;
    var others := s1.tables.Keys - {key};
    forall k | k in others ensures s.tables[k].id in s1.namesById && s1.namesById[s.tables[k].id] == k {
      Filed(s, k);
    }
    LinksRemain(s, s1, others);
    NewTableIsLinked(s1, key);
    NothingMirrorsNothing();
    MirrorsRemain(s, s1, others);
    SameIndexMaps(s, s1);
  }

  // Tables that keep their name, id, schema and filing stay linked.
  lemma LinksRemain(s: CatalogState, s1: CatalogState, keys: set<Text>)
    requires CatalogInv(s) && s1.nextTableId >= s.nextTableId
    requires forall k :: k in keys ==>
               && k in s.tables && k in s1.tables && s1.tables[k].name == s.tables[k].name
               && s1.tables[k].id == s.tables[k].id && s1.tables[k].schema == s.tables[k].schema
               && s.tables[k].id in s1.namesById && s1.namesById[s.tables[k].id] == k
    ensures forall k :: k in keys ==> TableLinked(s1, k)
  {
    hide FoldIdentifierKey, WellFormedSchema, ListMirrorsMap, IndexKeysInverse, IndexValid;
    forall k | k in keys ensures TableLinked(s1, k) {
      assert TableLinked(s, k);
    }
  }

  // A table is filed under its id, and the id under the table's key.
  lemma Filed(s: CatalogState, key: Text)
    requires CatalogInv(s) && key in s.tables
    ensures s.tables[key].id < s.nextTableId && s.tables[key].id in s.namesById && s.namesById[s.tables[key].id] == key
  {
    hide FoldIdentifierKey, WellFormedSchema, ListMirrorsMap, IndexKeysInverse, IndexValid;
    assert TableLinked(s, key);
  }

  lemma NewTableIsLinked(s: CatalogState, key: Text)
    requires key in s.tables
    requires var t := s.tables[key];
             && t.name != [] && FoldIdentifierKey(t.name) == key && 0 < t.id < s.nextTableId
             && t.id in s.namesById && s.namesById[t.id] == key && t.schema != [] && WellFormedSchema(t.schema)
    ensures TableLinked(s, key)
  {
  }

  lemma NothingMirrorsNothing()
    ensures ListMirrorsMap([], map[])
  {
  }

  lemma SameIndexMaps(s: CatalogState, s1: CatalogState)
    requires IndexKeysInverse(s) && s1.indexes == s.indexes && s1.indexKeys == s.indexKeys
    ensures IndexKeysInverse(s1)
  {
  }

  // The tables whose index lists, ids and widths stand keep everything said about indexes.
  lemma MirrorsRemain(s: CatalogState, s1: CatalogState, keys: set<Text>)
    requires CatalogInv(s) && s1.nextIndexId >= s.nextIndexId
    requires forall k :: k in keys ==>
               && k in s.tables && k in s1.tables && TableIndexes(s1, k) == TableIndexes(s, k)
               && s1.tables[k].indexes == s.tables[k].indexes && s1.tables[k].id == s.tables[k].id
               && s1.tables[k].schema == s.tables[k].schema
    ensures forall k :: k in keys ==> ListMirrorsMap(s1.tables[k].indexes, TableIndexes(s1, k))
    ensures forall k, x :: k in keys && x in s1.tables[k].indexes ==> IndexValid(s1, s1.tables[k], x)
  {
    hide FoldIdentifierKey, WellFormedSchema, ValidKeys, ListMirrorsMap, IndexKeysInverse, TableLinked;
    forall k | k in keys ensures ListMirrorsMap(s1.tables[k].indexes, TableIndexes(s1, k)) {
      assert ListMirrorsMap(s.tables[k].indexes, TableIndexes(s, k));
    }
    forall k, x | k in keys && x in s1.tables[k].indexes ensures IndexValid(s1, s1.tables[k], x) {
      assert IndexValid(s, s.tables[k], x);
    }
  }

  lemma DropTableKeepsLinks(s: CatalogState, name: Text)
    requires CatalogInv(s)
    ensures CatalogInv(DropTable(s, name).0)
  {
    hide FoldIdentifierKey, WellFormedSchema, ValidKeys, ListMirrorsMap, IndexKeysInverse, IndexIds, TableLinked, IndexValid;
    var key := FoldIdentifierKey(name);
    if key in s.tables {
      var s1 := DropTable(s, name).0;
      Filed(s, key);
      forall k | k in s1.tables ensures s.tables[k].id in s1.namesById && s1.namesById[s.tables[k].id] == k {
        Filed(s, k);
      }
      LinksRemain(s, s1, s1.tables.Keys);
      MirrorsRemain(s, s1, s1.tables.Keys);
      DroppedIndexKeys(s, key);
    }
  }

  // Erasing the ids on a table's index list erases exactly the keys that lead to its map.
  lemma DroppedIndexKeys(s: CatalogState, key: Text)
    requires CatalogInv(s) && key in s.tables
    ensures IndexKeysInverse(EraseTable(s, key).0)
  {
    hide FoldIdentifierKey, WellFormedSchema, ValidKeys, TableLinked, IndexValid, ListMirrorsMap, IndexIds;
    var list := s.tables[key].indexes;
    forall id | id in s.indexKeys ensures id in IndexIds(list) <==> s.indexKeys[id].0 == key {
      IndexIdIsListed(s, key, id);
    }
  }

  lemma IndexIdIsListed(s: CatalogState, key: Text, id: nat)
    requires CatalogInv(s) && key in s.tables && id in s.indexKeys
    ensures id in IndexIds(s.tables[key].indexes) <==> s.indexKeys[id].0 == key
  {
    hide FoldIdentifierKey, WellFormedSchema, ValidKeys, TableLinked, IndexValid;
    var list := s.tables[key].indexes;
    assert ListMirrorsMap(list, TableIndexes(s, key));
    if id in IndexIds(list) {
      var i :| 0 <= i < |list| && list[i].id == id;
      var name := FoldIdentifierKey(list[i].name);
      assert name in TableIndexes(s, key) && s.indexes[key][name] == list[i];
    }
    if s.indexKeys[id].0 == key {
      var x := s.indexes[key][s.indexKeys[id].1];
      assert x in list && x.id == id;
    }
  }

  // Setting a root changes that one field of that one table.
  lemma SetRootExactly(s: CatalogState, id: nat, root: PageId)
    requires CatalogInv(s)
    ensures var (s1, r) := SetTableHeapRoot(s, id, root);
            && (r.Ok? <==> root != INVALID_PAGE_ID && id in s.namesById)
            && (r.Err? ==> s1 == s)
            && (r.Ok? ==> s1 == s.(tables := s.tables[s.namesById[id] := s.tables[s.namesById[id]].(heapRoot := root)]))
  {
    hide TableLinked, ListMirrorsMap, IndexValid, IndexKeysInverse;
  }

  lemma SetRootKeepsLinks(s: CatalogState, id: nat, root: PageId)
    requires CatalogInv(s)
    ensures CatalogInv(SetTableHeapRoot(s, id, root).0)
  {
    hide FoldIdentifierKey, WellFormedSchema, ValidKeys, SetTableHeapRoot, ListMirrorsMap, IndexKeysInverse, TableLinked,
         IndexValid;
    SetRootExactly(s, id, root);
    var (s1, r) := SetTableHeapRoot(s, id, root);
    if r.Ok? {
      forall k | k in s1.tables ensures s.tables[k].id in s1.namesById && s1.namesById[s.tables[k].id] == k {
        Filed(s, k);
      }
      LinksRemain(s, s1, s1.tables.Keys);
      MirrorsRemain(s, s1, s1.tables.Keys);
      SameIndexMaps(s, s1);
    }
  }

  // Key columns are distinct columns of the table.
  ghost predicate ValidKeys(ids: seq<nat>, width: nat) {
    && (forall i :: 0 <= i < |ids| ==> ids[i] < width)
    && (forall i, j :: 0 <= i < j < |ids| ==> ids[i] != ids[j])
  }

  lemma {:induction false} KeysValidateExactly(ids: seq<nat>, width: nat, seen: set<nat>)
    ensures ValidateKeyColumns(ids, width, seen).Ok? <==>
            ValidKeys(ids, width) && forall i :: 0 <= i < |ids| ==> ids[i] !in seen
    ensures ValidateKeyColumns(ids, width, seen).Err? ==> ValidateKeyColumns(ids, width, seen).error == InvalidArgument
  {
    if ids != [] {
      var rest := ids[1..];
      KeysValidateExactly(rest, width, seen + {ids[0]});
      assert forall i :: 0 < i < |ids| ==> ids[i] == rest[i - 1];
      assert forall i :: 0 <= i < |rest| ==> rest[i] == ids[i + 1];
    }
  }

  // CREATE INDEX succeeds exactly for a valid request under a free index name, and then appends
  // one index, with the next id, to the table's list and to its map.
  lemma CreateIndexExactly(s: CatalogState, request: CreateIndexRequest)
    requires CatalogInv(s)
    ensures var (s1, r) := CreateIndex(s, request);
            var key, indexKey := FoldIdentifierKey(request.tableName), FoldIdentifierKey(request.schema.name);
            && (r.Ok? <==> request.tableName != [] && request.schema.name != [] && request.schema.keyColumns != []
                           && key in s.tables && indexKey !in TableIndexes(s, key)
                           && ValidKeys(request.schema.keyColumns, |s.tables[key].schema|))
            && (r.Err? ==> s1 == s)
            && (r.Ok? ==>
                  && r.value == IndexInfo(s.nextIndexId, request.schema.name, s.tables[key].id, request.schema, INVALID_PAGE_ID)
                  && s1.tables == s.tables[key := s.tables[key].(indexes := s.tables[key].indexes + [r.value])]
                  && s1.nextTableId == s.nextTableId && s1.nextIndexId == s.nextIndexId + 1
                  && s1 == AddedIndex(s, key, indexKey, r.value))
  {
    hide FoldIdentifierKey, WellFormedSchema, ValidateKeyColumns, ListMirrorsMap, CatalogInv, ValidKeys;
    NextIndexIdIsFree(s);
    var key := FoldIdentifierKey(request.tableName);
    if key in s.tables {
      KeysValidateExactly(request.schema.keyColumns, |s.tables[key].schema|, {});
    }
  }

  lemma NextIndexIdIsFree(s: CatalogState)
    requires CatalogInv(s)
    ensures s.nextIndexId !in s.indexKeys
  {
    hide FoldIdentifierKey, WellFormedSchema, ValidKeys, ListMirrorsMap;
    forall id | id in s.indexKeys ensures id < s.nextIndexId {
      var (k, x) := s.indexKeys[id];
      assert ListMirrorsMap(s.tables[k].indexes, TableIndexes(s, k));
      MirroredIndexIsListed(s.tables[k].indexes, TableIndexes(s, k), x);
      assert IndexValid(s, s.tables[k], s.indexes[k][x]);
    }
  }

  lemma MirroredIndexIsListed(list: seq<IndexInfo>, m: map<Text, IndexInfo>, k: Text)
    requires ListMirrorsMap(list, m) && k in m
    ensures m[k] in list
  {
  }

  function AddedIndex(s: CatalogState, key: Text, indexKey: Text, index: IndexInfo): CatalogState
    requires key in s.tables
  {
    var table := s.tables[key];
    s.(nextIndexId := s.nextIndexId + 1,
       tables := s.tables[key := table.(indexes := table.indexes + [index])],
       indexes := s.indexes[key := TableIndexes(s, key)[indexKey := index]],
       indexKeys := s.indexKeys[index.id := (key, indexKey)])
  }

  lemma CreateIndexKeepsLinks(s: CatalogState, request: CreateIndexRequest)
    requires CatalogInv(s)
    ensures CatalogInv(CreateIndex(s, request).0)
  {
    hide FoldIdentifierKey, ValidKeys, CreateIndex, AddedIndex, CatalogInv, LoadIndex;
    CreateIndexExactly(s, request);
    var (s1, r) := CreateIndex(s, request);
    if r.Ok? {
      NextIndexIdIsFree(s);
      AddedIndexKeepsLinks(s, FoldIdentifierKey(request.tableName), r.value);
    }
  }

  lemma MirrorGrows(list: seq<IndexInfo>, m: map<Text, IndexInfo>, x: IndexInfo)
    requires ListMirrorsMap(list, m) && FoldIdentifierKey(x.name) !in m
    ensures ListMirrorsMap(list + [x], m[FoldIdentifierKey(x.name) := x])
  {
    hide FoldIdentifierKey;
    var grown := list + [x];
    var key := FoldIdentifierKey(x.name);
    var m1 := m[key := x];
    forall k | k in m1 ensures m1[k] in grown {
      if k == key {
        assert grown[|list|] == x;
      }
    }
  }

  lemma AddedIndexKeepsLinks(s: CatalogState, key: Text, x: IndexInfo)
    requires CatalogInv(s) && key in s.tables && FoldIdentifierKey(x.name) !in TableIndexes(s, key)
    requires x.id == s.nextIndexId && x.id !in s.indexKeys && x.tableId == s.tables[key].id
    requires x.name != [] && x.name == x.schema.name
    requires ValidKeys(x.schema.keyColumns, |s.tables[key].schema|)
    ensures CatalogInv(AddedIndex(s, key, FoldIdentifierKey(x.name), x))
  {
    hide FoldIdentifierKey, WellFormedSchema, ValidKeys, ListMirrorsMap, IndexKeysInverse;
    var s1 := AddedIndex(s, key, FoldIdentifierKey(x.name), x);
    forall k | k in s1.tables ensures TableLinked(s1, k) {
      assert TableLinked(s, k);
    }
    forall k | k in s1.tables ensures ListMirrorsMap(s1.tables[k].indexes, TableIndexes(s1, k)) {
      assert ListMirrorsMap(s.tables[k].indexes, TableIndexes(s, k));
      if k == key {
        MirrorGrows(s.tables[k].indexes, TableIndexes(s, k), x);
      }
    }
    forall k, y | k in s1.tables && y in s1.tables[k].indexes ensures IndexValid(s1, s1.tables[k], y) {
      if y in s.tables[k].indexes {
        assert IndexValid(s, s.tables[k], y);
      }
    }
    AddedIndexKey(s, key, FoldIdentifierKey(x.name), x);
  }

  lemma AddedIndexKey(s: CatalogState, key: Text, indexKey: Text, x: IndexInfo)
    requires key in s.tables && IndexKeysInverse(s) && indexKey !in TableIndexes(s, key) && x.id !in s.indexKeys
    ensures IndexKeysInverse(AddedIndex(s, key, indexKey, x))
  {
    var s1 := AddedIndex(s, key, indexKey, x);
    var mine := TableIndexes(s, key);
    forall k, n | k in s1.indexes && n in s1.indexes[k]
      ensures s1.indexes[k][n].id in s1.indexKeys && s1.indexKeys[s1.indexes[k][n].id] == (k, n)
    {
      if k == key && n == indexKey {
        assert s1.indexes[k][n] == x;
      } else {
        assert k in s.indexes && n in s.indexes[k] && s1.indexes[k][n] == s.indexes[k][n];
      }
    }
    forall id | id in s1.indexKeys
      ensures var (k, n) := s1.indexKeys[id]; k in s1.indexes && n in s1.indexes[k] && s1.indexes[k][n].id == id
    {
      if id != x.id {
        var (k, n) := s.indexKeys[id];
        assert k in s.indexes && n in s.indexes[k] && s.indexes[k][n].id == id;
      }
    }
  }

  // Dropping a table just created restores every map.
  lemma DropUndoesCreate(s: CatalogState, request: CreateTableRequest)
    requires CatalogInv(s) && CreateTable(s, request).1.Ok?
    ensures var (s1, r) := DropTable(CreateTable(s, request).0, request.name);
            r.Ok? && s1 == s.(nextTableId := s.nextTableId + 1)
  {
    hide FoldIdentifierKey, ValidateColumns, WellFormedSchema, ListMirrorsMap, IndexValid, IndexKeysInverse;
    var key := FoldIdentifierKey(request.name);
    var created := CreateTable(s, request).0;
    var s1 := DropTable(created, request.name).0;
    assert created.tables == s.tables[key := created.tables[key]] && created.tables[key].indexes == [];
    forall id | id in s.namesById ensures id < s.nextTableId {
      Filed(s, s.namesById[id]);
    }
    assert s1.tables == s.tables && s1.namesById == s.namesById;
    assert s1.indexes == s.indexes && s1.indexKeys == s.indexKeys;
  }

  // Dropping removes the one table and its indexes, and leaves the others and the counters alone.
  lemma DropTableExactly(s: CatalogState, name: Text)
    requires CatalogInv(s)
    ensures var (s1, r) := DropTable(s, name);
            var key := FoldIdentifierKey(name);
            && (r.Ok? <==> key in s.tables) && (r.Err? ==> s1 == s)
            && s1.tables == s.tables - {key} && s1.indexes == s.indexes - {key}
            && s1.nextTableId == s.nextTableId && s1.nextIndexId == s.nextIndexId
  {
    hide FoldIdentifierKey, ListMirrorsMap, IndexValid, IndexKeysInverse, TableLinked;
    var key := FoldIdentifierKey(name);
    if key !in s.tables {
      assert s.tables - {key} == s.tables && s.indexes - {key} == s.indexes;
    }
  }

  // Looking a table up by name finds exactly the listed table whose name is the same up to case.
  lemma TableLookupIsByName(s: CatalogState, name: Text, t: TableInfo)
    requires CatalogInv(s)
    ensures GetTable(s, name) == Ok(t) <==>
            exists key :: key in s.tables && s.tables[key] == t && FoldIdentifierKey(t.name) == FoldIdentifierKey(name)
    ensures GetTable(s, name).Err? ==> GetTable(s, name).error == NotFound
  {
    hide FoldIdentifierKey, WellFormedSchema, ListMirrorsMap, IndexValid, IndexKeysInverse;
    forall key | key in s.tables ensures FoldIdentifierKey(s.tables[key].name) == key {
      assert TableLinked(s, key);
    }
  }

  // Looking an index up by name finds exactly the member of the table's list with that name.
  lemma IndexLookupIsListLookup(s: CatalogState, table: Text, name: Text, x: IndexInfo)
    requires CatalogInv(s)
    ensures GetIndex(s, table, name) == Ok(x) <==>
            && FoldIdentifierKey(table) in s.tables && x in s.tables[FoldIdentifierKey(table)].indexes
            && FoldIdentifierKey(x.name) == FoldIdentifierKey(name)
  {
    hide FoldIdentifierKey, WellFormedSchema, ValidKeys, IndexValid, IndexKeysInverse, TableLinked;
    var key := FoldIdentifierKey(table);
    if key in s.tables {
      assert ListMirrorsMap(s.tables[key].indexes, TableIndexes(s, key));
    }
  }

  // ---------------------------------------------------------------- every run

  datatype CatalogCall =
    | CallCreateTable(request: CreateTableRequest)
    | CallDropTable(name: Text)
    | CallSetRoot(id: nat, root: PageId)
    | CallCreateIndex(index: CreateIndexRequest)

  function Step(s: CatalogState, call: CatalogCall): CatalogState {
    match call
    case CallCreateTable(request) => CreateTable(s, request).0
    case CallDropTable(name) => DropTable(s, name).0
    case CallSetRoot(id, root) => SetTableHeapRoot(s, id, root).0
    case CallCreateIndex(request) => CreateIndex(s, request).0
  }

  function RunCalls(s: CatalogState, calls: seq<CatalogCall>): CatalogState
    decreases |calls|
  {
    if calls == [] then s else RunCalls(Step(s, calls[0]), calls[1..])
  }

  // Ids handed out by the successful CREATE TABLE calls, in order.
  function IssuedIds(s: CatalogState, calls: seq<CatalogCall>): seq<nat>
    decreases |calls|
  {
    if calls == [] then []
    else
      var rest := IssuedIds(Step(s, calls[0]), calls[1..]);
      if calls[0].CallCreateTable? && CreateTable(s, calls[0].request).1.Ok?
      then [CreateTable(s, calls[0].request).1.value.id] + rest
      else rest
  }

  lemma StepKeepsLinks(s: CatalogState, call: CatalogCall)
    requires CatalogInv(s)
    ensures CatalogInv(Step(s, call)) && Step(s, call).nextTableId >= s.nextTableId
    ensures call.CallCreateTable? && CreateTable(s, call.request).1.Ok? ==>
              CreateTable(s, call.request).1.value.id == s.nextTableId && Step(s, call).nextTableId == s.nextTableId + 1
  {
    hide CatalogInv, FoldIdentifierKey, ValidateColumns, ValidateKeyColumns, Creatable;
    match call
    case CallCreateTable(request) => CreateTableKeepsLinks(s, request); CreateTableExactly(s, request);
    case CallDropTable(name) => DropTableKeepsLinks(s, name);
    case CallSetRoot(id, root) => SetRootKeepsLinks(s, id, root);
    case CallCreateIndex(request) => CreateIndexKeepsLinks(s, request);
  }

  // In every reachable catalog all links hold.
  lemma {:induction false} ReachableCatalogsAreLinked(s: CatalogState, calls: seq<CatalogCall>)
    requires CatalogInv(s)
    ensures CatalogInv(RunCalls(s, calls))
    decreases |calls|
  {
    hide CatalogInv, Step;
    if calls != [] {
      StepKeepsLinks(s, calls[0]);
      ReachableCatalogsAreLinked(Step(s, calls[0]), calls[1..]);
    }
  }

  predicate IncreasingFrom(ids: seq<nat>, low: nat) {
    && (forall i :: 0 <= i < |ids| ==> ids[i] >= low)
    && (forall i, j :: 0 <= i < j < |ids| ==> ids[i] < ids[j])
  }

  // Table ids increase strictly over every run: a dropped table's id never comes back.
  lemma {:induction false} TableIdsAreNeverReused(s: CatalogState, calls: seq<CatalogCall>)
    requires CatalogInv(s)
    ensures IncreasingFrom(IssuedIds(s, calls), s.nextTableId)
    decreases |calls|
  {
    hide CatalogInv, Step, CreateTable;
    if calls != [] {
      var s1 := Step(s, calls[0]);
      StepKeepsLinks(s, calls[0]);
      TableIdsAreNeverReused(s1, calls[1..]);
      var rest := IssuedIds(s1, calls[1..]);
      if calls[0].CallCreateTable? && CreateTable(s, calls[0].request).1.Ok? {
        var id := CreateTable(s, calls[0].request).1.value.id;
        assert IssuedIds(s, calls) == [id] + rest;
      } else {
        assert IssuedIds(s, calls) == rest;
      }
    }
  }

  // The unvalidated UpdateTable keeps the links exactly when the table it is given has a valid
  // schema, and an index list that mirrors the stored map and fits that schema.
  lemma RawUpdateKeepsLinksExactly(s: CatalogState, t: TableInfo)
    requires CatalogInv(s) && t.id in s.namesById
    ensures UpdateTable(s, t).1.Ok?
    ensures CatalogInv(UpdateTable(s, t).0) <==>
            && t.schema != [] && WellFormedSchema(t.schema)
            && ListMirrorsMap(t.indexes, TableIndexes(s, s.namesById[t.id]))
            && forall x :: x in t.indexes ==> IndexValid(s, t, x)
  {
    hide FoldIdentifierKey, WellFormedSchema, ValidKeys, TableLinked, ListMirrorsMap, IndexValid, IndexKeysInverse;
    var key := s.namesById[t.id];
    var s1 := UpdateTable(s, t).0;
    var others := s.tables.Keys - {key};
    UpdatedEntry(s, t);
    forall k | k in others ensures s.tables[k].id in s1.namesById && s1.namesById[s.tables[k].id] == k {
      Filed(s, k);
    }
    LinksRemain(s, s1, others);
    MirrorsRemain(s, s1, others);
    SameIndexMaps(s, s1);
    assert s1.tables.Keys == others + {key};
  }

  // What the raw update does to the one table, field by field.
  lemma UpdatedEntry(s: CatalogState, t: TableInfo)
    requires CatalogInv(s) && t.id in s.namesById
    ensures var (s1, r), key := UpdateTable(s, t), s.namesById[t.id];
            && r.Ok? && key in s.tables && s1 == s.(tables := s.tables[key := t.(name := s.tables[key].name)])
            && (TableLinked(s1, key) <==> t.schema != [] && WellFormedSchema(t.schema))
            && (forall x :: IndexValid(s1, s1.tables[key], x) <==> IndexValid(s, t, x))
  {
    hide FoldIdentifierKey, WellFormedSchema, ValidKeys, ListMirrorsMap, IndexKeysInverse;
    assert TableLinked(s, s.namesById[t.id]);
  }

  // So an index added to a table's list alone, and missing from the maps, breaks them.
  lemma RawUpdateBreaksTheMirror(s: CatalogState, key: Text, x: IndexInfo)
    requires CatalogInv(s) && key in s.tables && FoldIdentifierKey(x.name) !in TableIndexes(s, key)
    ensures var t := s.tables[key];
            var (s1, r) := UpdateTable(s, t.(indexes := t.indexes + [x]));
            r.Ok? && !CatalogInv(s1)
  {
    hide CatalogInv, FoldIdentifierKey, WellFormedSchema, IndexValid, UpdateTable;
    var t := s.tables[key];
    Filed(s, key);
    RawUpdateKeepsLinksExactly(s, t.(indexes := t.indexes + [x]));
    assert (t.indexes + [x])[|t.indexes|] == x;
  }

  // ---------------------------------------------------------------- the code

  class HostedCatalog {
    var nextTableId: nat
    var nextIndexId: nat
    var tablesByName: map<Text, TableInfo>
    var tableNamesById: map<nat, Text>
    var indexKeysById: map<nat, (Text, Text)>
    var indexesByTableName: map<Text, map<Text, IndexInfo>>

    constructor ()
      ensures State() == EMPTY_CATALOG
    {
      nextTableId := 1;
      nextIndexId := 1;
      tablesByName := map[];
      tableNamesById := map[];
      indexKeysById := map[];
      indexesByTableName := map[];
    }

    function State(): CatalogState
      reads this
    {
      CatalogState(nextTableId, nextIndexId, tablesByName, tableNamesById, indexKeysById, indexesByTableName)
    }

    method AllocateTableId() returns (id: nat)
      modifies this
      ensures id == old(nextTableId) && State() == old(State()).(nextTableId := id + 1)
    {
      id := nextTableId;
      nextTableId := nextTableId + 1;
    }

    method AllocateIndexId() returns (id: nat)
      modifies this
      ensures id == old(nextIndexId) && State() == old(State()).(nextIndexId := id + 1)
    {
      id := nextIndexId;
      nextIndexId := nextIndexId + 1;
    }

    method Store(key: Text, table: TableInfo) returns (r: Result<TableInfo>)
      modifies this
      ensures (State(), r) == StoreTable(old(State()), key, table)
    {
      if key in tablesByName { return Err(AlreadyExists); }
      if table.id in tableNamesById { return Err(AlreadyExists); }
      tableNamesById := tableNamesById[table.id := key];
      tablesByName := tablesByName[key := table];
      return Ok(table);
    }

    method Erase(key: Text) returns (r: Status)
      modifies this
      ensures (State(), r) == EraseTable(old(State()), key)
    {
      if key !in tablesByName { return Err(NotFound); }
      var table := tablesByName[key];
      tableNamesById := tableNamesById - {table.id};
      var list := table.indexes;
      for i := 0 to |list|
        invariant State() == old(State()).(namesById := old(tableNamesById) - {table.id},
                                           indexKeys := old(indexKeysById) - IndexIds(list[..i]))
      {
        assert IndexIds(list[..i + 1]) == IndexIds(list[..i]) + {list[i].id} by { IndexIdsStep(list, i); }
        indexKeysById := indexKeysById - {list[i].id};
      }
      assert list[..|list|] == list;
      indexesByTableName := indexesByTableName - {key};
      tablesByName := tablesByName - {key};
      return OkStatus;
    }

    method Update(table: TableInfo) returns (r: Status)
      modifies this
      ensures (State(), r) == UpdateTable(old(State()), table)
    {
      if table.id !in tableNamesById { return Err(NotFound); }
      var key := tableNamesById[table.id];
      if key !in tablesByName { return Err(Corruption); }
      tablesByName := tablesByName[key := table.(name := tablesByName[key].name)];
      return OkStatus;
    }

    // All tables in the order of their ids, whatever order the hash map yields them in.
    method LoadTables() returns (list: seq<TableInfo>)
      ensures |list| == |tablesByName|
      ensures forall key :: key in tablesByName ==> tablesByName[key] in list
      ensures forall t :: t in list ==> t in tablesByName.Values
      ensures SortedById(list)
    {
      list := [];
      var keys := tablesByName.Keys;
      ghost var seen: set<Text> := {};
      while keys != {}
        invariant seen + keys == tablesByName.Keys && seen !! keys
        invariant |list| == |seen| && SortedById(list)
        invariant forall key :: key in seen ==> tablesByName[key] in list
        invariant forall t :: t in list ==> t in tablesByName.Values
        decreases |keys|
      {
        var key :| key in keys;
        InsertKeepsSorted(list, tablesByName[key]);
        list := InsertById(list, tablesByName[key]);
        seen := seen + {key};
        keys := keys - {key};
      }
      assert seen == tablesByName.Keys;
    }

    method PutIndex(key: Text, indexKey: Text, index: IndexInfo) returns (r: Result<IndexInfo>)
      modifies this
      ensures (State(), r) == StoreIndex(old(State()), key, indexKey, index)
    {
      if key !in tablesByName { return Err(NotFound); }
      if index.tableId != tablesByName[key].id { return Err(InvalidArgument); }
      if index.id in indexKeysById { return Err(AlreadyExists); }
      var mine: map<Text, IndexInfo> := if key in indexesByTableName then indexesByTableName[key] else map[];
      if indexKey in mine { return Err(AlreadyExists); }
      var table := tablesByName[key];
      tablesByName := tablesByName[key := table.(indexes := table.indexes + [index])];
      indexesByTableName := indexesByTableName[key := mine[indexKey := index]];
      indexKeysById := indexKeysById[index.id := (key, indexKey)];
      return Ok(index);
    }
  }

  lemma IndexIdsStep(list: seq<IndexInfo>, i: nat)
    requires i < |list|
    ensures IndexIds(list[..i + 1]) == IndexIds(list[..i]) + {list[i].id}
  {
    var front := list[..i + 1];
    forall id | id in IndexIds(list[..i]) + {list[i].id} ensures id in IndexIds(front) {
      if id != list[i].id {
        var j :| 0 <= j < i && list[..i][j].id == id;
        assert front[j].id == id;
      } else {
        assert front[i].id == id;
      }
    }
    forall id | id in IndexIds(front) ensures id in IndexIds(list[..i]) + {list[i].id} {
      var j :| 0 <= j <= i && front[j].id == id;
      assert j < i ==> list[..i][j].id == id;
    }
  }

  predicate SortedById(list: seq<TableInfo>) {
    forall i, j :: 0 <= i < j < |list| ==> list[i].id <= list[j].id
  }

  // The insertion step of a sort by id.
  function InsertById(list: seq<TableInfo>, t: TableInfo): seq<TableInfo> {
    if list == [] || t.id < list[0].id then [t] + list else [list[0]] + InsertById(list[1..], t)
  }

  lemma {:induction false} InsertKeepsSorted(list: seq<TableInfo>, t: TableInfo)
    requires SortedById(list)
    ensures var r := InsertById(list, t);
            SortedById(r) && |r| == |list| + 1 && forall x :: x in r <==> x == t || x in list
  {
    if list != [] && t.id >= list[0].id {
      InsertKeepsSorted(list[1..], t);
      var rest := InsertById(list[1..], t);
      assert forall x :: x in list <==> x == list[0] || x in list[1..];
      forall i | 0 <= i < |rest| ensures list[0].id <= rest[i].id {
        assert rest[i] in rest;
      }
    }
  }

  class InMemoryCatalog {
    const hosted: HostedCatalog

    constructor ()
      ensures State() == EMPTY_CATALOG && fresh(hosted)
    {
      hosted := new HostedCatalog();
    }

    function State(): CatalogState
      reads hosted
    {
      hosted.State()
    }

    method Create(request: CreateTableRequest) returns (r: Result<TableInfo>)
      modifies hosted
      ensures (State(), r) == CreateTable(old(State()), request)
    {
      hide FoldIdentifierKey, Appended;
      if request.name == [] || request.schema == [] { return Err(InvalidArgument); }
      var key := FoldIdentifierKey(request.name);
      if key in hosted.tablesByName { return Err(AlreadyExists); }

      var schema: TableSchema := [];
      var names: set<Text> := {};
      var columns := request.schema;
      for index := 0 to |columns|
        invariant ValidateColumns(columns, 0, {}) == Appended(schema, ValidateColumns(columns, index, names))
        invariant State() == old(State())
      {
        if index > UINT32_MAX { return Err(InvalidArgument); }
        var column := columns[index];
        if column.name == [] || column.ty == NullType { return Err(InvalidArgument); }
        var columnKey := FoldIdentifierKey(column.name);
        if columnKey in names { return Err(AlreadyExists); }
        AppendedStep(schema, [column.(id := index)], ValidateColumns(columns, index + 1, names + {columnKey}));
        names := names + {columnKey};
        schema := schema + [column.(id := index)];
      }

      var id := hosted.AllocateTableId();
      r := hosted.Store(key, TableInfo(id, request.name, schema, INVALID_PAGE_ID, []));
    }

    method Drop(name: Text) returns (r: Status)
      modifies hosted
      ensures (State(), r) == DropTable(old(State()), name)
    {
      r := hosted.Erase(FoldIdentifierKey(name));
    }

    method Get(name: Text) returns (r: Result<TableInfo>)
      ensures r == GetTable(State(), name)
    {
      r := LoadTable(hosted.State(), FoldIdentifierKey(name));
    }

    method SetRoot(id: nat, root: PageId) returns (r: Status)
      modifies hosted
      ensures (State(), r) == SetTableHeapRoot(old(State()), id, root)
    {
      if root == INVALID_PAGE_ID { return Err(InvalidArgument); }
      var table := LoadTableById(hosted.State(), id);
      if table.Err? { return Err(table.error); }
      r := hosted.Update(table.value.(heapRoot := root));
    }

    method AddIndex(request: CreateIndexRequest) returns (r: Result<IndexInfo>)
      modifies hosted
      ensures (State(), r) == CreateIndex(old(State()), request)
    {
      hide FoldIdentifierKey;
      if request.tableName == [] || request.schema.name == [] || request.schema.keyColumns == [] {
        return Err(InvalidArgument);
      }
      var key := FoldIdentifierKey(request.tableName);
      if key !in hosted.tablesByName { return Err(NotFound); }
      var table := hosted.tablesByName[key];
      var indexKey := FoldIdentifierKey(request.schema.name);
      if LoadIndex(hosted.State(), key, indexKey).Ok? { return Err(AlreadyExists); }

      var ids := request.schema.keyColumns;
      var seen: set<nat> := {};
      assert ids[0..] == ids;
      for i := 0 to |ids|
        invariant ValidateKeyColumns(ids, |table.schema|, {}) == ValidateKeyColumns(ids[i..], |table.schema|, seen)
        invariant State() == old(State())
      {
        assert ids[i..][0] == ids[i] && ids[i..][1..] == ids[i + 1..];
        if ids[i] >= |table.schema| { return Err(InvalidArgument); }
        if ids[i] in seen { return Err(InvalidArgument); }
        seen := seen + {ids[i]};
      }

      var id := hosted.AllocateIndexId();
      r := hosted.PutIndex(key, indexKey, IndexInfo(id, request.schema.name, table.id, request.schema, INVALID_PAGE_ID));
    }
  }
}
