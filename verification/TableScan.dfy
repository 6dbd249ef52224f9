/**
  The sequential scan of default_executor.cpp over one heap: cursor calls until the end, each
  record decoded. What a table holds is the bag of its decoded records, and this module proves
  that the scan lists that bag, and how one insertion changes it.
 */
module TableScan {
  import opened Common
  import opened ByteIo
  import opened SlottedPage
  import opened Heap
  import ScanHistory
  import opened TupleCodec

  // ---------------------------------------------------------------- the loop as a function

  // A record was returned, so the cursor moved: the measure of the scan loop.
  lemma {:induction false} NextAdvances(h: HeapState, pos: CursorPos)
    requires NextRecord(h, pos).1.Ok?
    ensures var next := NextRecord(h, pos).0;
            && pos.page < |h.pages| && next.page < |h.pages|
            && (next.page > pos.page || (next.page == pos.page && SlotsLeft(h, next) < SlotsLeft(h, pos)))
    decreases |h.pages| - pos.page, SlotsLeft(h, pos)
  {
    hide ReadRecord, CountedSlots;
    if pos.page < |h.pages| {
      if SlotsLeft(h, pos) > 0 {
        var next := pos.(slot := pos.slot + 1);
        if ReadRecord(h.pages[pos.page], pos.slot) == Err(NotFound) {
          NextAdvances(h, next);
        }
      } else {
        NextAdvances(h, CursorPos(pos.page + 1, 0));
      }
    }
  }

  // Rows from the cursor position on. Only NotFound ends the scan; other errors fail it.
  function ScanFrom(h: HeapState, schema: TableSchema, pos: CursorPos): Result<seq<Row>>
    decreases |h.pages| - pos.page, SlotsLeft(h, pos)
  {
    var (next, record) := NextRecord(h, pos);
    if record == Err(NotFound) then Ok([])
    else if record.Err? then Err(record.error)
    else
      NextAdvances(h, pos);
      var row :- DecodeRecord(schema, record.value.bytes);
      var rest :- ScanFrom(h, schema, next);
      Ok([row] + rest)
  }

  function ScanHeap(h: HeapState, schema: TableSchema): Result<seq<Row>> {
    ScanFrom(h, schema, SCAN_START)
  }

  method ScanRows(heap: PageHeapTable, schema: TableSchema) returns (r: Result<seq<Row>>)
    requires heap.Valid()
    ensures r == ScanHeap(heap.State(), schema)
  {
    hide NextRecord, DecodeRecord, Appended, SlotsLeft;
    ghost var h := heap.State();
    var cursor := new HeapCursor(heap);
    var rows: seq<Row> := [];
    while true
      invariant cursor.heap == heap && heap.Valid() && heap.State() == h && fresh(cursor)
      invariant ScanHeap(h, schema) == Appended(rows, ScanFrom(h, schema, cursor.Pos()))
      decreases |h.pages| - cursor.pageIndex, SlotsLeft(h, cursor.Pos())
    {
      ghost var pos := cursor.Pos();
      var record := cursor.Next();
      if record == Err(NotFound) {
        return Ok(rows);
      }
      if record.Err? {
        return Err(record.error);
      }
      NextAdvances(h, pos);
      var row := Decode(schema, record.value.bytes);
      if row.Err? {
        return Err(row.error);
      }
      AppendedStep(rows, [row.value], ScanFrom(h, schema, cursor.Pos()));
      rows := rows + [row.value];
    }
  }

  // ---------------------------------------------------------------- the records a scan visits

  ghost function Views(h: HeapState, pos: CursorPos): seq<RecordView>
    decreases |h.pages| - pos.page, SlotsLeft(h, pos)
  {
    var (next, record) := NextRecord(h, pos);
    if record.Err? then []
    else
      NextAdvances(h, pos);
      [record.value] + Views(h, next)
  }

  // Exactly the live records the cursor has not passed, each once, with their bytes.
  ghost predicate Lists(h: HeapState, pos: CursorPos, views: seq<RecordView>) {
    && (forall v :: v in views ==> v.id in HeapContents(h) && HeapContents(h)[v.id] == v.bytes && !ScanHistory.Passed(h.root, v.id, pos))
    && (forall id :: id in HeapContents(h) && !ScanHistory.Passed(h.root, id, pos) ==> RecordView(id, HeapContents(h)[id]) in views)
    && (forall i, j :: 0 <= i < j < |views| ==> views[i].id != views[j].id)
  }

  lemma ListsCons(h: HeapState, pos: CursorPos, next: CursorPos, first: RecordView, rest: seq<RecordView>)
    requires Lists(h, next, rest)
    requires forall id :: ScanHistory.Passed(h.root, id, pos) ==> ScanHistory.Passed(h.root, id, next)
    requires first.id in HeapContents(h) && HeapContents(h)[first.id] == first.bytes
    requires !ScanHistory.Passed(h.root, first.id, pos) && ScanHistory.Passed(h.root, first.id, next)
    requires forall id :: id in HeapContents(h) && ScanHistory.Passed(h.root, id, next) ==>
               ScanHistory.Passed(h.root, id, pos) || id == first.id
    ensures Lists(h, pos, [first] + rest)
  {
    hide HeapContents, ScanHistory.Passed;
    var views := [first] + rest;
    forall v | v in views
      ensures v.id in HeapContents(h) && HeapContents(h)[v.id] == v.bytes && !ScanHistory.Passed(h.root, v.id, pos)
    {
      assert v == first || v in rest;
    }
    forall id | id in HeapContents(h) && !ScanHistory.Passed(h.root, id, pos)
      ensures RecordView(id, HeapContents(h)[id]) in views
    {
      if id == first.id {
        assert views[0] == RecordView(id, HeapContents(h)[id]);
      } else {
        assert RecordView(id, HeapContents(h)[id]) in rest;
      }
    }
    forall i, j | 0 <= i < j < |views| ensures views[i].id != views[j].id {
      assert views[j] == rest[j - 1] && rest[j - 1] in rest;
    }
  }

  lemma {:induction false} ViewsListTheRest(h: HeapState, pos: CursorPos)
    requires HeapInv(h)
    ensures Lists(h, pos, Views(h, pos))
    decreases |h.pages| - pos.page, SlotsLeft(h, pos)
  {
    hide HeapInv, HeapContents, NextRecord, ScanHistory.Passed;
    ScanHistory.NextPassesOneRecord(h, pos);
    var (next, record) := NextRecord(h, pos);
    if record.Ok? {
      NextAdvances(h, pos);
      ViewsListTheRest(h, next);
      ListsCons(h, pos, next, record.value, Views(h, next));
    }
  }

  // ---------------------------------------------------------------- decoding what was visited

  // Every live record is a record of the schema.
  ghost predicate Decodes(h: HeapState, schema: TableSchema) {
    forall id :: id in HeapContents(h) ==> DecodeRecord(schema, HeapContents(h)[id]).Ok?
  }

  ghost predicate ViewsDecode(schema: TableSchema, views: seq<RecordView>) {
    forall v :: v in views ==> DecodeRecord(schema, v.bytes).Ok?
  }

  ghost function RowsOf(schema: TableSchema, views: seq<RecordView>): (rows: seq<Row>)
    requires ViewsDecode(schema, views)
    ensures |rows| == |views|
    ensures forall i :: 0 <= i < |views| ==> rows[i] == DecodeRecord(schema, views[i].bytes).value
  {
    seq(|views|, i requires 0 <= i < |views| => DecodeRecord(schema, views[i].bytes).value)
  }

  lemma {:induction false} ScanDecodesViews(h: HeapState, schema: TableSchema, pos: CursorPos)
    requires HeapInv(h) && ViewsDecode(schema, Views(h, pos))
    ensures ScanFrom(h, schema, pos) == Ok(RowsOf(schema, Views(h, pos)))
    decreases |h.pages| - pos.page, SlotsLeft(h, pos)
  {
    hide HeapInv, HeapContents, NextRecord, ScanHistory.Passed, DecodeRecord;
    ScanHistory.NextPassesOneRecord(h, pos);
    var (next, record) := NextRecord(h, pos);
    var views := Views(h, pos);
    if record.Ok? {
      NextAdvances(h, pos);
      var rest := Views(h, next);
      assert views[0] == record.value && forall v :: v in rest ==> v in views;
      ScanDecodesViews(h, schema, next);
      assert RowsOf(schema, views) == [DecodeRecord(schema, record.value.bytes).value] + RowsOf(schema, rest);
    }
  }

  // ---------------------------------------------------------------- the bag of a table

  // What the table holds, order forgotten.
  ghost function Bag(h: HeapState, schema: TableSchema): multiset<Row> {
    var rows := ScanHeap(h, schema);
    if rows.Ok? then multiset(rows.value) else multiset{}
  }

  ghost function ViewSet(m: map<RecordId, Bytes>): (vs: set<RecordView>)
    ensures forall v :: v in vs <==> v.id in m && m[v.id] == v.bytes
  {
    set id | id in m :: RecordView(id, m[id])
  }

  lemma {:induction false} DistinctBag(views: seq<RecordView>, vs: set<RecordView>)
    requires forall i, j :: 0 <= i < j < |views| ==> views[i] != views[j]
    requires forall v :: v in vs <==> v in views
    ensures multiset(views) == multiset(vs)
  {
    if views == [] {
      assert vs == {};
    } else {
      var rest := views[1..];
      assert views[0] !in rest;
      assert views == [views[0]] + rest;
      DistinctBag(rest, vs - {views[0]});
      assert vs == (vs - {views[0]}) + {views[0]};
    }
  }

  // The scan visits the bag of (id, bytes) pairs of the heap's contents.
  lemma ViewsBag(h: HeapState)
    requires HeapInv(h)
    ensures multiset(Views(h, SCAN_START)) == multiset(ViewSet(HeapContents(h)))
    ensures forall v :: v in Views(h, SCAN_START) <==> v in ViewSet(HeapContents(h))
  {
    hide HeapInv, HeapContents, ScanHistory.Passed;
    var views := Views(h, SCAN_START);
    ViewsListTheRest(h, SCAN_START);
    forall id | id in HeapContents(h) ensures RecordView(id, HeapContents(h)[id]) in views {
      ScanHistory.NotPassedAtStart(h, id);
    }
    DistinctBag(views, ViewSet(HeapContents(h)));
  }

  lemma ScanSucceeds(h: HeapState, schema: TableSchema)
    requires HeapInv(h) && Decodes(h, schema)
    ensures ViewsDecode(schema, Views(h, SCAN_START))
    ensures ScanHeap(h, schema) == Ok(RowsOf(schema, Views(h, SCAN_START)))
  {
    hide HeapInv, HeapContents, DecodeRecord;
    ViewsBag(h);
    ScanDecodesViews(h, schema, SCAN_START);
  }

  function Without<T>(s: seq<T>, k: nat): seq<T>
    requires k < |s|
  {
    s[..k] + s[k + 1..]
  }

  lemma WithoutBag<T>(s: seq<T>, k: nat)
    requires k < |s|
    ensures multiset(s) == multiset(Without(s, k)) + multiset{s[k]}
    ensures multiset(Without(s, k)) == multiset(s) - multiset{s[k]}
    ensures forall x :: x in Without(s, k) ==> x in s
  {
    assert s == s[..k] + [s[k]] + s[k + 1..];
  }

  lemma WithoutShorter<T>(s: seq<T>, k: nat)
    requires k < |s|
    ensures |Without(s, k)| == |s| - 1
  {
  }

  lemma RowsWithout(schema: TableSchema, views: seq<RecordView>, k: nat)
    requires ViewsDecode(schema, views) && k < |views|
    ensures ViewsDecode(schema, Without(views, k))
    ensures multiset(RowsOf(schema, views)) ==
            multiset(RowsOf(schema, Without(views, k))) + multiset{DecodeRecord(schema, views[k].bytes).value}
  {
    hide DecodeRecord;
    WithoutBag(views, k);
    var rows := RowsOf(schema, views);
    WithoutBag(rows, k);
    assert RowsOf(schema, Without(views, k)) == Without(rows, k);
  }

  // Decoding two listings of the same bag gives the same bag.
  lemma {:induction false} RowsFollowViews(schema: TableSchema, a: seq<RecordView>, b: seq<RecordView>)
    requires ViewsDecode(schema, a) && ViewsDecode(schema, b) && multiset(a) == multiset(b)
    ensures multiset(RowsOf(schema, a)) == multiset(RowsOf(schema, b))
    decreases |a|
  {
    hide DecodeRecord, Without, RowsOf, ViewsDecode;
    if a == [] {
      SameLength(a, b);
      assert b == [];
    } else {
      assert a[0] in multiset(b);
      var k :| 0 <= k < |b| && b[k] == a[0];
      WithoutBag(a, 0);
      WithoutBag(b, k);
      assert |Without(a, 0)| < |a| by { WithoutShorter(a, 0); }
      RowsWithout(schema, a, 0);
      RowsWithout(schema, b, k);
      RowsFollowViews(schema, Without(a, 0), Without(b, k));
    }
  }

  lemma SameLength(a: seq<RecordView>, b: seq<RecordView>)
    requires multiset(a) == multiset(b)
    ensures |a| == |b|
  {
    assert |multiset(a)| == |a| && |multiset(b)| == |b|;
  }

  lemma EmptyBag(root: PageId, pageSize: nat, schema: TableSchema)
    ensures Bag(EmptyHeap(root, pageSize), schema) == multiset{} && Decodes(EmptyHeap(root, pageSize), schema)
    ensures ScanHeap(EmptyHeap(root, pageSize), schema) == Ok([])
  {
    EmptyHeapIsSound(root, pageSize);
    assert NextRecord(EmptyHeap(root, pageSize), SCAN_START).1 == Err(NotFound);
  }

  lemma OneMoreView(m: map<RecordId, Bytes>, id: RecordId, record: Bytes)
    requires id !in m
    ensures multiset(ViewSet(m[id := record])) == multiset(ViewSet(m)) + multiset{RecordView(id, record)}
  {
    var v := RecordView(id, record);
    assert ViewSet(m[id := record]) == ViewSet(m) + {v} && v !in ViewSet(m);
  }

  lemma OneMoreRow(schema: TableSchema, views: seq<RecordView>, v: RecordView)
    requires ViewsDecode(schema, views) && DecodeRecord(schema, v.bytes).Ok?
    ensures ViewsDecode(schema, views + [v])
    ensures RowsOf(schema, views + [v]) == RowsOf(schema, views) + [DecodeRecord(schema, v.bytes).value]
  {
    hide DecodeRecord;
  }

  // Adding one record under a new id adds its row to the bag, wherever first fit put it.
  lemma InsertAddsOneRow(h: HeapState, schema: TableSchema, record: Bytes, row: Row)
    requires HeapInv(h) && Decodes(h, schema) && DecodeRecord(schema, record) == Ok(row)
    requires HeapInsert(h, record).1.Ok?
    ensures var h1 := HeapInsert(h, record).0;
            HeapInv(h1) && Decodes(h1, schema) && Bag(h1, schema) == Bag(h, schema) + multiset{row}
  {
    hide HeapInv, HeapContents, DecodeRecord, HeapInsert, ScanHeap, Views, ViewSet, RowsOf, ViewsDecode;
    var (h1, r) := HeapInsert(h, record);
    InsertRefinesMap(h, record);
    ScanSucceeds(h, schema);
    ScanSucceeds(h1, schema);
    ViewsBag(h);
    ViewsBag(h1);
    OneMoreView(HeapContents(h), r.value, record);
    var v := RecordView(r.value, record);
    var before, after := Views(h, SCAN_START), Views(h1, SCAN_START);
    OneMoreRow(schema, before, v);
    assert multiset(before + [v]) == multiset(before) + multiset{v};
    RowsFollowViews(schema, after, before + [v]);
  }

  // Every scanned row conforms to the schema.
  lemma ScannedRowsConform(h: HeapState, schema: TableSchema)
    requires HeapInv(h) && Decodes(h, schema)
    ensures ScanHeap(h, schema).Ok?
    ensures forall row :: row in ScanHeap(h, schema).value ==> Conforms(schema, row)
  {
    hide HeapInv, HeapContents, DecodeRecord, Conforms, Views;
    ScanSucceeds(h, schema);
    var views := Views(h, SCAN_START);
    forall row | row in ScanHeap(h, schema).value ensures Conforms(schema, row) {
      var i :| 0 <= i < |views| && row == DecodeRecord(schema, views[i].bytes).value;
      DecodedRowsConform(schema, views[i].bytes);
    }
  }
}
