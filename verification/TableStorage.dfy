/**
  in_memory_table_storage.cpp: one heap per table id, with roots handed out one apart. A handle
  returned by OpenHeap shares the stored heap.
 */
module TableStorage {
  import opened Common
  import opened ByteIo
  import opened SlottedPage
  import opened Heap
  import opened Plans

  datatype StoredTable = StoredTable(root: PageId, heap: HeapState)
  datatype StorageState = StorageState(nextRoot: PageId, tables: map<nat, StoredTable>)

  const EMPTY_STORAGE := StorageState(1, map[])

  function CreateHeap(s: StorageState, id: nat): (StorageState, Result<PageId>) {
    if id in s.tables then (s, Err(AlreadyExists))
    else if s.nextRoot == INVALID_PAGE_ID then (s, Err(Internal))
    else
      (StorageState(s.nextRoot + 1, s.tables[id := StoredTable(s.nextRoot, EmptyHeap(s.nextRoot, DEFAULT_PAGE_SIZE))]),
       Ok(s.nextRoot))
  }

  function OpenHeap(s: StorageState, ref: StorageRef): Result<HeapState> {
    if ref.tableId !in s.tables then Err(NotFound)
    else if ref.root != s.tables[ref.tableId].root then Err(Corruption)
    else Ok(s.tables[ref.tableId].heap)
  }

  function RecordCount(s: StorageState, id: nat): Result<nat> {
    if id !in s.tables then Err(NotFound) else Ok(s.tables[id].heap.active)
  }

  // What an insertion through an open handle does to the storage.
  function InsertInto(s: StorageState, id: nat, record: Bytes): (StorageState, Result<RecordId>)
    requires id in s.tables
  {
    var (heap, r) := HeapInsert(s.tables[id].heap, record);
    (s.(tables := s.tables[id := s.tables[id].(heap := heap)]), r)
  }

  // Roots are valid, distinct and below the next one; each heap is sound and knows its root.
  ghost predicate StorageInv(s: StorageState) {
    && s.nextRoot > 0
    && (forall id :: id in s.tables ==>
          var t := s.tables[id];
          0 < t.root < s.nextRoot && t.heap.root == t.root && t.heap.pageSize == DEFAULT_PAGE_SIZE && HeapInv(t.heap))
    && (forall i, j :: i in s.tables && j in s.tables && i != j ==> s.tables[i].root != s.tables[j].root)
  }

  lemma EmptyStorageIsSound()
    ensures StorageInv(EMPTY_STORAGE)
  {
  }

  // A heap is created exactly for a new table while roots are left; it is empty, under a root
  // no other table has, and no other heap changes.
  lemma CreateHeapExactly(s: StorageState, id: nat)
    requires StorageInv(s)
    ensures var (s1, r) := CreateHeap(s, id);
            && StorageInv(s1)
            && (r.Ok? <==> id !in s.tables && s.nextRoot != INVALID_PAGE_ID)
            && (r.Err? ==> s1 == s)
            && (r.Ok? ==> && r.value != INVALID_PAGE_ID && (forall i :: i in s.tables ==> s.tables[i].root != r.value)
                          && s1.tables == s.tables[id := StoredTable(r.value, EmptyHeap(r.value, DEFAULT_PAGE_SIZE))]
                          && HeapContents(s1.tables[id].heap) == map[])
  {
    hide HeapInv, HeapContents;
    if s.nextRoot != INVALID_PAGE_ID {
      EmptyHeapIsSound(s.nextRoot, DEFAULT_PAGE_SIZE);
    }
  }

  // Insertion through a handle touches that table's heap alone, and only by the one record.
  lemma InsertIntoOneHeap(s: StorageState, id: nat, record: Bytes)
    requires StorageInv(s) && id in s.tables
    ensures var (s1, r) := InsertInto(s, id, record);
            && StorageInv(s1) && s1.nextRoot == s.nextRoot && s1.tables.Keys == s.tables.Keys
            && (forall i :: i in s.tables ==> s1.tables[i].root == s.tables[i].root)
            && (forall i :: i in s.tables && i != id ==> s1.tables[i] == s.tables[i])
            && (r.Err? ==> s1 == s)
            && (r.Ok? ==> HeapContents(s1.tables[id].heap) == HeapContents(s.tables[id].heap)[r.value := record])
            && (r.Ok? <==> SomePageFits(s.tables[id].heap, record) || FreshPageTakes(s.tables[id].heap, record))
            && |s1.tables[id].heap.pages| == |s.tables[id].heap.pages| +
                                             (if r.Ok? && !SomePageFits(s.tables[id].heap, record) then 1 else 0)
  {
    hide HeapInv, HeapContents, HeapInsert, SomePageFits, FreshPageTakes;
    InsertRefinesMap(s.tables[id].heap, record);
  }

  // A heap is opened exactly by the id of its table together with its root; a wrong root is
  // corruption, an unknown id is not found.
  lemma OpenHeapExactly(s: StorageState, ref: StorageRef)
    ensures OpenHeap(s, ref).Ok? <==> ref.tableId in s.tables && ref.root == s.tables[ref.tableId].root
    ensures OpenHeap(s, ref).Ok? ==> OpenHeap(s, ref).value == s.tables[ref.tableId].heap
    ensures OpenHeap(s, ref).Err? ==> OpenHeap(s, ref).error == if ref.tableId in s.tables then Corruption else NotFound
  {
  }

  // The record count is the number of live records.
  lemma RecordCountIsExact(s: StorageState, id: nat)
    requires StorageInv(s)
    ensures RecordCount(s, id) == if id in s.tables then Ok(|HeapContents(s.tables[id].heap)|) else Err(NotFound)
  {
    hide HeapContents, HeapInv;
    if id in s.tables {
      CounterIsExact(s.tables[id].heap);
    }
  }

  ghost predicate HasPage(h: HeapState, id: PageId) {
    exists k :: 0 <= k < |h.pages| && h.pages[k].pageId == id
  }

  // Roots are handed out one apart while a heap numbers its pages from its root, so page ids are
  // unique only within a heap: two tables share one exactly when the later table has a page and
  // the earlier one has grown up to its root.
  lemma PageIdsOverlapExactly(s: StorageState, i: nat, j: nat)
    requires StorageInv(s) && i in s.tables && j in s.tables && s.tables[i].root < s.tables[j].root
    ensures (exists id :: HasPage(s.tables[i].heap, id) && HasPage(s.tables[j].heap, id)) <==>
            s.tables[j].heap.pages != [] && s.tables[j].root - s.tables[i].root < |s.tables[i].heap.pages|
  {
    hide HeapInv, HeapContents;
    var early, late := s.tables[i].heap, s.tables[j].heap;
    forall k | 0 <= k < |early.pages| ensures early.pages[k].pageId == early.root + k {
      PageAt(early, k);
    }
    forall k | 0 <= k < |late.pages| ensures late.pages[k].pageId == late.root + k {
      PageAt(late, k);
    }
    if late.pages != [] && late.root - early.root < |early.pages| {
      assert late.pages[0].pageId == early.pages[late.root - early.root].pageId;
      assert HasPage(early, late.root) && HasPage(late, late.root);
    }
  }

  // A page that holds a record has no room for another of the same size when two are too large.
  lemma LargeRecordFillsPage(h: HeapState, rid: RecordId, record: Bytes)
    requires HeapInv(h) && |h.pages| == 1 && HeapContents(h) == map[rid := record] && 2 * |record| > h.pageSize
    ensures !SomePageFits(h, record)
  {
    hide HeapInv, PageInv, Contents, SlottedPage.Fits;
    PageAt(h, 0);
    OnlyPageHolds(h, rid);
    if SomePageFits(h, record) {
      LiveRecordTakesSpace(h.pages[0], rid.slotId, record);
    }
  }

  lemma OnlyPageHolds(h: HeapState, rid: RecordId)
    requires |h.pages| == 1 && rid in HeapContents(h)
    ensures rid.slotId in Contents(h.pages[0]) && HeapContents(h)[rid] == Contents(h.pages[0])[rid.slotId]
  {
    hide Flatten, Contents;
    assert InFlat(h.root, PageMaps(h.pages), rid);
  }

  lemma LiveRecordTakesSpace(p: PageState, slot: SlotId, record: Bytes)
    requires PageInv(p) && slot in Contents(p) && SlottedPage.Fits(p, record)
    ensures |Contents(p)[slot]| + |record| <= |p.bytes|
  {
    hide ReadSlot, FirstTombstone, TargetSlot;
    var e := Slots(p)[slot];
    assert LiveSlot(Slots(p), slot) && Contents(p)[slot] == Payload(e, p.bytes);
  }

  // Two records too large to share a page take two pages of a new table.
  lemma TwoPages(s: StorageState, id: nat, large: Bytes)
    requires StorageInv(s) && id in s.tables && s.tables[id] == StoredTable(s.tables[id].root, EmptyHeap(s.tables[id].root, DEFAULT_PAGE_SIZE))
    requires DEFAULT_PAGE_SIZE < 2 * |large| && |large| + SLOT_ENTRY_SIZE <= DEFAULT_PAGE_SIZE
    requires s.tables[id].root < MAX_VALID_PAGE_ID
    ensures var s1 := InsertInto(s, id, large).0;
            && StorageInv(s1) && id in s1.tables && |s1.tables[id].heap.pages| == 1
            && var s2 := InsertInto(s1, id, large).0;
               && StorageInv(s2) && id in s2.tables && |s2.tables[id].heap.pages| == 2
               && s2.tables[id].root == s.tables[id].root && s2.tables.Keys == s.tables.Keys
               && forall i :: i in s.tables && i != id ==> s2.tables[i] == s.tables[i]
  {
    hide HeapInv, HeapContents, InsertInto, SomePageFits;
    EmptyHeapIsSound(s.tables[id].root, DEFAULT_PAGE_SIZE);
    NoPageFits(s.tables[id].heap, large);
    InsertIntoOneHeap(s, id, large);
    var (s1, r1) := InsertInto(s, id, large);
    assert HeapContents(s1.tables[id].heap) == map[r1.value := large];
    LargeRecordFillsPage(s1.tables[id].heap, r1.value, large);
    InsertIntoOneHeap(s1, id, large);
  }

  // Such states are reached: two new tables, two such records in the first and one in the second
  // give the second page of the one the id of the first page of the other.
  lemma PageIdsDoOverlap(large: Bytes)
    requires DEFAULT_PAGE_SIZE < 2 * |large| && |large| + SLOT_ENTRY_SIZE <= DEFAULT_PAGE_SIZE
    ensures var s := CreateHeap(CreateHeap(EMPTY_STORAGE, 1).0, 2).0;
            && 1 in s.tables && 1 in InsertInto(s, 1, large).0.tables
            && var s2 := InsertInto(InsertInto(s, 1, large).0, 1, large).0;
               2 in s2.tables &&
               var s3 := InsertInto(s2, 2, large).0;
               && 1 in s3.tables && 2 in s3.tables
               && exists id :: HasPage(s3.tables[1].heap, id) && HasPage(s3.tables[2].heap, id)
  {
    hide HeapInv, HeapContents, InsertInto, SomePageFits, HasPage;
    var s := CreateHeap(CreateHeap(EMPTY_STORAGE, 1).0, 2).0;
    TwoTables();
    TwoPages(s, 1, large);
    var s2 := InsertInto(InsertInto(s, 1, large).0, 1, large).0;
    NoPageFits(s2.tables[2].heap, large);
    InsertIntoOneHeap(s2, 2, large);
    PageIdsOverlapExactly(InsertInto(s2, 2, large).0, 1, 2);
  }

  lemma TwoTables()
    ensures var s := CreateHeap(CreateHeap(EMPTY_STORAGE, 1).0, 2).0;
            && StorageInv(s) && s.tables == map[1 := StoredTable(1, EmptyHeap(1, DEFAULT_PAGE_SIZE)), 2 := StoredTable(2, EmptyHeap(2, DEFAULT_PAGE_SIZE))]
  {
    hide HeapInv, HeapContents;
    EmptyStorageIsSound();
    CreateHeapExactly(EMPTY_STORAGE, 1);
    CreateHeapExactly(CreateHeap(EMPTY_STORAGE, 1).0, 2);
  }

  lemma NoPageFits(h: HeapState, record: Bytes)
    requires h.pages == []
    ensures !SomePageFits(h, record)
  {
  }

  // ---------------------------------------------------------------- the code

  datatype TableData = TableData(root: PageId, heap: PageHeapTable)

  class InMemoryTableStorage {
    var nextRootPageId: PageId
    var tables: map<nat, TableData>
    ghost var Repr: set<object>

    // Every heap is valid and shares nothing with another one.
    ghost predicate Valid()
      reads this, Repr
    {
      && this in Repr
      && (forall id :: id in tables ==>
            && tables[id].heap in Repr && tables[id].heap in tables[id].heap.Repr && tables[id].heap.Repr <= Repr && this !in tables[id].heap.Repr
            && tables[id].heap.Valid())
      && (forall i, j :: i in tables && j in tables && i != j ==> tables[i].heap.Repr !! tables[j].heap.Repr)
    }

    ghost function State(): StorageState
      requires Valid()
      reads this, Repr
    {
      StorageState(nextRootPageId, map id | id in tables :: StoredTable(tables[id].root, tables[id].heap.State()))
    }

    constructor ()
      ensures Valid() && fresh(Repr) && State() == EMPTY_STORAGE
    {
      nextRootPageId, tables, Repr := 1, map[], {this};
    }

    // Files a heap that shares nothing with those already here.
    method Emplace(id: nat, root: PageId, heap: PageHeapTable)
      requires Valid() && id !in tables && heap.Valid() && heap.Repr !! Repr
      modifies this`tables, this`Repr
      ensures Valid() && Repr == old(Repr) + heap.Repr && heap.State() == old(heap.State())
      ensures tables == old(tables)[id := TableData(root, heap)]
      ensures forall i :: i in old(tables) ==> tables[i].heap.State() == old(tables[i].heap.State())
    {
      assert heap in heap.Repr;
      hide PageHeapTable.State, PageHeapTable.Valid;
      tables := tables[id := TableData(root, heap)];
      Repr := Repr + heap.Repr;
    }

    method AdvanceRoot()
      requires Valid() && nextRootPageId != INVALID_PAGE_ID
      modifies this`nextRootPageId
      ensures Valid() && State() == old(State()).(nextRoot := old(nextRootPageId) + 1)
    {
      hide PageHeapTable.State, PageHeapTable.Valid;
      nextRootPageId := nextRootPageId + 1;
    }

    method AddHeap(id: nat, root: PageId)
      requires Valid() && id !in tables
      modifies this`tables, this`Repr
      ensures Valid() && fresh(Repr - old(Repr))
      ensures State() == old(State()).(tables := old(State()).tables[id := StoredTable(root, EmptyHeap(root, DEFAULT_PAGE_SIZE))])
    {
      hide PageHeapTable.Valid, PageHeapTable.State;
      var heap := new PageHeapTable(root, DEFAULT_PAGE_SIZE);
      Emplace(id, root, heap);
      assert State().tables == old(State()).tables[id := StoredTable(root, heap.State())];
    }

    method Create(id: nat) returns (r: Result<PageId>)
      requires Valid()
      modifies this
      ensures Valid() && fresh(Repr - old(Repr))
      ensures (State(), r) == CreateHeap(old(State()), id)
    {
      hide PageHeapTable.Valid, PageHeapTable.State;
      if id in tables { return Err(AlreadyExists); }
      if nextRootPageId == INVALID_PAGE_ID { return Err(Internal); }
      var root := nextRootPageId;
      AdvanceRoot();
      AddHeap(id, root);
      return Ok(root);
    }

    method Open(ref: StorageRef) returns (r: Result<PageHeapTable>)
      requires Valid()
      ensures r.Ok? <==> OpenHeap(State(), ref).Ok?
      ensures r.Ok? ==> ref.tableId in tables && r.value == tables[ref.tableId].heap && r.value.State() == OpenHeap(State(), ref).value
      ensures r.Err? ==> r.error == OpenHeap(State(), ref).error
    {
      if ref.tableId !in tables { return Err(NotFound); }
      if ref.root != tables[ref.tableId].root { return Err(Corruption); }
      return Ok(tables[ref.tableId].heap);
    }

    method Count(id: nat) returns (r: Result<nat>)
      requires Valid()
      ensures r == RecordCount(State(), id)
    {
      if id !in tables { return Err(NotFound); }
      var count := tables[id].heap.RecordCount();
      return Ok(count);
    }
  }

  // Insertion through an open handle, seen from the storage that shares the heap.
  method InsertThroughHandle(storage: InMemoryTableStorage, id: nat, handle: PageHeapTable, record: Bytes)
    returns (r: Result<RecordId>)
    requires storage.Valid() && id in storage.tables && handle == storage.tables[id].heap
    modifies storage.Repr
    ensures storage.Valid() && fresh(storage.Repr - old(storage.Repr))
    ensures storage.tables == old(storage.tables)
    ensures (storage.State(), r) == InsertInto(old(storage.State()), id, record)
  {
    hide HeapInsert;
    ghost var tables := storage.tables;
    r := handle.Insert(record);
    storage.Repr := storage.Repr + handle.Repr;
    forall i | i in tables && i != id
      ensures tables[i].heap.Valid() && tables[i].heap.Repr == old(tables[i].heap.Repr)
      ensures tables[i].heap.State() == old(tables[i].heap.State())
    {
      assert tables[i].heap in old(tables[i].heap.Repr);
    }
    assert storage.State().tables == InsertInto(old(storage.State()), id, record).0.tables;
  }
}
