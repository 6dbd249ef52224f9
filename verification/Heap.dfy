/**
  page_heap_table.cpp: a heap file is a growing list of slotted pages. Page i carries page id
  root + i; records go to the first page with room; a live counter is kept beside the pages;
  cursors walk the live state in page/slot order.

  As for pages, the heap is first described as a value; the classes at the end are the code.
 */
module Heap {
  import opened Common
  import opened ByteIo
  import opened SlottedPage

  datatype HeapState = HeapState(root: PageId, pageSize: nat, active: nat, pages: seq<PageState>)

  function EmptyHeap(root: PageId, pageSize: nat): HeapState {
    HeapState(root, pageSize, 0, [])
  }

  function NewPage(id: PageId, pageSize: nat): PageState {
    PageState(id, Free, UINT64_MAX, 0, 0, 0, Zeros(pageSize))
  }

  const MAX_VALID_PAGE_ID: PageId := 0xFFFF_FFFF_FFFF_FFFE

  // The checks of AllocatePage, before a page is added.
  function AllocationStatus(h: HeapState): Status {
    if h.root == INVALID_PAGE_ID then Err(InvalidArgument)
    else if h.pageSize == 0 then Err(InvalidArgument)
    else if |h.pages| > MAX_VALID_PAGE_ID - h.root then Err(Internal)
    else OkStatus
  }

  function AllocatePage(h: HeapState): (HeapState, Status) {
    var checks := AllocationStatus(h);
    if checks.Err? then (h, checks)
    else
      var (page, status) := InitializePage(NewPage(h.root + |h.pages|, h.pageSize), PageKind.Heap);
      if status.Err? then (h, status) else (h.(pages := h.pages + [page]), status)
  }

  function PageReplaced(h: HeapState, i: nat, page: PageState, active: nat): HeapState
    requires i < |h.pages|
  {
    h.(pages := h.pages[i := page], active := active)
  }

  // The insertion loop over existing pages, from page i on; None when every page is full.
  function TryPages(h: HeapState, record: Bytes, i: nat): Option<(HeapState, Result<RecordId>)>
    requires i <= |h.pages|
    decreases |h.pages| - i
  {
    if i == |h.pages| then None
    else
      var (page, r) := InsertRecord(h.pages[i], record);
      if r.Ok? then
        Some((PageReplaced(h, i, page, h.active + 1), Ok(RecordId(h.pages[i].pageId, r.value))))
      else if r.error != InvalidArgument then Some((h, Err(r.error)))
      else TryPages(h, record, i + 1)
  }

  // The tail of Insert: allocate a page, insert there, and drop the page again on failure.
  function InsertIntoNewPage(h: HeapState, record: Bytes): (HeapState, Result<RecordId>) {
    var (grown, status) := AllocatePage(h);
    if status.Err? then (h, Err(status.error))
    else
      var n := |h.pages|;
      var (page, r) := InsertRecord(grown.pages[n], record);
      if r.Err? then (h, Err(r.error))
      else (PageReplaced(grown, n, page, h.active + 1), Ok(RecordId(page.pageId, r.value)))
  }

  function HeapInsert(h: HeapState, record: Bytes): (HeapState, Result<RecordId>) {
    var tried := TryPages(h, record, 0);
    if tried.Some? then tried.value else InsertIntoNewPage(h, record)
  }

  // The first page at or after i with the given id.
  function FindPage(h: HeapState, id: PageId, i: nat): (r: Option<nat>)
    requires i <= |h.pages|
    ensures r.Some? ==> i <= r.value < |h.pages| && h.pages[r.value].pageId == id
    ensures r.None? ==> forall k :: i <= k < |h.pages| ==> h.pages[k].pageId != id
    decreases |h.pages| - i
  {
    if i == |h.pages| then None
    else if h.pages[i].pageId == id then Some(i)
    else FindPage(h, id, i + 1)
  }

  function HeapRead(h: HeapState, rid: RecordId): Result<RecordView> {
    var page := FindPage(h, rid.pageId, 0);
    if page.None? then Err(NotFound) else ReadRecord(h.pages[page.value], rid.slotId)
  }

  // size_t decrement
  function Decremented(n: nat): nat {
    if n == 0 then UINT64_MAX else n - 1
  }

  function HeapDelete(h: HeapState, rid: RecordId): (HeapState, Status) {
    var found := FindPage(h, rid.pageId, 0);
    if found.None? then (h, Err(NotFound))
    else
      var (page, status) := DeleteRecord(h.pages[found.value], rid.slotId);
      if status.Err? then (h, status)
      else (PageReplaced(h, found.value, page, Decremented(h.active)), status)
  }

  datatype CursorPos = CursorPos(page: nat, slot: nat)
  const SCAN_START := CursorPos(0, 0)

  // Slots left on the page under the cursor: the inner loop's measure.
  function SlotsLeft(h: HeapState, pos: CursorPos): nat {
    if pos.page < |h.pages| && pos.slot < CountedSlots(h.pages[pos.page])
    then CountedSlots(h.pages[pos.page]) - pos.slot
    else 0
  }

  function NextRecord(h: HeapState, pos: CursorPos): (CursorPos, Result<RecordView>)
    decreases |h.pages| - pos.page, SlotsLeft(h, pos)
  {
    if pos.page >= |h.pages| then (pos, Err(NotFound))
    else if SlotsLeft(h, pos) > 0 then
      var r := ReadRecord(h.pages[pos.page], pos.slot);
      var next := pos.(slot := pos.slot + 1);
      if r == Err(NotFound) then NextRecord(h, next) else (next, r)
    else NextRecord(h, CursorPos(pos.page + 1, 0))
  }

  // ---------------------------------------------------------------- maps of maps

  type SlotMap = map<SlotId, Bytes>

  // The records of consecutive pages, keyed by page id and slot.
  ghost predicate InFlat(root: PageId, ms: seq<SlotMap>, rid: RecordId) {
    0 <= rid.pageId - root < |ms| && rid.slotId in ms[rid.pageId - root]
  }

  ghost function FlatIds(root: PageId, ms: seq<SlotMap>): set<RecordId> {
    set i, slot | 0 <= i < |ms| && root + i <= UINT64_MAX && slot in ms[i] :: RecordId(root + i, slot)
  }

  ghost function Flatten(root: PageId, ms: seq<SlotMap>): (flat: map<RecordId, Bytes>)
    ensures forall rid :: rid in flat <==> InFlat(root, ms, rid)
    ensures forall rid :: rid in flat ==> InFlat(root, ms, rid) && flat[rid] == ms[rid.pageId - root][rid.slotId]
  {
    assert forall rid :: InFlat(root, ms, rid) ==> rid in FlatIds(root, ms) by {
      forall rid | InFlat(root, ms, rid) ensures rid in FlatIds(root, ms) {
        var i := rid.pageId - root;
        assert rid == RecordId(root + i, rid.slotId);
      }
    }
    map rid | rid in FlatIds(root, ms) :: ms[rid.pageId - root][rid.slotId]
  }

  lemma FlattenInsert(root: PageId, ms: seq<SlotMap>, i: nat, slot: SlotId, record: Bytes, m: SlotMap)
    requires i < |ms| && root + i <= UINT64_MAX && m == ms[i][slot := record]
    ensures Flatten(root, ms[i := m]) == Flatten(root, ms)[RecordId(root + i, slot) := record]
  {
    hide Flatten;
  }

  lemma FlattenRemove(root: PageId, ms: seq<SlotMap>, i: nat, slot: SlotId)
    requires i < |ms| && root + i <= UINT64_MAX
    ensures Flatten(root, ms[i := ms[i] - {slot}]) == Flatten(root, ms) - {RecordId(root + i, slot)}
  {
    hide Flatten;
    var ms' := ms[i := ms[i] - {slot}];
    forall rid: RecordId
      ensures InFlat(root, ms', rid) <==> InFlat(root, ms, rid) && rid != RecordId(root + i, slot)
    {
    }
  }

  lemma FlattenAppendEmpty(root: PageId, ms: seq<SlotMap>)
    ensures Flatten(root, ms + [map[]]) == Flatten(root, ms)
  {
    hide Flatten;
  }

  // ---------------------------------------------------------------- meaning and invariant

  ghost function PageMaps(pages: seq<PageState>): (ms: seq<SlotMap>)
    ensures |ms| == |pages|
    ensures forall i :: 0 <= i < |pages| ==> ms[i] == Contents(pages[i])
  {
    seq(|pages|, i requires 0 <= i < |pages| => Contents(pages[i]))
  }

  // What the heap means: a finite map from record ids to record bytes.
  ghost function HeapContents(h: HeapState): map<RecordId, Bytes> {
    Flatten(h.root, PageMaps(h.pages))
  }

  ghost predicate PageOf(h: HeapState, i: nat)
    requires i < |h.pages|
  {
    var p := h.pages[i];
    PageInv(p) && p.pageId == h.root + i && p.kind == PageKind.Heap && |p.bytes| == h.pageSize
  }

  // Live slots over all pages.
  ghost function LiveSlots(pages: seq<PageState>): nat {
    if pages == [] then 0 else LiveSlots(pages[..|pages| - 1]) + |Contents(pages[|pages| - 1])|
  }

  lemma LiveSlotsAppend(pages: seq<PageState>, p: PageState)
    ensures LiveSlots(pages + [p]) == LiveSlots(pages) + |Contents(p)|
  {
    hide Contents;
    assert (pages + [p])[..|pages|] == pages;
  }

  lemma {:induction false} LiveSlotsReplace(pages: seq<PageState>, i: nat, p: PageState)
    requires i < |pages|
    ensures LiveSlots(pages[i := p]) == LiveSlots(pages) - |Contents(pages[i])| + |Contents(p)|
    ensures LiveSlots(pages) >= |Contents(pages[i])|
  {
    hide Contents;
    var n := |pages| - 1;
    if i == n {
      assert pages[i := p][..n] == pages[..n];
    } else {
      LiveSlotsReplace(pages[..n], i, p);
      assert pages[i := p][..n] == pages[..n][i := p];
    }
  }

  // Every page keeps its own invariant, page i has id root + i, ids stay valid, and the
  // counter is the number of live slots.
  ghost predicate HeapInv(h: HeapState) {
    && h.root + |h.pages| <= INVALID_PAGE_ID
    && (forall i :: 0 <= i < |h.pages| ==> PageOf(h, i))
    && h.active == LiveSlots(h.pages)
  }

  lemma EmptyHeapIsSound(root: PageId, pageSize: nat)
    ensures HeapInv(EmptyHeap(root, pageSize)) && HeapContents(EmptyHeap(root, pageSize)) == map[]
  {
  }

  // ---------------------------------------------------------------- insertion

  ghost predicate SomePageFits(h: HeapState, record: Bytes) {
    exists i :: 0 <= i < |h.pages| && Fits(h.pages[i], record)
  }

  // A fresh page of this heap's size can be added and takes the record.
  predicate FreshPageTakes(h: HeapState, record: Bytes) {
    && h.root != INVALID_PAGE_ID && h.root + |h.pages| < INVALID_PAGE_ID
    && 0 < h.pageSize <= UINT16_MAX
    && |record| + SLOT_ENTRY_SIZE <= h.pageSize
  }

  ghost predicate SameFrame(p: PageState, q: PageState) {
    q.pageId == p.pageId && q.kind == p.kind && |q.bytes| == |p.bytes|
  }

  lemma PagesKept(h: HeapState, i: nat, page: PageState, active: nat)
    requires HeapInv(h) && i < |h.pages| && PageInv(page) && SameFrame(h.pages[i], page)
    ensures var h' := PageReplaced(h, i, page, active);
            && (forall k :: 0 <= k < |h'.pages| ==> PageOf(h', k))
            && HeapContents(h') == Flatten(h.root, PageMaps(h.pages)[i := Contents(page)])
            && h.root + i <= UINT64_MAX
  {
    hide PageInv, Contents, Flatten;
    var h' := PageReplaced(h, i, page, active);
    assert PageMaps(h'.pages) == PageMaps(h.pages)[i := Contents(page)];
    assert PageOf(h, i);
    forall k | 0 <= k < |h'.pages| ensures PageOf(h', k) {
      assert PageOf(h, k);
    }
  }

  lemma InsertIntoPage(h: HeapState, i: nat, page: PageState, slot: SlotId, record: Bytes)
    requires HeapInv(h) && i < |h.pages| && PageInv(page) && SameFrame(h.pages[i], page)
    requires slot !in Contents(h.pages[i]) && Contents(page) == Contents(h.pages[i])[slot := record]
    ensures h.root + i <= UINT64_MAX
    ensures var id := RecordId(h.root + i, slot);
            var h' := PageReplaced(h, i, page, h.active + 1);
            HeapInv(h') && id !in HeapContents(h) && HeapContents(h') == HeapContents(h)[id := record]
  {
    hide PageInv, Contents, Flatten, PageOf;
    PagesKept(h, i, page, h.active + 1);
    FlattenInsert(h.root, PageMaps(h.pages), i, slot, record, Contents(page));
    var id := RecordId(h.root + i, slot);
    assert !InFlat(h.root, PageMaps(h.pages), id);
    LiveSlotsReplace(h.pages, i, page);
    OneKeyMore(Contents(h.pages[i]), slot, record);
  }

  lemma DeleteFromPage(h: HeapState, i: nat, page: PageState, slot: SlotId)
    requires HeapInv(h) && i < |h.pages| && PageInv(page) && SameFrame(h.pages[i], page)
    requires slot in Contents(h.pages[i]) && Contents(page) == Contents(h.pages[i]) - {slot}
    ensures h.root + i <= UINT64_MAX
    ensures var id := RecordId(h.root + i, slot);
            var h' := PageReplaced(h, i, page, Decremented(h.active));
            HeapInv(h') && id in HeapContents(h) && HeapContents(h') == HeapContents(h) - {id}
  {
    hide PageInv, Contents, Flatten, PageOf;
    PagesKept(h, i, page, Decremented(h.active));
    FlattenRemove(h.root, PageMaps(h.pages), i, slot);
    var id := RecordId(h.root + i, slot);
    assert InFlat(h.root, PageMaps(h.pages), id);
    LiveSlotsReplace(h.pages, i, page);
    OneKeyLess(Contents(h.pages[i]), slot);
  }

  lemma OneKeyMore<K>(m: map<K, Bytes>, id: K, record: Bytes)
    requires id !in m
    ensures |m[id := record]| == |m| + 1
  {
    assert m[id := record].Keys == m.Keys + {id};
  }

  lemma OneKeyLess<K>(m: map<K, Bytes>, id: K)
    requires id in m
    ensures |m| > 0 && |m - {id}| == |m| - 1
  {
    assert (m - {id}).Keys == m.Keys - {id};
    assert |m.Keys| == |m.Keys - {id}| + 1;
  }

  // The first-fit loop: it either finds the first page that fits and inserts there, or no page fits.
  lemma {:induction false} TryPagesIsFirstFit(h: HeapState, record: Bytes, i: nat)
    requires HeapInv(h) && i <= |h.pages|
    ensures TryPages(h, record, i).None? <==> forall k :: i <= k < |h.pages| ==> !Fits(h.pages[k], record)
    ensures TryPages(h, record, i).Some? ==>
              var (h', r) := TryPages(h, record, i).value;
              && HeapInv(h') && SameShape(h, h')
              && r.Ok? && r.value !in HeapContents(h)
              && HeapContents(h') == HeapContents(h)[r.value := record]
              && IsFirstFit(h, record, i, r.value)
    decreases |h.pages| - i
  {
    hide PageInv, Contents, Fits, InsertRecord, HeapContents, HeapInv;
    if i < |h.pages| {
      PageAt(h, i);
      InsertAddsOneSlot(h.pages[i], record);
      var (page, r) := InsertRecord(h.pages[i], record);
      if r.Ok? {
        InsertIntoPage(h, i, page, r.value, record);
      } else {
        TryPagesIsFirstFit(h, record, i + 1);
      }
    }
  }

  lemma PageAt(h: HeapState, i: nat)
    requires HeapInv(h) && i < |h.pages|
    ensures PageOf(h, i) && h.root + |h.pages| <= INVALID_PAGE_ID
  {
  }

  ghost predicate SameShape(h: HeapState, h': HeapState) {
    |h'.pages| == |h.pages| && h'.root == h.root && h'.pageSize == h.pageSize
  }

  // Of the pages from i on, the one holding rid is the first that has room for the record.
  ghost predicate IsFirstFit(h: HeapState, record: Bytes, i: nat, rid: RecordId) {
    var page := rid.pageId - h.root;
    && i <= page < |h.pages| && Fits(h.pages[page], record)
    && forall k :: i <= k < page ==> !Fits(h.pages[k], record)
  }

  lemma FreshPageFits(p: PageState, record: Bytes)
    requires InitializePage(p, PageKind.Heap).1.Ok?
    ensures Fits(InitializePage(p, PageKind.Heap).0, record) <==> |record| + SLOT_ENTRY_SIZE <= |p.bytes|
  {
    InitializeIsEmpty(p, PageKind.Heap);
  }

  lemma GrownHeap(h: HeapState)
    requires HeapInv(h)
    ensures var (g, status) := AllocatePage(h);
            var page := InitializePage(NewPage(h.root + |h.pages|, h.pageSize), PageKind.Heap).0;
            if status.Ok?
            then HeapInv(g) && HeapContents(g) == HeapContents(h) && g == h.(pages := h.pages + [page])
            else g == h
    ensures AllocatePage(h).1.Ok? <==>
              h.root != INVALID_PAGE_ID && h.root + |h.pages| < INVALID_PAGE_ID && 0 < h.pageSize <= UINT16_MAX
  {
    hide PageInv, Contents, HeapContents, HeapInv, InitializePage;
    if AllocationStatus(h).Ok? {
      var blank := NewPage(h.root + |h.pages|, h.pageSize);
      InitializeIsEmpty(blank, PageKind.Heap);
      if InitializePage(blank, PageKind.Heap).1.Ok? {
        AppendEmptyPage(h, InitializePage(blank, PageKind.Heap).0);
      }
    }
  }

  lemma AppendEmptyPage(h: HeapState, page: PageState)
    requires HeapInv(h) && h.root + |h.pages| < INVALID_PAGE_ID
    requires PageInv(page) && page.pageId == h.root + |h.pages| && page.kind == PageKind.Heap && |page.bytes| == h.pageSize
    requires Contents(page) == map[]
    ensures var g := h.(pages := h.pages + [page]);
            HeapInv(g) && HeapContents(g) == HeapContents(h)
  {
    hide PageInv, Contents, Flatten;
    var g := h.(pages := h.pages + [page]);
    assert PageMaps(g.pages) == PageMaps(h.pages) + [map[]];
    FlattenAppendEmpty(h.root, PageMaps(h.pages));
    LiveSlotsAppend(h.pages, page);
    forall k | 0 <= k < |g.pages| ensures PageOf(g, k) {
      assert k < |h.pages| ==> PageOf(h, k);
    }
  }

  // Insert adds one record under an id that was not live, or fails and changes nothing. It
  // succeeds exactly when some page fits or a fresh page can be had; the page it uses is the
  // first that fits, and the heap grows by one page exactly when none does.
  lemma InsertRefinesMap(h: HeapState, record: Bytes)
    requires HeapInv(h)
    ensures var (h', r) := HeapInsert(h, record);
            && HeapInv(h') && h'.root == h.root && h'.pageSize == h.pageSize
            && |h'.pages| == |h.pages| + (if r.Ok? && !SomePageFits(h, record) then 1 else 0)
            && (r.Ok? <==> SomePageFits(h, record) || FreshPageTakes(h, record))
            && (r.Err? ==> h' == h)
            && (r.Ok? ==> r.value !in HeapContents(h) && HeapContents(h') == HeapContents(h)[r.value := record])
            && (r.Ok? && SomePageFits(h, record) ==> IsFirstFit(h, record, 0, r.value))
  {
    hide PageInv, Contents, Fits, HeapContents, HeapInv, InsertRecord, AllocatePage;
    TryPagesIsFirstFit(h, record, 0);
    if TryPages(h, record, 0).None? {
      GrownHeap(h);
      if AllocatePage(h).1.Ok? {
        InsertIntoFreshPage(h, record);
        var g := AllocatePage(h).0;
        var (page, r) := InsertRecord(g.pages[|h.pages|], record);
        assert r.Ok? ==> HeapInsert(h, record).0 == PageReplaced(g, |h.pages|, page, h.active + 1);
        assert r.Ok? <==> HeapInsert(h, record).1.Ok?;
      }
    }
  }

  // An insertion that fails does so for a record too large, or once the page ids are used up.
  lemma InsertErrorIs(h: HeapState, record: Bytes)
    requires HeapInv(h) && h.root < INVALID_PAGE_ID && 0 < h.pageSize <= UINT16_MAX
    ensures HeapInsert(h, record).1.Err? ==>
              HeapInsert(h, record).1.error == if h.root + |h.pages| < INVALID_PAGE_ID then InvalidArgument else Internal
  {
    hide PageInv, Contents, Fits, HeapContents, HeapInv, InsertRecord, InitializePage;
    TryPagesIsFirstFit(h, record, 0);
    if TryPages(h, record, 0).None? {
      GrownHeap(h);
      if AllocatePage(h).1.Ok? {
        var g := AllocatePage(h).0;
        PageAt(g, |h.pages|);
        InsertAddsOneSlot(g.pages[|h.pages|], record);
      }
    }
  }

  lemma InsertIntoFreshPage(h: HeapState, record: Bytes)
    requires HeapInv(h) && AllocatePage(h).1.Ok?
    ensures var g := AllocatePage(h).0;
            var n := |h.pages|;
            |g.pages| == n + 1 && g.root == h.root && g.pageSize == h.pageSize &&
            var (page, r) := InsertRecord(g.pages[n], record);
            var h' := PageReplaced(g, n, page, h.active + 1);
            && (r.Ok? <==> |record| + SLOT_ENTRY_SIZE <= h.pageSize)
            && (r.Ok? ==> && HeapInv(h') && page.pageId == h.root + n
                          && RecordId(page.pageId, r.value) !in HeapContents(h)
                          && HeapContents(h') == HeapContents(h)[RecordId(page.pageId, r.value) := record])
  {
    hide PageInv, Contents, Fits, HeapContents, HeapInv, InsertRecord, InitializePage;
    GrownHeap(h);
    var g := AllocatePage(h).0;
    var n := |h.pages|;
    var (page, r) := InsertRecord(g.pages[n], record);
    PageAt(g, n);
    InsertAddsOneSlot(g.pages[n], record);
    FreshPageFits(NewPage(h.root + n, h.pageSize), record);
    if r.Ok? {
      InsertIntoPage(g, n, page, r.value, record);
    }
  }

  // ---------------------------------------------------------------- lookup and deletion

  // Page ids are consecutive, so the search by id finds exactly page id - root.
  lemma {:induction false} FindPageIsOffset(h: HeapState, id: PageId, i: nat)
    requires HeapInv(h) && i <= |h.pages|
    ensures FindPage(h, id, i) == if i <= id - h.root < |h.pages| then Some(id - h.root) else None
    decreases |h.pages| - i
  {
    hide PageInv, HeapContents, HeapInv;
    if i < |h.pages| {
      PageAt(h, i);
      FindPageIsOffset(h, id, i + 1);
    }
  }

  lemma ReadRefinesMap(h: HeapState, rid: RecordId)
    requires HeapInv(h)
    ensures HeapRead(h, rid) ==
            if rid in HeapContents(h) then Ok(RecordView(rid, HeapContents(h)[rid])) else Err(NotFound)
  {
    hide PageInv, Contents, Flatten, ReadRecord, HeapInv;
    FindPageIsOffset(h, rid.pageId, 0);
    assert rid in HeapContents(h) <==> InFlat(h.root, PageMaps(h.pages), rid);
    var i := rid.pageId - h.root;
    if 0 <= i < |h.pages| {
      PageAt(h, i);
      ReadIsLookup(h.pages[i], rid.slotId);
    }
  }

  lemma DeleteRefinesMap(h: HeapState, rid: RecordId)
    requires HeapInv(h)
    ensures var (h', status) := HeapDelete(h, rid);
            && HeapInv(h') && SameShape(h, h')
            && HeapContents(h') == HeapContents(h) - {rid}
            && (if rid in HeapContents(h) then status.Ok? else status == Err(NotFound) && h' == h)
  {
    hide PageInv, Contents, Flatten, DeleteRecord, HeapInv;
    FindPageIsOffset(h, rid.pageId, 0);
    assert rid in HeapContents(h) <==> InFlat(h.root, PageMaps(h.pages), rid);
    var i := rid.pageId - h.root;
    if 0 <= i < |h.pages| {
      PageAt(h, i);
      DeleteRemovesOneSlot(h.pages[i], rid.slotId);
      if rid in HeapContents(h) {
        DeleteFromPage(h, i, DeleteRecord(h.pages[i], rid.slotId).0, rid.slotId);
      }
    }
    if rid !in HeapContents(h) {
      assert HeapContents(h) - {rid} == HeapContents(h);
    }
  }

  // ---------------------------------------------------------------- the live counter

  // The records of one page, keyed by its id.
  lemma FlattenLast(root: PageId, ms: seq<SlotMap>, m: SlotMap)
    requires root + |ms| <= UINT64_MAX
    ensures |Flatten(root, ms + [m])| == |Flatten(root, ms)| + |m|
    decreases |m|
  {
    hide Flatten;
    if m == map[] {
      FlattenAppendEmpty(root, ms);
    } else {
      var slot :| slot in m;
      var rest := m - {slot};
      FlattenLast(root, ms, rest);
      assert (ms + [rest])[|ms| := m] == ms + [m] && m == rest[slot := m[slot]];
      FlattenInsert(root, ms + [rest], |ms|, slot, m[slot], m);
      var id := RecordId(root + |ms|, slot);
      assert !InFlat(root, ms + [rest], id);
      OneKeyMore(Flatten(root, ms + [rest]), id, m[slot]);
      OneKeyLess(m, slot);
    }
  }

  // The number of live slots is the number of records the heap holds.
  lemma {:induction false} LiveSlotsAreRecords(root: PageId, pages: seq<PageState>)
    requires root + |pages| <= INVALID_PAGE_ID
    ensures LiveSlots(pages) == |Flatten(root, PageMaps(pages))|
  {
    hide Flatten, Contents;
    if pages == [] {
      assert Flatten(root, PageMaps(pages)) == map[];
    } else {
      var n := |pages| - 1;
      LiveSlotsAreRecords(root, pages[..n]);
      assert PageMaps(pages) == PageMaps(pages[..n]) + [Contents(pages[n])];
      FlattenLast(root, PageMaps(pages[..n]), Contents(pages[n]));
    }
  }

  lemma CounterIsExact(h: HeapState)
    requires HeapInv(h)
    ensures h.active == |HeapContents(h)|
  {
    hide PageOf, Contents, Flatten;
    LiveSlotsAreRecords(h.root, h.pages);
  }

  // ---------------------------------------------------------------- the code

  // A failed page operation returns the page it was given.
  lemma FailedPageOperation(p: PageState, record: Bytes, slot: SlotId)
    ensures InsertRecord(p, record).1.Err? ==> InsertRecord(p, record).0 == p
    ensures InsertRecord(p, record).0.pageId == p.pageId
    ensures DeleteRecord(p, slot).1.Err? ==> DeleteRecord(p, slot).0 == p
  {
  }

  lemma AllocationShape(h: HeapState)
    ensures var (g, status) := AllocatePage(h);
            if status.Err? then g == h
            else |g.pages| == |h.pages| + 1 && g.pages[..|h.pages|] == h.pages && g == h.(pages := g.pages)
  {
  }

  // The shared Impl of the source: handles and cursors are references to it.
  class PageHeapTable {
    const rootPageId: PageId
    const pageSize: nat
    var activeRecords: nat
    var pages: seq<PageFrame>
    ghost var model: seq<PageState>

    ghost var Repr: set<object>

    // No two pages share a header or a buffer, and model is the list of their states.
    ghost predicate Valid()
      reads this, Repr
    {
      && this in Repr
      && |model| == |pages|
      && (forall i :: 0 <= i < |pages| ==> pages[i] in Repr && pages[i].bytes in Repr && pages[i].State() == model[i])
      && (forall i, j :: 0 <= i < j < |pages| ==> pages[i] != pages[j] && pages[i].bytes != pages[j].bytes)
    }

    ghost function State(): HeapState
      reads this
    {
      HeapState(rootPageId, pageSize, activeRecords, model)
    }

    constructor (root: PageId, size: nat)
      ensures Valid() && fresh(Repr) && State() == EmptyHeap(root, size)
    {
      rootPageId, pageSize := root, size;
      activeRecords, pages, model, Repr := 0, [], [], {this};
    }

    // Appends a fresh frame, or nothing when it cannot be initialized.
    method AllocatePageFrame() returns (status: Status)
      requires Valid()
      modifies this
      ensures Valid() && fresh(Repr - old(Repr))
      ensures (State(), status) == AllocatePage(old(State()))
      ensures status.Ok? ==> |pages| > 0 && fresh(pages[|pages| - 1]) && fresh(pages[|pages| - 1].bytes)
    {
      hide InitializePage;
      if rootPageId == INVALID_PAGE_ID { return Err(InvalidArgument); }
      if pageSize == 0 { return Err(InvalidArgument); }
      if |pages| > MAX_VALID_PAGE_ID - rootPageId { return Err(Internal); }

      var frame := new PageFrame(rootPageId + |pages|, pageSize);
      assert frame.State() == NewPage(rootPageId + |pages|, pageSize);
      pages := pages + [frame];
      status := frame.Initialize(PageKind.Heap);
      if status.Err? {
        pages := pages[..|pages| - 1];
        assert pages == old(pages);
      } else {
        model, Repr := model + [frame.State()], Repr + {frame, frame.bytes};
      }
    }

    method InsertIntoFrame(i: nat, record: Bytes) returns (r: Result<SlotId>)
      requires Valid() && i < |pages|
      modifies this`model, pages[i], pages[i].bytes
      ensures Valid()
      ensures r == InsertRecord(old(model)[i], record).1
      ensures model == old(model)[i := InsertRecord(old(model)[i], record).0]
      ensures r.Err? ==> model == old(model)
    {
      hide InsertRecord, PageFrame.State;
      FailedPageOperation(model[i], record, 0);
      r := pages[i].Insert(record);
      model := model[i := pages[i].State()];
    }

    method DeleteFromFrame(i: nat, slot: SlotId) returns (status: Status)
      requires Valid() && i < |pages|
      modifies this`model, pages[i], pages[i].bytes
      ensures Valid()
      ensures status == DeleteRecord(old(model)[i], slot).1
      ensures model == old(model)[i := DeleteRecord(old(model)[i], slot).0]
      ensures status.Err? ==> model == old(model)
    {
      hide DeleteRecord, PageFrame.State;
      FailedPageOperation(model[i], [], slot);
      status := pages[i].Delete(slot);
      model := model[i := pages[i].State()];
    }

    method InsertIntoNewFrame(record: Bytes) returns (r: Result<RecordId>)
      requires Valid()
      modifies this
      ensures Valid() && fresh(Repr - old(Repr))
      ensures (State(), r) == InsertIntoNewPage(old(State()), record)
    {
      hide InsertRecord, AllocatePage;
      ghost var before := State();
      var status := AllocatePageFrame();
      AllocationShape(before);
      if status.Err? {
        return Err(status.error);
      }
      var n := |pages| - 1;
      FailedPageOperation(model[n], record, 0);
      var slot := InsertIntoFrame(n, record);
      if slot.Err? {
        pages, model := pages[..n], model[..n];
        return Err(slot.error);
      }
      activeRecords := activeRecords + 1;
      return Ok(RecordId(pages[n].pageId, slot.value));
    }

    method Insert(record: Bytes) returns (r: Result<RecordId>)
      requires Valid()
      modifies Repr
      ensures Valid() && fresh(Repr - old(Repr))
      ensures (State(), r) == HeapInsert(old(State()), record)
    {
      hide InsertRecord, InsertIntoNewPage;
      ghost var before := State();
      for i := 0 to |pages|
        invariant pages == old(pages) && Repr == old(Repr) && Valid()
        invariant State() == before
        invariant TryPages(before, record, 0) == TryPages(before, record, i)
      {
        FailedPageOperation(before.pages[i], record, 0);
        var slot := InsertIntoFrame(i, record);
        if slot.Ok? {
          activeRecords := activeRecords + 1;
          return Ok(RecordId(pages[i].pageId, slot.value));
        }
        if slot.error != InvalidArgument {
          return Err(slot.error);
        }
      }
      r := InsertIntoNewFrame(record);
    }

    method FindPageIndex(id: PageId) returns (r: Option<nat>)
      requires Valid()
      ensures r == FindPage(State(), id, 0)
    {
      for i := 0 to |pages|
        invariant FindPage(State(), id, 0) == FindPage(State(), id, i)
      {
        if pages[i].pageId == id {
          return Some(i);
        }
      }
      return None;
    }

    method Read(rid: RecordId) returns (r: Result<RecordView>)
      requires Valid()
      ensures r == HeapRead(State(), rid)
    {
      var page := FindPageIndex(rid.pageId);
      if page.None? {
        return Err(NotFound);
      }
      r := pages[page.value].Read(rid.slotId);
    }

    method Delete(rid: RecordId) returns (status: Status)
      requires Valid()
      modifies Repr
      ensures Valid() && Repr == old(Repr)
      ensures (State(), status) == HeapDelete(old(State()), rid)
    {
      hide DeleteRecord;
      var page := FindPageIndex(rid.pageId);
      if page.None? {
        return Err(NotFound);
      }
      status := DeleteFromFrame(page.value, rid.slotId);
      if status.Ok? {
        activeRecords := Decremented(activeRecords);
      }
    }

    method RecordCount() returns (count: nat)
      ensures count == State().active
    {
      return activeRecords;
    }
  }

  class HeapCursor {
    const heap: PageHeapTable
    var pageIndex: nat
    var slotId: nat

    function Pos(): CursorPos
      reads this
    {
      CursorPos(pageIndex, slotId)
    }

    constructor (h: PageHeapTable)
      ensures heap == h && Pos() == SCAN_START
    {
      heap := h;
      pageIndex, slotId := 0, 0;
    }

    method Next() returns (r: Result<RecordView>)
      requires heap.Valid()
      modifies this
      ensures (Pos(), r) == NextRecord(heap.State(), old(Pos()))
    {
      hide ReadRecord, CountedSlots;
      ghost var h := heap.State();
      while pageIndex < |heap.pages|
        invariant heap.State() == h && heap.Valid()
        invariant NextRecord(h, Pos()) == NextRecord(h, old(Pos()))
        decreases |h.pages| - pageIndex
      {
        var page := heap.pages[pageIndex];
        assert page.State() == h.pages[pageIndex];
        ghost var current := pageIndex;
        var slotCount := page.GetSlotCount();
        while slotId < slotCount
          invariant heap.Valid() && pageIndex == current && pageIndex < |h.pages| && page.State() == h.pages[pageIndex] && heap.State() == h
          invariant slotCount == CountedSlots(h.pages[pageIndex])
          invariant NextRecord(h, Pos()) == NextRecord(h, old(Pos()))
          decreases slotCount - slotId
        {
          var slot: SlotId := slotId;
          slotId := slotId + 1;
          r := page.Read(slot);
          if r.Ok? {
            return;
          }
          if r.error != NotFound {
            return;
          }
        }
        pageIndex := pageIndex + 1;
        slotId := 0;
      }
      return Err(NotFound);
    }
  }
}
