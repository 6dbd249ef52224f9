/**
  What a cursor promises when the heap changes between two calls of Next.

  A run is any sequence of insertions, deletions and Next calls on one heap with one cursor.
  Whatever the run, no record id is returned twice, each returned record was live with its
  returned bytes when it was returned, and once the scan has reported its end, every record
  that was live throughout the run has been returned exactly once, with its bytes.
 */
module ScanHistory {
  import opened Common
  import opened ByteIo
  import opened SlottedPage
  import opened Heap

  datatype Event = InsertEvent(record: Bytes) | DeleteEvent(rid: RecordId) | NextEvent

  // ended becomes true at the first end of scan and stays true.
  datatype ScanState = ScanState(heap: HeapState, pos: CursorPos, returned: seq<RecordView>, ended: bool)

  function StartScan(h: HeapState): ScanState {
    ScanState(h, SCAN_START, [], false)
  }

  function StepHeap(h: HeapState, e: Event): HeapState {
    match e
    case InsertEvent(record) => HeapInsert(h, record).0
    case DeleteEvent(rid) => HeapDelete(h, rid).0
    case NextEvent => h
  }

  function Step(s: ScanState, e: Event): ScanState {
    if e.NextEvent? then
      var (pos, r) := NextRecord(s.heap, s.pos);
      if r.Ok? then s.(pos := pos, returned := s.returned + [r.value])
      else s.(pos := pos, ended := true)
    else s.(heap := StepHeap(s.heap, e))
  }

  function Run(s: ScanState, events: seq<Event>): ScanState
    decreases |events|
  {
    if events == [] then s else Run(Step(s, events[0]), events[1..])
  }

  // The record is in the heap, with these bytes, before and after every event of the run.
  ghost predicate LiveThroughout(h: HeapState, events: seq<Event>, rid: RecordId, bytes: Bytes)
    decreases |events|
  {
    && rid in HeapContents(h) && HeapContents(h)[rid] == bytes
    && (events != [] ==> LiveThroughout(StepHeap(h, events[0]), events[1..], rid, bytes))
  }

  // The cursor at pos has passed the record id.
  predicate Passed(root: PageId, rid: RecordId, pos: CursorPos) {
    var page := rid.pageId - root;
    page < pos.page || (page == pos.page && rid.slotId < pos.slot)
  }

  // One call of Next: it moves forward, passes exactly the record it returns among the live
  // ones, and reports the end only when every live record had been passed.
  lemma {:induction false} NextPassesOneRecord(h: HeapState, pos: CursorPos)
    requires HeapInv(h)
    ensures var (pos', r) := NextRecord(h, pos);
            && (forall rid :: Passed(h.root, rid, pos) ==> Passed(h.root, rid, pos'))
            && (r.Err? ==> r.error == NotFound && forall rid :: rid in HeapContents(h) ==> Passed(h.root, rid, pos))
            && (r.Ok? ==>
                  && r.value.id in HeapContents(h) && HeapContents(h)[r.value.id] == r.value.bytes
                  && !Passed(h.root, r.value.id, pos) && Passed(h.root, r.value.id, pos')
                  && forall rid :: rid in HeapContents(h) && Passed(h.root, rid, pos') ==> Passed(h.root, rid, pos) || rid == r.value.id)
    decreases |h.pages| - pos.page, SlotsLeft(h, pos)
  {
    hide PageInv, Contents, Flatten, ReadRecord, HeapInv, CountedSlots;
    if pos.page < |h.pages| {
      PageAt(h, pos.page);
      var page := h.pages[pos.page];
      ContentsInDirectory(page);
      if SlotsLeft(h, pos) > 0 {
        ReadIsLookup(page, pos.slot);
        var id := RecordId(page.pageId, pos.slot);
        assert forall rid: RecordId :: Passed(h.root, rid, pos.(slot := pos.slot + 1)) ==> Passed(h.root, rid, pos) || rid == id;
        assert id in HeapContents(h) <==> InFlat(h.root, PageMaps(h.pages), id);
        if ReadRecord(page, pos.slot).Err? {
          NextPassesOneRecord(h, pos.(slot := pos.slot + 1));
        }
      } else {
        var next := CursorPos(pos.page + 1, 0);
        forall rid | rid in HeapContents(h) && Passed(h.root, rid, next)
          ensures Passed(h.root, rid, pos)
        {
          assert InFlat(h.root, PageMaps(h.pages), rid);
        }
        NextPassesOneRecord(h, next);
      }
    } else {
      forall rid | rid in HeapContents(h) ensures Passed(h.root, rid, pos) {
        assert InFlat(h.root, PageMaps(h.pages), rid);
      }
    }
  }

  lemma ContentsInDirectory(p: PageState)
    requires PageInv(p)
    ensures forall slot :: slot in Contents(p) ==> slot < CountedSlots(p)
  {
  }

  lemma StepHeapKeepsInvariant(h: HeapState, e: Event)
    requires HeapInv(h)
    ensures HeapInv(StepHeap(h, e)) && StepHeap(h, e).root == h.root
  {
    hide HeapInv, HeapInsert, HeapDelete, HeapContents;
    match e {
      case InsertEvent(record) => InsertRefinesMap(h, record);
      case DeleteEvent(rid) => DeleteRefinesMap(h, rid);
      case NextEvent =>
    }
  }

  // Every returned id has been passed, and no id was returned twice.
  ghost predicate ReturnedOnce(s: ScanState) {
    && (forall i :: 0 <= i < |s.returned| ==> Passed(s.heap.root, s.returned[i].id, s.pos))
    && (forall i, j :: 0 <= i < j < |s.returned| ==> s.returned[i].id != s.returned[j].id)
  }

  lemma StepKeepsReturnedOnce(s: ScanState, e: Event)
    requires HeapInv(s.heap) && ReturnedOnce(s)
    ensures HeapInv(Step(s, e).heap) && ReturnedOnce(Step(s, e)) && Step(s, e).heap.root == s.heap.root
  {
    hide HeapInv, HeapInsert, HeapDelete, HeapContents, NextRecord, Passed;
    StepHeapKeepsInvariant(s.heap, e);
    if e.NextEvent? {
      NextPassesOneRecord(s.heap, s.pos);
    }
  }

  ghost predicate WasReturned(s: ScanState, rid: RecordId, bytes: Bytes) {
    exists i :: 0 <= i < |s.returned| && s.returned[i] == RecordView(rid, bytes)
  }

  // For a record that is live now: passed means returned, and an ended scan has passed it.
  ghost predicate Accounted(s: ScanState, rid: RecordId, bytes: Bytes) {
    && (Passed(s.heap.root, rid, s.pos) ==> WasReturned(s, rid, bytes))
    && (s.ended ==> Passed(s.heap.root, rid, s.pos))
  }

  lemma StepKeepsAccounted(s: ScanState, e: Event, rid: RecordId, bytes: Bytes)
    requires HeapInv(s.heap) && Accounted(s, rid, bytes)
    requires rid in HeapContents(s.heap) && HeapContents(s.heap)[rid] == bytes
    ensures Accounted(Step(s, e), rid, bytes)
  {
    hide HeapInv, HeapInsert, HeapDelete, HeapContents, NextRecord, Passed;
    StepHeapKeepsInvariant(s.heap, e);
    var s' := Step(s, e);
    if WasReturned(s, rid, bytes) {
      var i :| 0 <= i < |s.returned| && s.returned[i] == RecordView(rid, bytes);
      assert s'.returned[i] == RecordView(rid, bytes);
    }
    if e.NextEvent? {
      NextPassesOneRecord(s.heap, s.pos);
      var (_, r) := NextRecord(s.heap, s.pos);
      if r.Ok? {
        assert s'.returned[|s.returned|] == r.value;
        assert r.value.id == rid ==> r.value == RecordView(rid, bytes);
      }
    }
  }

  lemma {:induction false} RunKeepsInvariants(s: ScanState, events: seq<Event>)
    requires HeapInv(s.heap) && ReturnedOnce(s)
    ensures var t := Run(s, events); HeapInv(t.heap) && ReturnedOnce(t)
    decreases |events|
  {
    hide HeapInv, HeapInsert, HeapDelete, HeapContents, ReturnedOnce;
    if events != [] {
      StepKeepsReturnedOnce(s, events[0]);
      RunKeepsInvariants(Step(s, events[0]), events[1..]);
    }
  }

  lemma {:induction false} RunAccounts(s: ScanState, events: seq<Event>, rid: RecordId, bytes: Bytes)
    requires HeapInv(s.heap) && ReturnedOnce(s) && Accounted(s, rid, bytes)
    requires LiveThroughout(s.heap, events, rid, bytes)
    ensures Accounted(Run(s, events), rid, bytes)
    decreases |events|
  {
    hide HeapInv, HeapInsert, HeapDelete, HeapContents, ReturnedOnce, Accounted, NextRecord;
    if events != [] {
      StepKeepsReturnedOnce(s, events[0]);
      StepKeepsAccounted(s, events[0], rid, bytes);
      RunAccounts(Step(s, events[0]), events[1..], rid, bytes);
    }
  }

  // Safety of the whole history.
  lemma NothingReturnedTwice(h: HeapState, events: seq<Event>)
    requires HeapInv(h)
    ensures var s := Run(StartScan(h), events);
            && HeapInv(s.heap)
            && forall i, j :: 0 <= i < j < |s.returned| ==> s.returned[i].id != s.returned[j].id
  {
    RunKeepsInvariants(StartScan(h), events);
  }

  // The record returned by any later Next was live, with those bytes, at that moment.
  lemma ReturnedRecordsAreLive(h: HeapState, events: seq<Event>)
    requires HeapInv(h)
    ensures var s := Run(StartScan(h), events);
            var (_, r) := NextRecord(s.heap, s.pos);
            && (r.Ok? ==> r.value.id in HeapContents(s.heap) && HeapContents(s.heap)[r.value.id] == r.value.bytes)
            && (r.Err? ==> r.error == NotFound)
  {
    hide HeapInv, HeapContents, NextRecord, Passed;
    RunKeepsInvariants(StartScan(h), events);
    var s := Run(StartScan(h), events);
    NextPassesOneRecord(s.heap, s.pos);
  }

  // Completeness: after the end of the scan, a record live throughout was returned exactly once.
  lemma LiveThroughoutIsReturnedOnce(h: HeapState, events: seq<Event>, rid: RecordId, bytes: Bytes)
    requires HeapInv(h) && LiveThroughout(h, events, rid, bytes)
    ensures var s := Run(StartScan(h), events);
            s.ended ==>
              exists i :: && 0 <= i < |s.returned| && s.returned[i] == RecordView(rid, bytes)
                          && forall j :: 0 <= j < |s.returned| && j != i ==> s.returned[j].id != rid
  {
    hide HeapInv, HeapContents, NextRecord;
    var start := StartScan(h);
    NotPassedAtStart(h, rid);
    RunKeepsInvariants(start, events);
    RunAccounts(start, events, rid, bytes);
  }

  lemma NotPassedAtStart(h: HeapState, rid: RecordId)
    requires rid in HeapContents(h)
    ensures !Passed(h.root, rid, SCAN_START)
  {
    assert InFlat(h.root, PageMaps(h.pages), rid);
  }
}
