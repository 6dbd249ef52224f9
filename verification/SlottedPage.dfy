/**
  slotted_page.cpp: a page whose slot directory grows up from offset 0 and whose record
  bytes grow down from the end of the same buffer. Deleting a record leaves a tombstone in
  the directory; a later insertion reuses the tombstone's slot id but not its bytes.

  The first half describes a page as a value and each operation as a function on it; the
  class at the end is the code, proved to compute those functions in place.
 */
module SlottedPage {
  import opened Common
  import opened ByteIo

  const SLOT_ENTRY_SIZE: nat := 6

  datatype PageKind = Free | Heap | BTreeInternal | BTreeLeaf | CatalogPage | Wal

  datatype SlotEntry = SlotEntry(offset: uint16, size: uint16, flags: uint16) {
    // flags & kSlotDeleted
    predicate IsDeleted() {
      flags % 2 == 1
    }
  }

  datatype RecordId = RecordId(pageId: PageId, slotId: SlotId)
  datatype RecordView = RecordView(id: RecordId, bytes: Bytes)

  datatype PageState = PageState(
    pageId: PageId, kind: PageKind, lsn: uint64, flags: uint16,
    lower: uint16, upper: uint16, bytes: Bytes)

  // ---------------------------------------------------------------- directory codec

  function EntryBytes(e: SlotEntry): (s: Bytes)
    ensures |s| == SLOT_ENTRY_SIZE
  {
    LittleEndian(2, e.offset) + LittleEndian(2, e.size) + LittleEndian(2, e.flags)
  }

  function U16At(bytes: Bytes, offset: nat): uint16
    requires offset + 2 <= |bytes|
  {
    bytes[offset] + 256 * (bytes[offset + 1] as int)
  }

  lemma TwoBytes(s: Bytes)
    requires |s| == 2
    ensures FromLittleEndian(s) == U16At(s, 0)
  {
    assert s[1..] == [s[1]];
    assert FromLittleEndian(s[1..]) == s[1] + 256 * FromLittleEndian(s[1..][1..]);
  }

  function ReadSlot(bytes: Bytes, slot: nat): SlotEntry
    requires SLOT_ENTRY_SIZE * (slot + 1) <= |bytes|
  {
    var at := SLOT_ENTRY_SIZE * slot;
    SlotEntry(U16At(bytes, at), U16At(bytes, at + 2), U16At(bytes, at + 4))
  }

  function WriteSlot(bytes: Bytes, slot: nat, e: SlotEntry): (r: Bytes)
    requires SLOT_ENTRY_SIZE * (slot + 1) <= |bytes|
    ensures |r| == |bytes|
  {
    Splice(bytes, SLOT_ENTRY_SIZE * slot, EntryBytes(e))
  }

  // The first `count` entries of the directory.
  function Directory(bytes: Bytes, count: nat): (d: seq<SlotEntry>)
    requires SLOT_ENTRY_SIZE * count <= |bytes|
    ensures |d| == count
    ensures forall i :: 0 <= i < count ==> d[i] == ReadSlot(bytes, i)
  {
    seq(count, i requires 0 <= i < count => ReadSlot(bytes, i))
  }

  lemma LittleEndianTwo(v: uint16)
    ensures LittleEndian(2, v) == [v % 256, v / 256]
  {
    assert LittleEndian(1, v / 256) == [v / 256] + LittleEndian(0, 0);
  }

  lemma EntryRoundTrip(e: SlotEntry)
    ensures ReadSlot(EntryBytes(e), 0) == e
  {
    LittleEndianTwo(e.offset);
    LittleEndianTwo(e.size);
    LittleEndianTwo(e.flags);
  }

  // Reading slot i depends on its own six bytes only.
  lemma ReadSlotFrame(a: Bytes, b: Bytes, i: nat, j: nat)
    requires SLOT_ENTRY_SIZE * (i + 1) <= |a| && SLOT_ENTRY_SIZE * (j + 1) <= |b|
    requires a[SLOT_ENTRY_SIZE * i..SLOT_ENTRY_SIZE * (i + 1)] == b[SLOT_ENTRY_SIZE * j..SLOT_ENTRY_SIZE * (j + 1)]
    ensures ReadSlot(a, i) == ReadSlot(b, j)
  {
    var x, y := SLOT_ENTRY_SIZE * i, SLOT_ENTRY_SIZE * j;
    var s, t := a[x..x + SLOT_ENTRY_SIZE], b[y..y + SLOT_ENTRY_SIZE];
    assert forall k :: 0 <= k < SLOT_ENTRY_SIZE ==> a[x + k] == s[k];
    assert forall k :: 0 <= k < SLOT_ENTRY_SIZE ==> b[y + k] == t[k];
    assert a[x + 0] == s[0] && a[x + 1] == s[1] && a[x + 2] == s[2] && a[x + 3] == s[3] && a[x + 4] == s[4] && a[x + 5] == s[5];
    assert b[y + 0] == t[0] && b[y + 1] == t[1] && b[y + 2] == t[2] && b[y + 3] == t[3] && b[y + 4] == t[4] && b[y + 5] == t[5];
  }

  // The directory is an array of independent entries: writing slot j is an update at j.
  lemma DirectoryAfterWrite(bytes: Bytes, j: nat, e: SlotEntry, count: nat)
    requires SLOT_ENTRY_SIZE * count <= |bytes| && j < count
    ensures Directory(WriteSlot(bytes, j, e), count) == Directory(bytes, count)[j := e]
  {
    var w := WriteSlot(bytes, j, e);
    forall i | 0 <= i < count
      ensures ReadSlot(w, i) == if i == j then e else ReadSlot(bytes, i)
    {
      if i == j {
        EntryRoundTrip(e);
        ReadSlotFrame(w, EntryBytes(e), i, 0);
      } else {
        ReadSlotFrame(w, bytes, i, i);
      }
    }
  }

  lemma DirectoryFrame(a: Bytes, b: Bytes, count: nat)
    requires SLOT_ENTRY_SIZE * count <= |a| && SLOT_ENTRY_SIZE * count <= |b|
    requires forall k :: 0 <= k < SLOT_ENTRY_SIZE * count ==> a[k] == b[k]
    ensures Directory(a, count) == Directory(b, count)
  {
    forall i | 0 <= i < count
      ensures ReadSlot(a, i) == ReadSlot(b, i)
    {
      ReadSlotFrame(a, b, i, i);
    }
  }

  // ---------------------------------------------------------------- the operations on values

  function ValidateHeader(p: PageState): Status {
    if |p.bytes| == 0 then Err(InvalidArgument)
    else if |p.bytes| > UINT16_MAX then Err(InvalidArgument)
    else if p.kind == Free then Err(Corruption)
    else if p.lower > p.upper || p.upper > |p.bytes| then Err(Corruption)
    else if p.lower % SLOT_ENTRY_SIZE != 0 then Err(Corruption)
    else OkStatus
  }

  function SlotCount(p: PageState): nat {
    p.lower / SLOT_ENTRY_SIZE
  }

  function Slots(p: PageState): (slots: seq<SlotEntry>)
    requires ValidateHeader(p).Ok?
    ensures |slots| == SlotCount(p)
  {
    Directory(p.bytes, SlotCount(p))
  }

  function ValidateSlotBounds(p: PageState, e: SlotEntry): Status {
    if e.offset > |p.bytes| || e.size > |p.bytes| - e.offset then Err(Corruption)
    else if e.offset < p.upper then Err(Corruption)
    else OkStatus
  }

  // The first tombstone at or after slot `from`.
  function FirstTombstone(slots: seq<SlotEntry>, from: nat): (r: Option<nat>)
    requires from <= |slots|
    ensures r.None? ==> forall i :: from <= i < |slots| ==> !slots[i].IsDeleted()
    ensures r.Some? ==> from <= r.value < |slots| && slots[r.value].IsDeleted()
    ensures r.Some? ==> forall i :: from <= i < r.value ==> !slots[i].IsDeleted()
    decreases |slots| - from
  {
    if from == |slots| then None
    else if slots[from].IsDeleted() then Some(from)
    else FirstTombstone(slots, from + 1)
  }

  function InitializePage(p: PageState, kind: PageKind): (PageState, Status) {
    if |p.bytes| == 0 || |p.bytes| > UINT16_MAX || kind == Free then
      (p, Err(InvalidArgument))
    else
      (p.(kind := kind, lsn := UINT64_MAX, flags := 0, lower := 0, upper := |p.bytes|,
          bytes := Zeros(|p.bytes|)),
       OkStatus)
  }

  // Where an insertion puts its slot: the first tombstone, or a new entry at the end.
  function TargetSlot(p: PageState): (slot: SlotId)
    requires ValidateHeader(p).Ok?
    ensures slot <= SlotCount(p)
  {
    var deleted := FirstTombstone(Slots(p), 0);
    if deleted.Some? then deleted.value else SlotCount(p)
  }

  // Directory bytes the insertion needs besides the record.
  function SlotCost(p: PageState): nat
    requires ValidateHeader(p).Ok?
  {
    if TargetSlot(p) < SlotCount(p) then 0 else SLOT_ENTRY_SIZE
  }

  predicate Fits(p: PageState, record: Bytes) {
    ValidateHeader(p).Ok? && |record| + SlotCost(p) <= p.upper - p.lower
  }

  function Inserted(p: PageState, record: Bytes): PageState
    requires Fits(p, record)
  {
    var offset: uint16 := p.upper - |record|;
    var lower: uint16 := p.lower + SlotCost(p);
    var copied := Splice(p.bytes, offset, record);
    var bytes := WriteSlot(copied, TargetSlot(p), SlotEntry(offset, |record|, 0));
    p.(lower := lower, upper := offset, bytes := bytes)
  }

  function InsertRecord(p: PageState, record: Bytes): (PageState, Result<SlotId>) {
    var header := ValidateHeader(p);
    if header.Err? then (p, Err(header.error))
    else if |record| > UINT16_MAX || !Fits(p, record) then (p, Err(InvalidArgument))
    else (Inserted(p, record), Ok(TargetSlot(p)))
  }

  function ReadRecord(p: PageState, slot: SlotId): Result<RecordView> {
    var header := ValidateHeader(p);
    if header.Err? then Err(header.error)
    else if slot >= SlotCount(p) then Err(NotFound)
    else
      var e := Slots(p)[slot];
      if e.IsDeleted() then Err(NotFound)
      else
        var bounds := ValidateSlotBounds(p, e);
        if bounds.Err? then Err(bounds.error)
        else Ok(RecordView(RecordId(p.pageId, slot), p.bytes[e.offset..e.offset + e.size]))
  }

  function DeleteRecord(p: PageState, slot: SlotId): (PageState, Status) {
    var header := ValidateHeader(p);
    if header.Err? then (p, Err(header.error))
    else if slot >= SlotCount(p) then (p, Err(NotFound))
    else
      var e := Slots(p)[slot];
      if e.IsDeleted() then (p, Err(NotFound))
      else
        var bounds := ValidateSlotBounds(p, e);
        if bounds.Err? then (p, Err(bounds.error))
        else (Tombstoned(p, slot), OkStatus)
  }

  // flags |= kSlotDeleted, on an even value
  function Tombstoned(p: PageState, slot: SlotId): PageState
    requires ValidateHeader(p).Ok? && LiveSlot(Slots(p), slot)
  {
    var e := Slots(p)[slot];
    p.(bytes := WriteSlot(p.bytes, slot, e.(flags := e.flags + 1)))
  }

  function FreeSpace(p: PageState): nat {
    if ValidateHeader(p).Err? then 0 else p.upper - p.lower
  }

  function CountedSlots(p: PageState): (count: nat)
    ensures count <= UINT16_MAX
  {
    if ValidateHeader(p).Err? then 0 else SlotCount(p)
  }

  // ---------------------------------------------------------------- layout of a directory

  predicate Apart(a: SlotEntry, b: SlotEntry) {
    a.offset + a.size <= b.offset || b.offset + b.size <= a.offset
  }

  // Every entry (live or deleted) addresses bytes in [upper, size), no two entries share a
  // byte, and no flag but the tombstone bit is ever set.
  ghost predicate Layout(slots: seq<SlotEntry>, upper: nat, size: nat) {
    && (forall i :: 0 <= i < |slots| ==>
          upper <= slots[i].offset && slots[i].offset + slots[i].size <= size && slots[i].flags <= 1)
    && (forall i, j :: 0 <= i < j < |slots| ==> Apart(slots[i], slots[j]))
  }

  predicate LiveSlot(slots: seq<SlotEntry>, slot: int) {
    0 <= slot < |slots| && !slots[slot].IsDeleted()
  }

  function Payload(e: SlotEntry, bytes: Bytes): Bytes {
    if e.offset + e.size <= |bytes| then bytes[e.offset..e.offset + e.size] else []
  }

  ghost function LiveContents(slots: seq<SlotEntry>, bytes: Bytes): map<SlotId, Bytes> {
    map slot: SlotId | 0 <= slot < |slots| && LiveSlot(slots, slot) :: Payload(slots[slot], bytes)
  }

  // Updating or appending one entry whose payload lies in a fresh region below `upper`.
  lemma LayoutAfterInsert(slots: seq<SlotEntry>, upper: nat, size: nat, slot: nat, e: SlotEntry, slots': seq<SlotEntry>)
    requires Layout(slots, upper, size) && slot <= |slots|
    requires slots' == if slot < |slots| then slots[slot := e] else slots + [e]
    requires e.offset + e.size == upper <= size && e.flags == 0
    ensures Layout(slots', e.offset, size)
  {
  }

  lemma ContentsAfterInsert(slots: seq<SlotEntry>, bytes: Bytes, upper: nat, slot: SlotId, e: SlotEntry,
                            slots': seq<SlotEntry>, bytes': Bytes, record: Bytes)
    requires Layout(slots, upper, |bytes|) && slot <= |slots| && |bytes'| == |bytes|
    requires slots' == if slot < |slots| then slots[slot := e] else slots + [e]
    requires e.offset + e.size == upper <= |bytes| && e.size == |record| && e.flags == 0
    requires bytes'[e.offset..upper] == record
    requires forall k :: upper <= k < |bytes| ==> bytes'[k] == bytes[k]
    ensures LiveContents(slots', bytes') == LiveContents(slots, bytes)[slot := record]
  {
    forall i: SlotId | 0 <= i < |slots'| && LiveSlot(slots', i) && i != slot
      ensures LiveSlot(slots, i) && Payload(slots'[i], bytes') == Payload(slots[i], bytes)
    {
    }
    assert LiveSlot(slots', slot) && Payload(slots'[slot], bytes') == record;
  }

  lemma DeletedLayout(slots: seq<SlotEntry>, upper: nat, size: nat, slot: nat)
    requires Layout(slots, upper, size) && LiveSlot(slots, slot)
    ensures Layout(slots[slot := slots[slot].(flags := 1)], upper, size)
  {
  }

  lemma ContentsAfterDelete(slots: seq<SlotEntry>, bytes: Bytes, upper: nat, slot: SlotId, bytes': Bytes)
    requires Layout(slots, upper, |bytes|) && LiveSlot(slots, slot) && |bytes'| == |bytes|
    requires forall k :: upper <= k < |bytes| ==> bytes'[k] == bytes[k]
    ensures LiveContents(slots[slot := slots[slot].(flags := 1)], bytes') == LiveContents(slots, bytes) - {slot}
  {
    var slots' := slots[slot := slots[slot].(flags := 1)];
    forall i: SlotId | 0 <= i < |slots'| && LiveSlot(slots', i)
      ensures i != slot && LiveSlot(slots, i) && Payload(slots'[i], bytes') == Payload(slots[i], bytes)
    {
    }
  }

  // ---------------------------------------------------------------- the page invariant

  // A well-formed header and a directory whose entries are laid out above upper.
  ghost predicate PageInv(p: PageState) {
    ValidateHeader(p).Ok? && Layout(Slots(p), p.upper, |p.bytes|)
  }

  // What the page means: the live slots and their bytes.
  ghost function Contents(p: PageState): map<SlotId, Bytes> {
    if ValidateHeader(p).Ok? then LiveContents(Slots(p), p.bytes) else map[]
  }

  lemma InitializeIsEmpty(p: PageState, kind: PageKind)
    ensures var (q, status) := InitializePage(p, kind);
            if status.Ok?
            then PageInv(q) && Contents(q) == map[] && |q.bytes| == |p.bytes| && q.pageId == p.pageId && q.kind == kind
            else q == p && status == Err(InvalidArgument)
    ensures InitializePage(p, kind).1.Ok? <==> 0 < |p.bytes| <= UINT16_MAX && kind != Free
  {
  }

  // What an insertion at `slot` does to a buffer whose directory has n entries.
  lemma BytesAfterInsert(bytes: Bytes, n: nat, slot: nat, offset: nat, record: Bytes, e: SlotEntry, m: nat)
    requires slot <= n && m == (if slot < n then n else n + 1)
    requires SLOT_ENTRY_SIZE * m <= offset && offset + |record| <= |bytes|
    ensures var w := WriteSlot(Splice(bytes, offset, record), slot, e);
            && Directory(w, m) == (if slot < n then Directory(bytes, n)[slot := e] else Directory(bytes, n) + [e])
            && w[offset..offset + |record|] == record
            && forall k :: offset + |record| <= k < |bytes| ==> w[k] == bytes[k]
  {
    var copied := Splice(bytes, offset, record);
    DirectoryFrame(copied, bytes, n);
    DirectoryAfterWrite(copied, slot, e, m);
    if slot == n {
      assert Directory(copied, m) == Directory(copied, n) + [ReadSlot(copied, n)];
    }
  }

  lemma SlotsAfterInsert(p: PageState, record: Bytes)
    requires Fits(p, record)
    ensures var q := Inserted(p, record);
            var e := SlotEntry(q.upper, |record|, 0);
            && ValidateHeader(q).Ok?
            && Slots(q) == (if TargetSlot(p) < SlotCount(p) then Slots(p)[TargetSlot(p) := e] else Slots(p) + [e])
            && q.bytes[q.upper..p.upper] == record
            && forall k :: p.upper <= k < |p.bytes| ==> q.bytes[k] == p.bytes[k]
  {
    hide ReadSlot, EntryBytes;
    var q := Inserted(p, record);
    var n, slot := SlotCount(p), TargetSlot(p);
    var m := if slot < n then n else n + 1;
    assert q.lower == SLOT_ENTRY_SIZE * m && SlotCount(q) == m;
    assert q.bytes == WriteSlot(Splice(p.bytes, q.upper, record), slot, SlotEntry(q.upper, |record|, 0));
    BytesAfterInsert(p.bytes, n, slot, q.upper, record, SlotEntry(q.upper, |record|, 0), m);
  }

  // One insertion adds exactly one key that was not live, keeps every other slot's bytes,
  // and keeps the invariant; it fails only for lack of space and then changes nothing.
  lemma InsertAddsOneSlot(p: PageState, record: Bytes)
    requires PageInv(p)
    ensures var (q, r) := InsertRecord(p, record);
            && PageInv(q)
            && q.pageId == p.pageId && q.kind == p.kind && |q.bytes| == |p.bytes|
            && SlotCount(p) <= SlotCount(q)
            && (r.Ok? <==> Fits(p, record))
            && (r.Err? ==> r.error == InvalidArgument && q == p)
            && (r.Ok? ==> r.value !in Contents(p) && Contents(q) == Contents(p)[r.value := record])
  {
    hide ReadSlot, EntryBytes, Directory;
    if Fits(p, record) {
      var q := Inserted(p, record);
      var e := SlotEntry(q.upper, |record|, 0);
      var slot := TargetSlot(p);
      SlotsAfterInsert(p, record);
      LayoutAfterInsert(Slots(p), p.upper, |p.bytes|, slot, e, Slots(q));
      ContentsAfterInsert(Slots(p), p.bytes, p.upper, slot, e, Slots(q), q.bytes, record);
    }
  }

  // Slots of the directory that hold no record.
  ghost predicate Vacant(p: PageState, slot: nat) {
    slot < SlotCount(p) && slot !in Contents(p)
  }

  lemma TombstonesAreVacant(p: PageState)
    requires ValidateHeader(p).Ok?
    ensures forall i :: 0 <= i < SlotCount(p) ==> (Slots(p)[i].IsDeleted() <==> Vacant(p, i))
  {
    hide ReadSlot, Directory;
    assert SlotCount(p) <= UINT16_MAX;
    forall i | 0 <= i < SlotCount(p) ensures Slots(p)[i].IsDeleted() <==> Vacant(p, i) {
      var slot: SlotId := i;
      assert slot in Contents(p) <==> LiveSlot(Slots(p), slot);
    }
  }

  // A vacant slot is used again, the lowest one first, and then only the record takes space;
  // without one the insertion takes a new slot of six bytes. It fails exactly when that is more
  // than the free space.
  lemma InsertReusesSlots(p: PageState, record: Bytes)
    requires PageInv(p)
    ensures var (q, r) := InsertRecord(p, record);
            var reuse := exists i: nat :: Vacant(p, i);
            var cost := |record| + if reuse then 0 else 6;
            && (r.Ok? <==> cost <= FreeSpace(p))
            && (r.Ok? ==> && FreeSpace(q) == FreeSpace(p) - cost
                          && (if reuse then Vacant(p, r.value) && (forall i :: 0 <= i < r.value ==> !Vacant(p, i)) && SlotCount(q) == SlotCount(p)
                              else r.value == SlotCount(p) && SlotCount(q) == SlotCount(p) + 1))
  {
    hide ReadSlot, EntryBytes, Directory, Vacant, Slots;
    InsertAddsOneSlot(p, record);
    TombstonesAreVacant(p);
    var deleted := FirstTombstone(Slots(p), 0);
    VacantAreSlots(p);
    if deleted.Some? {
      assert Vacant(p, deleted.value);
    }
    if Fits(p, record) {
      SlotsAfterInsert(p, record);
    }
  }

  lemma VacantAreSlots(p: PageState)
    ensures forall i: nat :: Vacant(p, i) ==> i < SlotCount(p)
  {
  }

  // A new page is all free space; deleting frees a slot and no space.
  lemma SpaceExactly(p: PageState, kind: PageKind, slot: SlotId)
    ensures InitializePage(p, kind).1.Ok? ==>
              var q := InitializePage(p, kind).0; FreeSpace(q) == |p.bytes| && SlotCount(q) == 0 && CountedSlots(q) == 0
    ensures PageInv(p) ==>
              && FreeSpace(DeleteRecord(p, slot).0) == FreeSpace(p)
              && CountedSlots(DeleteRecord(p, slot).0) == CountedSlots(p) == SlotCount(p)
  {
    hide ReadSlot, EntryBytes, Directory;
    if PageInv(p) {
      DeleteRemovesOneSlot(p, slot);
    }
  }

  // On any page at all, whole or damaged: what makes its header unusable, and when a slot that
  // is there and not deleted is reported as corrupt.
  lemma DamageIsReported(p: PageState, slot: SlotId)
    ensures var size := |p.bytes|;
            var damaged := p.kind == Free || p.lower > p.upper || p.upper > size || p.lower % 6 != 0;
            && ValidateHeader(p) == (if size == 0 || size > 65535 then Err(InvalidArgument) else if damaged then Err(Corruption) else OkStatus)
            && (ValidateHeader(p).Err? ==>
                  && ReadRecord(p, slot) == Err(ValidateHeader(p).error)
                  && DeleteRecord(p, slot) == (p, ValidateHeader(p))
                  && InsertRecord(p, []) == (p, Err(ValidateHeader(p).error)))
            && (ValidateHeader(p).Ok? && LiveSlot(Slots(p), slot) ==>
                  var e := Slots(p)[slot];
                  var outside := e.offset + e.size > size || e.offset < p.upper;
                  && (ReadRecord(p, slot) == Err(Corruption) <==> outside)
                  && (DeleteRecord(p, slot) == (p, Err(Corruption)) <==> outside))
  {
    hide ReadSlot, EntryBytes, Directory;
  }

  // On a page that keeps the invariant, Read is the lookup in Contents: never Corruption.
  lemma ReadIsLookup(p: PageState, slot: SlotId)
    requires PageInv(p)
    ensures ReadRecord(p, slot) ==
            if slot in Contents(p) then Ok(RecordView(RecordId(p.pageId, slot), Contents(p)[slot]))
            else Err(NotFound)
  {
    assert slot in Contents(p) <==> LiveSlot(Slots(p), slot);
  }

  lemma SlotsAfterDelete(p: PageState, slot: SlotId)
    requires PageInv(p) && LiveSlot(Slots(p), slot)
    ensures var q := Tombstoned(p, slot);
            && ValidateHeader(q).Ok?
            && Slots(q) == Slots(p)[slot := Slots(p)[slot].(flags := 1)]
            && forall k :: p.upper <= k < |p.bytes| ==> q.bytes[k] == p.bytes[k]
  {
    hide ReadSlot, EntryBytes;
    DirectoryAfterWrite(p.bytes, slot, Slots(p)[slot].(flags := 1), SlotCount(p));
  }

  lemma DeleteRemovesOneSlot(p: PageState, slot: SlotId)
    requires PageInv(p)
    ensures var (q, status) := DeleteRecord(p, slot);
            && PageInv(q)
            && q.pageId == p.pageId && q.kind == p.kind && |q.bytes| == |p.bytes|
            && SlotCount(q) == SlotCount(p)
            && (if slot in Contents(p) then status.Ok? else status == Err(NotFound) && q == p)
            && Contents(q) == Contents(p) - {slot}
  {
    assert slot in Contents(p) <==> LiveSlot(Slots(p), slot);
    if LiveSlot(Slots(p), slot) {
      var q := Tombstoned(p, slot);
      SlotsAfterDelete(p, slot);
      DeletedLayout(Slots(p), p.upper, |p.bytes|, slot);
      ContentsAfterDelete(Slots(p), p.bytes, p.upper, slot, q.bytes);
    } else {
      assert Contents(p) - {slot} == Contents(p);
    }
  }

  // ---------------------------------------------------------------- whole runs

  datatype PageOp = InsertOp(record: Bytes) | DeleteOp(slot: SlotId)

  function ApplyOp(p: PageState, op: PageOp): PageState {
    match op
    case InsertOp(record) => InsertRecord(p, record).0
    case DeleteOp(slot) => DeleteRecord(p, slot).0
  }

  function RunPage(p: PageState, ops: seq<PageOp>): PageState
    decreases |ops|
  {
    if ops == [] then p else RunPage(ApplyOp(p, ops[0]), ops[1..])
  }

  // Every page reached from Initialize keeps the layout: the directory ends below the record
  // area, live payloads lie in it without sharing a byte, and Read never reports corruption.
  lemma ReachablePagesAreSound(p: PageState, kind: PageKind, ops: seq<PageOp>, i: SlotId, j: SlotId)
    requires InitializePage(p, kind).1.Ok?
    ensures var q := RunPage(InitializePage(p, kind).0, ops);
            && PageInv(q)
            && SLOT_ENTRY_SIZE * SlotCount(q) <= q.upper <= |q.bytes|
            && ReadRecord(q, i) != Err(Corruption)
            && (LiveSlot(Slots(q), i) && LiveSlot(Slots(q), j) && i != j ==> Apart(Slots(q)[i], Slots(q)[j]))
  {
    InitializeIsEmpty(p, kind);
    var q := RunPage(InitializePage(p, kind).0, ops);
    RunKeepsInvariant(InitializePage(p, kind).0, ops);
    ReadIsLookup(q, i);
    if j < i && LiveSlot(Slots(q), i) {
      assert Apart(Slots(q)[j], Slots(q)[i]);
    }
  }

  lemma {:induction false} RunKeepsInvariant(p: PageState, ops: seq<PageOp>)
    requires PageInv(p)
    ensures PageInv(RunPage(p, ops))
    decreases |ops|
  {
    if ops != [] {
      match ops[0] {
        case InsertOp(record) => InsertAddsOneSlot(p, record);
        case DeleteOp(slot) => DeleteRemovesOneSlot(p, slot);
      }
      RunKeepsInvariant(ApplyOp(p, ops[0]), ops[1..]);
    }
  }

  // ---------------------------------------------------------------- the code

  // A page header together with the buffer it describes.
  class PageFrame {
    var pageId: PageId
    var kind: PageKind
    var lsn: uint64
    var flags: uint16
    var lower: uint16
    var upper: uint16
    const bytes: array<byte>

    ghost function State(): PageState
      reads this, bytes
    {
      PageState(pageId, kind, lsn, flags, lower, upper, bytes[..])
    }

    constructor (id: PageId, pageSize: nat)
      ensures State() == PageState(id, Free, UINT64_MAX, 0, 0, 0, Zeros(pageSize))
      ensures fresh(bytes)
    {
      pageId, kind, lsn, flags, lower, upper := id, Free, UINT64_MAX, 0, 0, 0;
      bytes := new byte[pageSize](_ => 0);
      new;
      assert bytes[..] == Zeros(pageSize);
    }

    method CheckHeader() returns (status: Status)
      ensures status == ValidateHeader(State())
    {
      if bytes.Length == 0 { return Err(InvalidArgument); }
      if bytes.Length > UINT16_MAX { return Err(InvalidArgument); }
      if kind == Free { return Err(Corruption); }
      if lower > upper || upper > bytes.Length { return Err(Corruption); }
      if lower % SLOT_ENTRY_SIZE != 0 { return Err(Corruption); }
      return OkStatus;
    }

    method LoadSlot(slot: nat) returns (e: SlotEntry)
      requires SLOT_ENTRY_SIZE * (slot + 1) <= bytes.Length
      ensures e == ReadSlot(bytes[..], slot)
    {
      var at := SLOT_ENTRY_SIZE * slot;
      var view := bytes[..];
      var _, _, offset := ReadLittleEndian(view, at, 2);
      var _, _, size := ReadLittleEndian(view, at + 2, 2);
      var _, _, entryFlags := ReadLittleEndian(view, at + 4, 2);
      TwoBytes(view[at..at + 2]);
      TwoBytes(view[at + 2..at + 4]);
      TwoBytes(view[at + 4..at + 6]);
      e := SlotEntry(offset, size, entryFlags);
    }

    method StoreSlot(slot: nat, e: SlotEntry)
      requires SLOT_ENTRY_SIZE * (slot + 1) <= bytes.Length
      modifies bytes
      ensures bytes[..] == WriteSlot(old(bytes[..]), slot, e)
    {
      var at := SLOT_ENTRY_SIZE * slot;
      WriteLittleEndianAt(bytes, at, 2, e.offset);
      WriteLittleEndianAt(bytes, at + 2, 2, e.size);
      WriteLittleEndianAt(bytes, at + 4, 2, e.flags);
    }

    method FindDeletedSlot() returns (r: Option<SlotId>)
      requires ValidateHeader(State()).Ok?
      ensures r == FirstTombstone(Slots(State()), 0)
    {
      hide U16At;
      var count := lower / SLOT_ENTRY_SIZE;
      for index := 0 to count
        invariant FirstTombstone(Slots(State()), index) == FirstTombstone(Slots(State()), 0)
      {
        var e := LoadSlot(index);
        if e.IsDeleted() {
          return Some(index);
        }
      }
      return None;
    }

    method Initialize(newKind: PageKind) returns (status: Status)
      modifies this, bytes
      ensures (State(), status) == InitializePage(old(State()), newKind)
    {
      if bytes.Length == 0 { return Err(InvalidArgument); }
      if bytes.Length > UINT16_MAX { return Err(InvalidArgument); }
      if newKind == Free { return Err(InvalidArgument); }
      kind := newKind;
      lsn := UINT64_MAX;
      flags := 0;
      lower := 0;
      upper := bytes.Length;
      forall i | 0 <= i < bytes.Length {
        bytes[i] := 0;
      }
      assert bytes[..] == Zeros(bytes.Length);
      return OkStatus;
    }

    method CopyRecord(offset: nat, record: Bytes)
      requires offset + |record| <= bytes.Length
      modifies bytes
      ensures bytes[..] == Splice(old(bytes[..]), offset, record)
    {
      forall i | 0 <= i < |record| {
        bytes[offset + i] := record[i];
      }
    }

    // Copies the record below upper, writes its entry and moves the two free-space pointers.
    method PlaceRecord(slot: SlotId, record: Bytes)
      requires Fits(State(), record) && slot == TargetSlot(State())
      modifies this, bytes
      ensures State() == Inserted(old(State()), record)
    {
      hide ReadSlot, EntryBytes, Directory, FirstTombstone, WriteSlot;
      var offset: uint16 := upper - |record|;
      CopyRecord(offset, record);
      if slot == lower / SLOT_ENTRY_SIZE {
        lower := lower + SLOT_ENTRY_SIZE;
      }
      StoreSlot(slot, SlotEntry(offset, |record|, 0));
      upper := offset;
    }

    method Insert(record: Bytes) returns (r: Result<SlotId>)
      modifies this, bytes
      ensures (State(), r) == InsertRecord(old(State()), record)
    {
      hide ReadSlot, Directory, Inserted;
      var header := CheckHeader();
      if header.Err? { return Err(header.error); }
      if |record| > UINT16_MAX { return Err(InvalidArgument); }

      var deleted := FindDeletedSlot();
      var slotSpace := if deleted.Some? then 0 else SLOT_ENTRY_SIZE;
      if |record| + slotSpace > upper - lower { return Err(InvalidArgument); }

      var slot: SlotId := if deleted.Some? then deleted.value else lower / SLOT_ENTRY_SIZE;
      PlaceRecord(slot, record);
      return Ok(slot);
    }

    method Read(slot: SlotId) returns (r: Result<RecordView>)
      ensures r == ReadRecord(State(), slot)
    {
      var header := CheckHeader();
      if header.Err? { return Err(header.error); }
      if slot >= lower / SLOT_ENTRY_SIZE { return Err(NotFound); }
      var e := LoadSlot(slot);
      if e.IsDeleted() { return Err(NotFound); }
      if e.offset > bytes.Length || e.size > bytes.Length - e.offset { return Err(Corruption); }
      if e.offset < upper { return Err(Corruption); }
      return Ok(RecordView(RecordId(pageId, slot), bytes[e.offset..e.offset + e.size]));
    }

    method Delete(slot: SlotId) returns (status: Status)
      modifies bytes
      ensures (State(), status) == DeleteRecord(old(State()), slot)
    {
      hide ReadSlot, EntryBytes;
      var header := CheckHeader();
      if header.Err? { return header; }
      if slot >= lower / SLOT_ENTRY_SIZE { return Err(NotFound); }
      var e := LoadSlot(slot);
      if e.IsDeleted() { return Err(NotFound); }
      if e.offset > bytes.Length || e.size > bytes.Length - e.offset { return Err(Corruption); }
      if e.offset < upper { return Err(Corruption); }
      StoreSlot(slot, e.(flags := e.flags + 1));     // flags |= kSlotDeleted on an even value
      return OkStatus;
    }

    method GetFreeSpace() returns (space: nat)
      ensures space == FreeSpace(State())
    {
      var header := CheckHeader();
      if header.Err? { return 0; }
      return upper - lower;
    }

    method GetSlotCount() returns (count: nat)
      ensures count == CountedSlots(State())
    {
      var header := CheckHeader();
      if header.Err? { return 0; }
      return lower / SLOT_ENTRY_SIZE;
    }
  }
}
