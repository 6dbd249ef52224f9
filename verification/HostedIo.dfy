/**
  hosted_platform_runtime.cpp's I/O queue over memory_block_device.cpp: batches of requests are
  performed at once, in order, and each leaves one completion in a bounded FIFO.

  A request's buffer is a whole array here, and several requests may name the same one.
 */
module HostedIo {
  import opened Common
  import opened ByteIo

  // ---------------------------------------------------------------- the device on values

  datatype DeviceState = DeviceState(valid: bool, blockSize: nat, data: Bytes)

  ghost predicate DeviceInv(d: DeviceState) {
    d.valid ==> d.blockSize > 0 && d.data != [] && |d.data| % d.blockSize == 0
  }

  function MakeDevice(size: uint64, blockSize: nat): DeviceState {
    if blockSize == 0 || size == 0 || size % blockSize != 0 then DeviceState(false, blockSize, [])
    else DeviceState(true, blockSize, Zeros(size))
  }

  function ValidateAccess(d: DeviceState, offset: nat, length: nat): Status
    requires DeviceInv(d)
  {
    if !d.valid then Err(InvalidArgument)
    else if offset % d.blockSize != 0 || length % d.blockSize != 0 then Err(InvalidArgument)
    else if offset > |d.data| then Err(InvalidArgument)
    else if length > |d.data| - offset then Err(InvalidArgument)
    else OkStatus
  }

  lemma AccessIsInRange(d: DeviceState, offset: nat, length: nat)
    requires DeviceInv(d) && ValidateAccess(d, offset, length).Ok?
    ensures offset + length <= |d.data|
  {
  }

  // ---------------------------------------------------------------- requests

  datatype IoOperation = Read | Write | Flush | UnknownOperation

  // A zero id asks for an automatic one; a zero length stands for the whole buffer.
  datatype IoRequest = IoRequest(id: nat, operation: IoOperation, offset: nat, buffer: array<byte>, length: nat, flags: nat, userData: nat)
  datatype IoCompletion = IoCompletion(id: nat, status: Status, bytesTransferred: nat, userData: nat)
  datatype IoSubmission = IoSubmission(submittedCount: nat, firstRequestId: nat)

  type Memory = map<array<byte>, Bytes>

  const MAX_REQUEST_SIZE: nat := 0x10_0000
  const MAX_BATCH_SIZE: nat := 64
  const MAX_OUTSTANDING: nat := 1024
  // Three flags are known: barrier before, barrier after, force unit access.
  const KNOWN_FLAGS: nat := 8

  datatype IoState = IoState(device: Option<DeviceState>, nextId: nat, completions: seq<IoCompletion>, memory: Memory)

  function EffectiveLength(q: IoRequest, size: nat): nat {
    if q.length != 0 then q.length else size
  }

  function ValidateBuffered(length: nat, size: nat): Status {
    if length == 0 then Err(InvalidArgument)
    else if length > size then Err(InvalidArgument)
    else if length > MAX_REQUEST_SIZE then Err(InvalidArgument)
    else OkStatus
  }

  // Flags beyond the known bits, or an operation the switch does not list.
  predicate Malformed(q: IoRequest) {
    q.flags >= KNOWN_FLAGS || q.operation.UnknownOperation?
  }

  datatype Outcome = Outcome(device: DeviceState, memory: Memory, status: Status, transferred: nat)

  function Perform(d: DeviceState, m: Memory, q: IoRequest): Outcome
    requires DeviceInv(d) && q.buffer in m && !q.operation.UnknownOperation?
  {
    var bytes := m[q.buffer];
    var length := EffectiveLength(q, |bytes|);
    if q.operation.Flush? then
      Outcome(d, m, if length > MAX_REQUEST_SIZE then Err(InvalidArgument) else ValidateAccess(d, q.offset, length), 0)
    else
      var buffered := ValidateBuffered(length, |bytes|);
      var status := if buffered.Err? then buffered else ValidateAccess(d, q.offset, length);
      if status.Err? then Outcome(d, m, status, 0)
      else
        AccessIsInRange(d, q.offset, length);
        if q.operation.Read? then
          Outcome(d, m[q.buffer := Splice(bytes, 0, d.data[q.offset..q.offset + length])], status, length)
        else
          Outcome(d.(data := Splice(d.data, q.offset, bytes[..length])), m, status, length)
  }

  // The id a request runs under.
  function ResolvedId(s: IoState, q: IoRequest): nat {
    if q.id == 0 then s.nextId else q.id
  }

  function Enqueued(s: IoState, q: IoRequest, status: Status, transferred: nat): IoState {
    s.(nextId := if q.id == 0 then s.nextId + 1 else s.nextId,
       completions := s.completions + [IoCompletion(ResolvedId(s, q), status, transferred, q.userData)])
  }

  ghost predicate IoInv(s: IoState) {
    && s.nextId > 0 && |s.completions| <= MAX_OUTSTANDING
    && (s.device.Some? ==> DeviceInv(s.device.value))
  }

  function StepRequest(s: IoState, q: IoRequest): IoState
    requires s.device.Some? ==> DeviceInv(s.device.value)
    requires q.buffer in s.memory && !q.operation.UnknownOperation?
  {
    if s.device.None? then Enqueued(s, q, Err(NotSupported), 0)
    else
      var o := Perform(s.device.value, s.memory, q);
      Enqueued(s.(device := Some(o.device), memory := o.memory), q, o.status, o.transferred)
  }

  lemma StepKeepsDevice(s: IoState, q: IoRequest)
    requires (s.device.Some? ==> DeviceInv(s.device.value)) && q.buffer in s.memory && !q.operation.UnknownOperation?
    ensures var s1 := StepRequest(s, q);
            && (s1.device.Some? ==> DeviceInv(s1.device.value)) && s1.memory.Keys == s.memory.Keys
            && (s.device.None? <==> s1.device.None?)
            && (forall b :: b in s.memory ==> |s1.memory[b]| == |s.memory[b]|)
            && |s1.completions| == |s.completions| + 1 && s1.nextId >= s.nextId
  {
  }

  function StepAll(s: IoState, qs: seq<IoRequest>): IoState
    requires s.device.Some? ==> DeviceInv(s.device.value)
    requires forall q :: q in qs ==> q.buffer in s.memory && !q.operation.UnknownOperation?
    decreases |qs|
  {
    if qs == [] then s
    else
      StepKeepsDevice(s, qs[0]);
      StepAll(StepRequest(s, qs[0]), qs[1..])
  }

  function BatchStatus(s: IoState, qs: seq<IoRequest>): Status {
    if qs == [] then Err(InvalidArgument)
    else if |qs| > MAX_BATCH_SIZE then Err(InvalidArgument)
    else if |qs| > MAX_OUTSTANDING - |s.completions| then Err(IoError)
    else if exists i :: 0 <= i < |qs| && Malformed(qs[i]) then Err(InvalidArgument)
    else OkStatus
  }

  function SubmitBatch(s: IoState, qs: seq<IoRequest>): (IoState, Result<IoSubmission>)
    requires IoInv(s) && forall q :: q in qs ==> q.buffer in s.memory
  {
    var status := BatchStatus(s, qs);
    if status.Err? then (s, Err(status.error))
    else (StepAll(s, qs), Ok(IoSubmission(|qs|, ResolvedId(s, qs[0]))))
  }

  // The completions moved to an output span of n places, oldest first.
  function Poll(s: IoState, n: nat): (IoState, Result<seq<IoCompletion>>) {
    if n == 0 then (s, Err(InvalidArgument))
    else
      var k := if n < |s.completions| then n else |s.completions|;
      (s.(completions := s.completions[k..]), Ok(s.completions[..k]))
  }

  // ---------------------------------------------------------------- what is granted

  // A usable device, and whole blocks inside it.
  ghost predicate Granted(d: DeviceState, offset: nat, length: nat) {
    d.valid && d.blockSize > 0 && offset % d.blockSize == 0 && length % d.blockSize == 0 && offset + length <= |d.data|
  }

  lemma AccessExactly(d: DeviceState, offset: nat, length: nat)
    requires DeviceInv(d)
    ensures ValidateAccess(d, offset, length) == if Granted(d, offset, length) then OkStatus else Err(InvalidArgument)
  {
  }

  // A geometry is usable exactly for a positive whole number of blocks, and the device is zero.
  lemma DeviceExactly(size: uint64, blockSize: nat)
    ensures var d := MakeDevice(size, blockSize);
            && DeviceInv(d) && d.blockSize == blockSize
            && (d.valid <==> size > 0 && blockSize > 0 && size % blockSize == 0)
            && (d.valid ==> |d.data| == size && forall i :: 0 <= i < size ==> d.data[i] == 0)
  {
  }

  // The length asked for, the whole buffer when none is given.
  ghost predicate IsLength(q: IoRequest, size: nat, length: nat) {
    if q.length == 0 then length == size else length == q.length
  }

  // A transfer is done exactly for a granted, non-empty range of at most 2^20 bytes that fits
  // the buffer: a read copies it to the front of the buffer, a write copies the front of the
  // buffer over it, and the length is reported. A flush needs a granted range of at most 2^20
  // bytes and moves nothing. Anything else is an invalid argument and changes nothing.
  lemma RequestsExactly(d: DeviceState, m: Memory, q: IoRequest, length: nat)
    requires DeviceInv(d) && q.buffer in m && !q.operation.UnknownOperation? && IsLength(q, |m[q.buffer]|, length)
    ensures var o, bytes := Perform(d, m, q), m[q.buffer];
            var moved := 0 < length <= |bytes| && length <= 1048576 && Granted(d, q.offset, length);
            match q.operation
            case Read =>
              if moved
              then o == Outcome(d, m[q.buffer := d.data[q.offset..q.offset + length] + bytes[length..]], OkStatus, length)
              else o == Outcome(d, m, Err(InvalidArgument), 0)
            case Write =>
              if moved
              then o == Outcome(d.(data := d.data[..q.offset] + bytes[..length] + d.data[q.offset + length..]), m, OkStatus, length)
              else o == Outcome(d, m, Err(InvalidArgument), 0)
            case Flush =>
              o == Outcome(d, m, if length <= 1048576 && Granted(d, q.offset, length) then OkStatus else Err(InvalidArgument), 0)
            case UnknownOperation => true
  {
    hide DeviceInv, ValidateAccess;
    AccessExactly(d, q.offset, length);
    var bytes := m[q.buffer];
    if 0 < length <= |bytes| && Granted(d, q.offset, length) {
      var piece := d.data[q.offset..q.offset + length];
      assert Splice(bytes, 0, piece) == piece + bytes[length..];
      assert Splice(d.data, q.offset, bytes[..length]) == d.data[..q.offset] + bytes[..length] + d.data[q.offset + length..];
    }
  }

  // Every accepted request adds one completion, under its own id or the next automatic one,
  // with what performing it came to; without a device that is NotSupported.
  lemma RequestCompletes(s: IoState, q: IoRequest)
    requires (s.device.Some? ==> DeviceInv(s.device.value)) && q.buffer in s.memory && !q.operation.UnknownOperation?
    ensures var s1 := StepRequest(s, q);
            var id := if q.id == 0 then s.nextId else q.id;
            && (s.device.None? ==>
                  s1 == s.(nextId := s1.nextId, completions := s.completions + [IoCompletion(id, Err(NotSupported), 0, q.userData)]))
            && (s.device.Some? ==>
                  var o := Perform(s.device.value, s.memory, q);
                  && s1.device == Some(o.device) && s1.memory == o.memory
                  && s1.completions == s.completions + [IoCompletion(id, o.status, o.transferred, q.userData)])
            && s1.nextId == if q.id == 0 then s.nextId + 1 else s.nextId
  {
    hide Perform;
  }

  // Polling hands out the oldest completions, as many as fit, and keeps the rest.
  lemma PollExactly(s: IoState, n: nat)
    ensures var (s1, r) := Poll(s, n);
            && (r.Err? <==> n == 0) && (r.Err? ==> r.error == InvalidArgument && s1 == s)
            && (r.Ok? ==> && r.value + s1.completions == s.completions && s1 == s.(completions := s1.completions)
                          && (|r.value| == n || (|r.value| < n && s1.completions == [])))
  {
  }

  // ---------------------------------------------------------------- runs

  // Besides calling the runtime, a client may fill its own buffers.
  datatype IoEvent = Submit(requests: seq<IoRequest>) | Take(n: nat) | Fill(buffer: array<byte>, bytes: Bytes)

  predicate Legal(m: Memory, e: IoEvent) {
    match e
    case Submit(qs) => forall q :: q in qs ==> q.buffer in m
    case Take(_) => true
    case Fill(b, bytes) => b in m && |bytes| == |m[b]|
  }

  // What has happened: tags of accepted requests, completions handed out, ids chosen by callers
  // and ids handed out automatically, and the effective writes, each in order.
  datatype Tag = Tag(id: nat, userData: nat)
  datatype Extent = Extent(offset: nat, bytes: Bytes)
  datatype History = History(accepted: seq<Tag>, polled: seq<IoCompletion>, chosenIds: seq<nat>, autoIds: seq<nat>,
                             writes: seq<Extent>)

  const NO_HISTORY := History([], [], [], [], [])

  function TagOf(c: IoCompletion): Tag {
    Tag(c.id, c.userData)
  }

  function TagsOf(cs: seq<IoCompletion>): (ts: seq<Tag>)
    ensures |ts| == |cs|
    ensures forall i :: 0 <= i < |cs| ==> ts[i] == TagOf(cs[i])
  {
    seq(|cs|, i requires 0 <= i < |cs| => TagOf(cs[i]))
  }

  // The write a request makes to the device, if it makes one.
  function EffectiveWrite(s: IoState, q: IoRequest): Option<Extent>
    requires s.device.Some? ==> DeviceInv(s.device.value)
    requires q.buffer in s.memory && !q.operation.UnknownOperation?
  {
    if q.operation.Write? && s.device.Some? && Perform(s.device.value, s.memory, q).status.Ok? then
      Some(Extent(q.offset, s.memory[q.buffer][..EffectiveLength(q, |s.memory[q.buffer]|)]))
    else None
  }

  function Noted(h: History, s: IoState, q: IoRequest): History
    requires s.device.Some? ==> DeviceInv(s.device.value)
    requires q.buffer in s.memory && !q.operation.UnknownOperation?
  {
    var w := EffectiveWrite(s, q);
    h.(accepted := h.accepted + [Tag(ResolvedId(s, q), q.userData)],
       chosenIds := if q.id == 0 then h.chosenIds else h.chosenIds + [q.id],
       autoIds := if q.id == 0 then h.autoIds + [s.nextId] else h.autoIds,
       writes := if w.Some? then h.writes + [w.value] else h.writes)
  }

  function NotedAll(h: History, s: IoState, qs: seq<IoRequest>): History
    requires s.device.Some? ==> DeviceInv(s.device.value)
    requires forall q :: q in qs ==> q.buffer in s.memory && !q.operation.UnknownOperation?
    decreases |qs|
  {
    if qs == [] then h
    else
      StepKeepsDevice(s, qs[0]);
      NotedAll(Noted(h, s, qs[0]), StepRequest(s, qs[0]), qs[1..])
  }

  datatype Logged = Logged(state: IoState, history: History)

  function StepEvent(x: Logged, e: IoEvent): Logged
    requires IoInv(x.state) && Legal(x.state.memory, e)
  {
    match e
    case Submit(qs) =>
      if BatchStatus(x.state, qs).Err? then x
      else Logged(SubmitBatch(x.state, qs).0, NotedAll(x.history, x.state, qs))
    case Take(n) =>
      var (s, r) := Poll(x.state, n);
      Logged(s, if r.Ok? then x.history.(polled := x.history.polled + r.value) else x.history)
    case Fill(b, bytes) => x.(state := x.state.(memory := x.state.memory[b := bytes]))
  }

  // ---------------------------------------------------------------- the meaning of writes

  function Folded(start: Bytes, writes: seq<Extent>): Bytes
    decreases |writes|
  {
    if writes == [] then start
    else
      var w := writes[|writes| - 1];
      var before := Folded(start, writes[..|writes| - 1]);
      if w.offset + |w.bytes| <= |before| then Splice(before, w.offset, w.bytes) else before
  }

  predicate Covers(w: Extent, k: nat) {
    w.offset <= k < w.offset + |w.bytes|
  }

  // Folding means: each byte is that of the last write covering it, or the original one.
  lemma {:induction false} LastWriteWins(start: Bytes, writes: seq<Extent>, k: nat)
    requires k < |start| && forall i :: 0 <= i < |writes| ==> writes[i].offset + |writes[i].bytes| <= |start|
    ensures |Folded(start, writes)| == |start|
    ensures if forall i :: 0 <= i < |writes| ==> !Covers(writes[i], k) then Folded(start, writes)[k] == start[k]
            else exists i :: && 0 <= i < |writes| && Covers(writes[i], k)
                             && (forall j :: i < j < |writes| ==> !Covers(writes[j], k))
                             && Folded(start, writes)[k] == writes[i].bytes[k - writes[i].offset]
    decreases |writes|
  {
    if writes != [] {
      var n := |writes| - 1;
      var w, front := writes[n], writes[..n];
      LastWriteWins(start, front, k);
      if Covers(w, k) {
        assert Folded(start, writes)[k] == w.bytes[k - w.offset];
      } else {
        assert Folded(start, writes)[k] == Folded(start, front)[k];
        if !forall i :: 0 <= i < |front| ==> !Covers(front[i], k) {
          var i :| 0 <= i < |front| && Covers(front[i], k) && (forall j :: i < j < |front| ==> !Covers(front[j], k))
                   && Folded(start, front)[k] == front[i].bytes[k - front[i].offset];
          assert writes[i] == front[i];
          forall j | i < j < |writes| ensures !Covers(writes[j], k) {
            assert j < n ==> writes[j] == front[j];
          }
        }
      }
    }
  }

  // ---------------------------------------------------------------- what every run keeps

  // Completions follow submission order; automatic ids increase; the device is the fold of the
  // effective writes.
  ghost predicate RunInv(start: Option<DeviceState>, x: Logged) {
    && IoInv(x.state)
    && TagsOf(x.history.polled + x.state.completions) == x.history.accepted
    && (forall i :: 0 <= i < |x.history.autoIds| ==> x.history.autoIds[i] < x.state.nextId)
    && (forall i, j :: 0 <= i < j < |x.history.autoIds| ==> x.history.autoIds[i] < x.history.autoIds[j])
    && DeviceIsFold(start, x.state.device, x.history.writes)
  }

  ghost predicate DeviceIsFold(start: Option<DeviceState>, now: Option<DeviceState>, writes: seq<Extent>) {
    && (start.None? <==> now.None?)
    && (start.Some? ==> now.value == start.value.(data := Folded(start.value.data, writes)))
  }

  lemma TagsExtend(cs: seq<IoCompletion>, c: IoCompletion)
    ensures TagsOf(cs + [c]) == TagsOf(cs) + [TagOf(c)]
  {
  }

  lemma FoldExtends(start: Bytes, writes: seq<Extent>, w: Extent)
    requires w.offset + |w.bytes| <= |Folded(start, writes)|
    ensures Folded(start, writes + [w]) == Splice(Folded(start, writes), w.offset, w.bytes)
  {
    assert (writes + [w])[..|writes|] == writes;
  }

  // One request on the device: only a successful write changes it, by its extent.
  lemma RequestWrites(s: IoState, q: IoRequest)
    requires s.device.Some? && DeviceInv(s.device.value) && q.buffer in s.memory && !q.operation.UnknownOperation?
    ensures var d, d1, w := s.device.value, StepRequest(s, q).device.value, EffectiveWrite(s, q);
            if w.None? then d1 == d
            else w.value.offset + |w.value.bytes| <= |d.data| && d1 == d.(data := Splice(d.data, w.value.offset, w.value.bytes))
  {
  }

  lemma DeviceFollows(start: Option<DeviceState>, s: IoState, writes: seq<Extent>, q: IoRequest)
    requires DeviceIsFold(start, s.device, writes)
    requires (s.device.Some? ==> DeviceInv(s.device.value)) && q.buffer in s.memory && !q.operation.UnknownOperation?
    ensures var w := EffectiveWrite(s, q);
            DeviceIsFold(start, StepRequest(s, q).device, if w.Some? then writes + [w.value] else writes)
  {
    hide Perform, Folded, EffectiveWrite, StepRequest;
    StepKeepsDevice(s, q);
    if s.device.Some? {
      RequestWrites(s, q);
      var w := EffectiveWrite(s, q);
      if w.Some? {
        FoldExtends(start.value.data, writes, w.value);
      }
    } else {
      NoDeviceNoWrite(s, q);
    }
  }

  lemma NoDeviceNoWrite(s: IoState, q: IoRequest)
    requires s.device.None? && q.buffer in s.memory && !q.operation.UnknownOperation?
    ensures EffectiveWrite(s, q).None?
  {
  }

  lemma RequestEnqueues(s: IoState, q: IoRequest)
    requires (s.device.Some? ==> DeviceInv(s.device.value)) && q.buffer in s.memory && !q.operation.UnknownOperation?
    ensures var s1 := StepRequest(s, q);
            && |s1.completions| == |s.completions| + 1 && s1.completions[..|s.completions|] == s.completions
            && TagOf(s1.completions[|s.completions|]) == Tag(ResolvedId(s, q), q.userData)
            && s1.nextId == if q.id == 0 then s.nextId + 1 else s.nextId
  {
    hide Perform;
  }

  lemma StepKeepsRun(start: Option<DeviceState>, x: Logged, q: IoRequest)
    requires RunInv(start, x) && q.buffer in x.state.memory && !q.operation.UnknownOperation?
    requires |x.state.completions| < MAX_OUTSTANDING
    ensures RunInv(start, Logged(StepRequest(x.state, q), Noted(x.history, x.state, q)))
  {
    hide StepRequest, EffectiveWrite, DeviceIsFold, DeviceInv, TagsOf;
    var s1 := StepRequest(x.state, q);
    StepKeepsDevice(x.state, q);
    RequestEnqueues(x.state, q);
    DeviceFollows(start, x.state, x.history.writes, q);
    var c := s1.completions[|x.state.completions|];
    assert s1.completions == x.state.completions + [c];
    assert x.history.polled + s1.completions == (x.history.polled + x.state.completions) + [c];
    TagsExtend(x.history.polled + x.state.completions, c);
  }

  lemma {:induction false} BatchKeepsRun(start: Option<DeviceState>, x: Logged, qs: seq<IoRequest>)
    requires RunInv(start, x) && |qs| <= MAX_OUTSTANDING - |x.state.completions|
    requires forall q :: q in qs ==> q.buffer in x.state.memory && !q.operation.UnknownOperation?
    ensures RunInv(start, Logged(StepAll(x.state, qs), NotedAll(x.history, x.state, qs)))
    decreases |qs|
  {
    hide StepRequest, Noted, RunInv;
    RunInvDevice(start, x);
    if qs != [] {
      StepKeepsDevice(x.state, qs[0]);
      StepKeepsRun(start, x, qs[0]);
      BatchKeepsRun(start, Logged(StepRequest(x.state, qs[0]), Noted(x.history, x.state, qs[0])), qs[1..]);
    }
  }

  lemma RunInvDevice(start: Option<DeviceState>, x: Logged)
    requires RunInv(start, x)
    ensures IoInv(x.state)
  {
  }

  // Every event keeps the run's invariant.
  lemma EventKeepsRun(start: Option<DeviceState>, x: Logged, e: IoEvent)
    requires RunInv(start, x) && Legal(x.state.memory, e)
    ensures RunInv(start, StepEvent(x, e))
  {
    hide StepAll, NotedAll, DeviceIsFold, DeviceInv, TagsOf;
    match e
    case Submit(qs) =>
      if BatchStatus(x.state, qs).Ok? {
        AcceptedAreKnown(x.state, qs);
        BatchKeepsRun(start, x, qs);
      }
    case Take(n) =>
      var (s, r) := Poll(x.state, n);
      if r.Ok? {
        assert (x.history.polled + r.value) + s.completions == x.history.polled + x.state.completions;
      }
    case Fill(_, _) =>
  }

  lemma AcceptedAreKnown(s: IoState, qs: seq<IoRequest>)
    requires BatchStatus(s, qs).Ok?
    ensures forall q :: q in qs ==> !Malformed(q) && !q.operation.UnknownOperation?
  {
  }

  // Buffers keep their sizes whatever happens.
  ghost predicate SameSizes(m: Memory, m1: Memory) {
    m1.Keys == m.Keys && forall b :: b in m ==> |m1[b]| == |m[b]|
  }

  lemma {:induction false} BatchIsSound(s: IoState, qs: seq<IoRequest>)
    requires s.device.Some? ==> DeviceInv(s.device.value)
    requires forall q :: q in qs ==> q.buffer in s.memory && !q.operation.UnknownOperation?
    ensures var s1 := StepAll(s, qs);
            && (s1.device.Some? ==> DeviceInv(s1.device.value)) && SameSizes(s.memory, s1.memory) && s1.nextId >= s.nextId
            && |s1.completions| == |s.completions| + |qs| && s1.completions[..|s.completions|] == s.completions
    decreases |qs|
  {
    hide StepRequest, DeviceInv;
    if qs != [] {
      StepKeepsDevice(s, qs[0]);
      RequestEnqueues(s, qs[0]);
      var s1 := StepRequest(s, qs[0]);
      BatchIsSound(s1, qs[1..]);
      var s2 := StepAll(s1, qs[1..]);
      assert s2.completions[..|s.completions|] == s2.completions[..|s1.completions|][..|s.completions|];
    }
  }

  lemma EventIsSound(x: Logged, e: IoEvent)
    requires IoInv(x.state) && Legal(x.state.memory, e)
    ensures IoInv(StepEvent(x, e).state) && SameSizes(x.state.memory, StepEvent(x, e).state.memory)
  {
    hide StepAll, NotedAll, DeviceInv;
    if e.Submit? && BatchStatus(x.state, e.requests).Ok? {
      AcceptedAreKnown(x.state, e.requests);
      BatchIsSound(x.state, e.requests);
    }
  }

  lemma LegalStays(m: Memory, m1: Memory, e: IoEvent)
    requires Legal(m, e) && SameSizes(m, m1)
    ensures Legal(m1, e)
  {
  }

  function RunEvents(x: Logged, events: seq<IoEvent>): Logged
    requires IoInv(x.state) && forall e :: e in events ==> Legal(x.state.memory, e)
    decreases |events|
  {
    if events == [] then x
    else
      EventIsSound(x, events[0]);
      assert forall e :: e in events[1..] ==> Legal(StepEvent(x, events[0]).state.memory, e) by {
        forall e | e in events[1..] ensures Legal(StepEvent(x, events[0]).state.memory, e) {
          LegalStays(x.state.memory, StepEvent(x, events[0]).state.memory, e);
        }
      }
      RunEvents(StepEvent(x, events[0]), events[1..])
  }

  // Over every run: completions polled so far, then those queued, are exactly one per accepted
  // request, in submission order, with its id and user data; the queue holds at most 1024;
  // automatic ids increase strictly; and the device is its start with all successful writes.
  lemma {:induction false} RunsKeepTheQueue(start: Option<DeviceState>, x: Logged, events: seq<IoEvent>)
    requires RunInv(start, x) && forall e :: e in events ==> Legal(x.state.memory, e)
    ensures RunInv(start, RunEvents(x, events))
    decreases |events|
  {
    hide StepEvent, RunInv, Legal;
    RunInvDevice(start, x);
    if events != [] {
      EventIsSound(x, events[0]);
      EventKeepsRun(start, x, events[0]);
      forall e | e in events[1..] ensures Legal(StepEvent(x, events[0]).state.memory, e) {
        LegalStays(x.state.memory, StepEvent(x, events[0]).state.memory, e);
      }
      RunsKeepTheQueue(start, StepEvent(x, events[0]), events[1..]);
    }
  }

  // A runtime just built, over a device or none, with the client's buffers.
  function Fresh(device: Option<DeviceState>, memory: Memory): Logged {
    Logged(IoState(device, 1, [], memory), NO_HISTORY)
  }

  lemma FreshRunHolds(device: Option<DeviceState>, memory: Memory)
    requires device.Some? ==> DeviceInv(device.value)
    ensures RunInv(device, Fresh(device, memory))
  {
  }

  // The same from the construction of the runtime on.
  lemma HostedRunsKeepTheQueue(device: Option<DeviceState>, memory: Memory, events: seq<IoEvent>)
    requires device.Some? ==> DeviceInv(device.value)
    requires forall e :: e in events ==> Legal(memory, e)
    ensures var x := RunEvents(Fresh(device, memory), events);
            && TagsOf(x.history.polled + x.state.completions) == x.history.accepted
            && |x.state.completions| <= MAX_OUTSTANDING
            && (forall i, j :: 0 <= i < j < |x.history.autoIds| ==> x.history.autoIds[i] < x.history.autoIds[j])
            && (device.Some? ==> x.state.device == Some(device.value.(data := Folded(device.value.data, x.history.writes))))
  {
    hide RunEvents, Folded, TagsOf, DeviceInv;
    FreshRunHolds(device, memory);
    RunsKeepTheQueue(device, Fresh(device, memory), events);
  }

  // ---------------------------------------------------------------- request ids

  function IdsOf(tags: seq<Tag>): (ids: seq<nat>)
    ensures |ids| == |tags|
    ensures forall i :: 0 <= i < |tags| ==> ids[i] == tags[i].id
  {
    seq(|tags|, i requires 0 <= i < |tags| => tags[i].id)
  }

  ghost predicate Distinct(ids: seq<nat>) {
    forall i, j :: 0 <= i < j < |ids| ==> ids[i] != ids[j]
  }

  // The accepted ids are the chosen and the automatic ones; the automatic ones count up from 1.
  ghost predicate IdsInv(x: Logged) {
    var h := x.history;
    && multiset(IdsOf(h.accepted)) == multiset(h.chosenIds) + multiset(h.autoIds)
    && x.state.nextId == |h.autoIds| + 1
    && (forall i :: 0 <= i < |h.autoIds| ==> h.autoIds[i] == i + 1)
    && (forall i :: 0 <= i < |h.chosenIds| ==> h.chosenIds[i] > 0)
  }

  lemma StepKeepsIds(x: Logged, q: IoRequest)
    requires IdsInv(x) && (x.state.device.Some? ==> DeviceInv(x.state.device.value))
    requires q.buffer in x.state.memory && !q.operation.UnknownOperation?
    ensures IdsInv(Logged(StepRequest(x.state, q), Noted(x.history, x.state, q)))
  {
    hide StepRequest, EffectiveWrite, DeviceInv, IdsOf;
    RequestEnqueues(x.state, q);
    var h, id := x.history, ResolvedId(x.state, q);
    IdsExtend(h.accepted, Tag(id, q.userData));
    BagExtends(h.chosenIds, h.autoIds, id);
  }

  lemma IdsExtend(tags: seq<Tag>, tag: Tag)
    ensures multiset(IdsOf(tags + [tag])) == multiset(IdsOf(tags)) + multiset{tag.id}
  {
    assert IdsOf(tags + [tag]) == IdsOf(tags) + [tag.id];
  }

  lemma BagExtends(chosen: seq<nat>, auto: seq<nat>, id: nat)
    ensures multiset(chosen + [id]) + multiset(auto) == (multiset(chosen) + multiset(auto)) + multiset{id}
    ensures multiset(chosen) + multiset(auto + [id]) == (multiset(chosen) + multiset(auto)) + multiset{id}
  {
  }

  lemma {:induction false} BatchKeepsIds(x: Logged, qs: seq<IoRequest>)
    requires IdsInv(x) && (x.state.device.Some? ==> DeviceInv(x.state.device.value))
    requires forall q :: q in qs ==> q.buffer in x.state.memory && !q.operation.UnknownOperation?
    ensures IdsInv(Logged(StepAll(x.state, qs), NotedAll(x.history, x.state, qs)))
    decreases |qs|
  {
    hide StepRequest, Noted, IdsInv, DeviceInv;
    if qs != [] {
      StepKeepsDevice(x.state, qs[0]);
      StepKeepsIds(x, qs[0]);
      BatchKeepsIds(Logged(StepRequest(x.state, qs[0]), Noted(x.history, x.state, qs[0])), qs[1..]);
    }
  }

  lemma EventKeepsIds(x: Logged, e: IoEvent)
    requires IdsInv(x) && IoInv(x.state) && Legal(x.state.memory, e)
    ensures IdsInv(StepEvent(x, e))
  {
    hide StepAll, NotedAll, DeviceInv;
    if e.Submit? && BatchStatus(x.state, e.requests).Ok? {
      AcceptedAreKnown(x.state, e.requests);
      BatchKeepsIds(x, e.requests);
    }
  }

  lemma {:induction false} RunsKeepIds(x: Logged, events: seq<IoEvent>)
    requires IdsInv(x) && IoInv(x.state) && forall e :: e in events ==> Legal(x.state.memory, e)
    ensures IdsInv(RunEvents(x, events))
    decreases |events|
  {
    hide StepEvent, IdsInv, IoInv, Legal;
    if events != [] {
      EventIsSound(x, events[0]);
      EventKeepsIds(x, events[0]);
      forall e | e in events[1..] ensures Legal(StepEvent(x, events[0]).state.memory, e) {
        LegalStays(x.state.memory, StepEvent(x, events[0]).state.memory, e);
      }
      RunsKeepIds(StepEvent(x, events[0]), events[1..]);
    }
  }

  lemma {:induction false} DistinctByCount(ids: seq<nat>)
    ensures Distinct(ids) <==> forall id :: multiset(ids)[id] <= 1
  {
    if ids != [] {
      var last, front := ids[|ids| - 1], ids[..|ids| - 1];
      DistinctByCount(front);
      assert ids == front + [last];
      assert forall id :: multiset(ids)[id] == multiset(front)[id] + if id == last then 1 else 0;
      assert multiset(front)[last] > 0 <==> last in front;
      assert Distinct(ids) <==> Distinct(front) && last !in front;
      assert multiset(ids)[last] <= 1 <==> last !in front;
    }
  }

  lemma CountedUp(ids: seq<nat>, id: nat)
    requires forall i :: 0 <= i < |ids| ==> ids[i] == i + 1
    ensures Distinct(ids) && (id in multiset(ids) <==> 1 <= id <= |ids|)
  {
    if 1 <= id <= |ids| {
      assert ids[id - 1] == id;
    }
  }

  // Two sources of ids together are distinct exactly when each is and they share none.
  lemma DistinctTogether(all: seq<nat>, chosen: seq<nat>, auto: seq<nat>)
    requires multiset(all) == multiset(chosen) + multiset(auto)
    ensures Distinct(all) <==> Distinct(chosen) && Distinct(auto) && forall i :: 0 <= i < |chosen| ==> chosen[i] !in multiset(auto)
  {
    hide Distinct;
    DistinctByCount(all);
    DistinctByCount(chosen);
    DistinctByCount(auto);
    assert forall id :: multiset(all)[id] == multiset(chosen)[id] + multiset(auto)[id];
    if Distinct(all) {
      forall i | 0 <= i < |chosen| ensures chosen[i] !in multiset(auto) {
        assert multiset(all)[chosen[i]] <= 1 && chosen[i] in multiset(chosen);
      }
    }
    if Distinct(chosen) && Distinct(auto) && forall i :: 0 <= i < |chosen| ==> chosen[i] !in multiset(auto) {
      forall id ensures multiset(all)[id] <= 1 {
        assert multiset(chosen)[id] > 0 ==> id in chosen;
      }
    }
  }

  // Over every run the automatic ids are 1, 2, ... n in order, and the accepted requests have
  // pairwise distinct ids exactly when the ids chosen by callers are distinct and all beyond n.
  lemma IdsAreUniqueExactly(device: Option<DeviceState>, memory: Memory, events: seq<IoEvent>)
    requires device.Some? ==> DeviceInv(device.value)
    requires forall e :: e in events ==> Legal(memory, e)
    ensures var h := RunEvents(Fresh(device, memory), events).history;
            && (forall i :: 0 <= i < |h.autoIds| ==> h.autoIds[i] == i + 1)
            && multiset(IdsOf(h.accepted)) == multiset(h.chosenIds) + multiset(h.autoIds)
            && (Distinct(IdsOf(h.accepted)) <==>
                  Distinct(h.chosenIds) && forall i :: 0 <= i < |h.chosenIds| ==> h.chosenIds[i] > |h.autoIds|)
  {
    hide RunEvents, DeviceInv, Distinct, IdsOf;
    assert IdsOf([]) == [];
    RunsKeepIds(Fresh(device, memory), events);
    var h := RunEvents(Fresh(device, memory), events).history;
    DistinctTogether(IdsOf(h.accepted), h.chosenIds, h.autoIds);
    CountedUp(h.autoIds, 1);
    forall i | 0 <= i < |h.chosenIds| ensures h.chosenIds[i] in multiset(h.autoIds) <==> h.chosenIds[i] <= |h.autoIds| {
      CountedUp(h.autoIds, h.chosenIds[i]);
    }
  }

  // A read that succeeds in the middle of a run returns the device's original bytes with all
  // earlier successful writes applied, and touches nothing else of its buffer.
  lemma ReadsSeeEarlierWrites(start: DeviceState, x: Logged, q: IoRequest)
    requires RunInv(Some(start), x) && q.buffer in x.state.memory && q.operation.Read?
    requires Perform(x.state.device.value, x.state.memory, q).status.Ok?
    ensures var before, after := x.state.memory[q.buffer], StepRequest(x.state, q).memory[q.buffer];
            var length := EffectiveLength(q, |before|);
            var device := Folded(start.data, x.history.writes);
            && q.offset + length <= |device| && length <= |before| == |after|
            && after[..length] == device[q.offset..q.offset + length]
            && after[length..] == before[length..]
            && (forall b :: b in x.state.memory && b != q.buffer ==> StepRequest(x.state, q).memory[b] == x.state.memory[b])
  {
    hide Folded, TagsOf;
    var d, m := x.state.device.value, x.state.memory;
    var length := EffectiveLength(q, |m[q.buffer]|);
    AccessIsInRange(d, q.offset, length);
    var piece := d.data[q.offset..q.offset + length];
    var after := Splice(m[q.buffer], 0, piece);
    assert after[..length] == piece && after[length..] == m[q.buffer][length..];
  }

  // A request that fails, for want of a device or in performing it, changes neither the device
  // nor any buffer; its completion carries the error and no bytes.
  lemma FailedRequestsChangeNothing(s: IoState, q: IoRequest)
    requires (s.device.Some? ==> DeviceInv(s.device.value)) && q.buffer in s.memory && !q.operation.UnknownOperation?
    ensures var s1 := StepRequest(s, q);
            |s1.completions| == |s.completions| + 1 &&
            var done := s1.completions[|s.completions|];
            && (done.status.Err? ==> s1.device == s.device && s1.memory == s.memory && done.bytesTransferred == 0)
            && (s.device.None? ==> done.status == Err(NotSupported))
  {
  }

  // A batch is accepted exactly when it has 1 to 64 well-formed requests for which the queue has
  // room; a rejected batch changes nothing.
  lemma SubmitExactly(s: IoState, qs: seq<IoRequest>)
    requires IoInv(s) && forall q :: q in qs ==> q.buffer in s.memory
    ensures var (s1, r) := SubmitBatch(s, qs);
            && (r.Ok? <==> 1 <= |qs| <= 64 && |s.completions| + |qs| <= 1024 && forall i :: 0 <= i < |qs| ==> WellFormed(qs[i]))
            && (r.Err? ==> s1 == s && (r.error == IoError || r.error == InvalidArgument))
            && (r.Err? && r.error == IoError <==> 1 <= |qs| <= 64 && |s.completions| + |qs| > 1024)
            && (r.Ok? ==> && |s1.completions| == |s.completions| + |qs| && s1.completions[..|s.completions|] == s.completions
                          && r.value == IoSubmission(|qs|, s1.completions[|s.completions|].id))
  {
    hide StepAll;
    if BatchStatus(s, qs).Ok? {
      AcceptedAreKnown(s, qs);
      BatchIsSound(s, qs);
      FirstOfBatch(s, qs);
    }
  }

  // A read, write or flush with no flag beyond the three known ones.
  predicate WellFormed(q: IoRequest) {
    q.flags < 8 && (q.operation.Read? || q.operation.Write? || q.operation.Flush?)
  }

  lemma FirstOfBatch(s: IoState, qs: seq<IoRequest>)
    requires s.device.Some? ==> DeviceInv(s.device.value)
    requires forall q :: q in qs ==> q.buffer in s.memory && !q.operation.UnknownOperation?
    requires qs != []
    ensures |StepAll(s, qs).completions| > |s.completions| && StepAll(s, qs).completions[|s.completions|].id == ResolvedId(s, qs[0])
  {
    hide Perform, DeviceInv, StepRequest;
    StepKeepsDevice(s, qs[0]);
    RequestEnqueues(s, qs[0]);
    var s1 := StepRequest(s, qs[0]);
    BatchIsSound(s1, qs[1..]);
    var n := |s.completions|;
    assert StepAll(s1, qs[1..]).completions[n] == StepAll(s1, qs[1..]).completions[..n + 1][n] == s1.completions[n];
    TagIds(s1.completions[n], s1.completions[n]);
  }

  // Automatic ids are unique among themselves only: a caller that picks the next one collides.
  lemma AutomaticIdsMayCollide(s: IoState, mine: IoRequest, auto: IoRequest)
    requires IoInv(s) && |s.completions| + 2 <= MAX_OUTSTANDING && mine.buffer in s.memory && auto.buffer in s.memory
    requires !Malformed(mine) && !Malformed(auto) && mine.id == s.nextId && auto.id == 0
    ensures var (s1, r) := SubmitBatch(s, [mine, auto]);
            && r.Ok? && |s1.completions| == |s.completions| + 2
            && s1.completions[|s.completions|].id == s1.completions[|s.completions| + 1].id
  {
    hide StepRequest;
    var qs := [mine, auto];
    assert forall i :: 0 <= i < |qs| ==> !Malformed(qs[i]);
    StepKeepsDevice(s, mine);
    RequestEnqueues(s, mine);
    var s1 := StepRequest(s, mine);
    StepKeepsDevice(s1, auto);
    RequestEnqueues(s1, auto);
    var s2 := StepRequest(s1, auto);
    assert qs[1..] == [auto] && [auto][1..] == [];
    assert StepAll(s2, []) == s2;
    assert StepAll(s1, [auto]) == s2;
    var c := s1.completions[|s.completions|];
    assert s2.completions[..|s1.completions|][|s.completions|] == s1.completions[|s.completions|];
    TagIds(c, s2.completions[|s1.completions|]);
  }

  lemma TagIds(a: IoCompletion, b: IoCompletion)
    ensures TagOf(a).id == a.id && TagOf(b).id == b.id
  {
  }

  // ---------------------------------------------------------------- the code

  class MemoryBlockDevice {
    const blockSize: nat
    const valid: bool
    const data: array<byte>

    ghost predicate Valid()
      reads data
    {
      DeviceInv(State())
    }

    function State(): DeviceState
      reads data
    {
      DeviceState(valid, blockSize, data[..])
    }

    // An unusable geometry gives a device that refuses every access.
    constructor (size: uint64, block: nat)
      ensures Valid() && fresh(data) && State() == MakeDevice(size, block)
    {
      blockSize := block;
      if block == 0 || size == 0 || size % block != 0 {
        valid := false;
        data := new byte[0];
      } else {
        valid := true;
        data := new byte[size](_ => 0);
      }
      new;
      assert valid ==> data[..] == Zeros(size);
    }

    method ReadInto(offset: nat, destination: array<byte>, length: nat) returns (status: Status)
      requires Valid() && destination != data && length <= destination.Length
      modifies destination
      ensures status == ValidateAccess(State(), offset, length)
      ensures status.Err? ==> destination[..] == old(destination[..])
      ensures status.Ok? ==> offset + length <= data.Length &&
                             destination[..] == Splice(old(destination[..]), 0, data[offset..offset + length])
    {
      status := ValidateAccess(State(), offset, length);
      if status.Err? { return; }
      AccessIsInRange(State(), offset, length);
      for i := 0 to length
        invariant forall k :: 0 <= k < destination.Length ==>
                    destination[k] == if k < i then data[offset + k] else old(destination[k])
      {
        destination[i] := data[offset + i];
      }
      assert destination[..] == Splice(old(destination[..]), 0, data[offset..offset + length]);
    }

    method WriteFrom(offset: nat, source: array<byte>, length: nat) returns (status: Status)
      requires Valid() && source != data && length <= source.Length
      modifies data
      ensures Valid() && status == ValidateAccess(old(State()), offset, length)
      ensures status.Err? ==> data[..] == old(data[..])
      ensures status.Ok? ==> offset + length <= data.Length && data[..] == Splice(old(data[..]), offset, source[..length])
    {
      status := ValidateAccess(State(), offset, length);
      if status.Err? { return; }
      AccessIsInRange(State(), offset, length);
      for i := 0 to length
        invariant forall k :: 0 <= k < data.Length ==>
                    data[k] == if offset <= k < offset + i then source[k - offset] else old(data[k])
      {
        data[offset + i] := source[i];
      }
      assert data[..] == Splice(old(data[..]), offset, source[..length]);
    }

    method FlushRange(offset: nat, length: nat) returns (status: Status)
      requires Valid()
      ensures status == ValidateAccess(State(), offset, length)
    {
      return ValidateAccess(State(), offset, length);
    }
  }

  ghost function MemoryOf(buffers: set<array<byte>>): (m: Memory)
    reads buffers
    ensures m.Keys == buffers && forall b :: b in buffers ==> m[b] == b[..]
  {
    map b | b in buffers :: b[..]
  }

  // The device's cells, when there is a device.
  ghost function Cells(device: MemoryBlockDevice?): set<object> {
    if device == null then {} else {device.data}
  }

  class HostedPlatformRuntime {
    const device: MemoryBlockDevice?
    var nextRequestId: nat
    var completions: seq<IoCompletion>

    // buffers are the arrays the client may pass; none of them is the device's own storage.
    ghost predicate Valid(buffers: set<array<byte>>)
      reads this, Cells(device)
    {
      && nextRequestId > 0 && |completions| <= MAX_OUTSTANDING
      && (device != null ==> device.Valid() && device.data !in buffers)
    }

    ghost function State(buffers: set<array<byte>>): IoState
      reads this, Cells(device), buffers
    {
      IoState(if device == null then None else Some(device.State()), nextRequestId, completions, MemoryOf(buffers))
    }

    constructor (d: MemoryBlockDevice?, ghost buffers: set<array<byte>>)
      requires d != null ==> d.Valid() && d.data !in buffers
      ensures Valid(buffers) && device == d
      ensures State(buffers) == Fresh(if d == null then None else Some(d.State()), MemoryOf(buffers)).state
    {
      device := d;
      nextRequestId, completions := 1, [];
    }

    method PerformRequest(q: IoRequest, ghost buffers: set<array<byte>>) returns (status: Status, transferred: nat)
      requires Valid(buffers) && device != null && q.buffer in buffers && !q.operation.UnknownOperation?
      modifies Cells(device), buffers
      ensures Valid(buffers)
      ensures Outcome(device.State(), MemoryOf(buffers), status, transferred) == Perform(old(device.State()), old(MemoryOf(buffers)), q)
    {
      ghost var m := MemoryOf(buffers);
      var length := EffectiveLength(q, q.buffer.Length);
      transferred := 0;
      if q.operation.Flush? {
        if length > MAX_REQUEST_SIZE { return Err(InvalidArgument), 0; }
        status := device.FlushRange(q.offset, length);
        return;
      }
      status := ValidateBuffered(length, q.buffer.Length);
      if status.Err? { return; }
      if q.operation.Read? {
        status := device.ReadInto(q.offset, q.buffer, length);
        assert status.Err? ==> MemoryOf(buffers) == m;
        assert status.Ok? ==> MemoryOf(buffers) == m[q.buffer := q.buffer[..]];
      } else {
        status := device.WriteFrom(q.offset, q.buffer, length);
        assert MemoryOf(buffers) == m;
      }
      if status.Ok? { transferred := length; }
    }

    method Accept(q: IoRequest, ghost buffers: set<array<byte>>) returns (id: nat)
      requires Valid(buffers) && q.buffer in buffers && !q.operation.UnknownOperation? && |completions| < MAX_OUTSTANDING
      modifies this, Cells(device), buffers
      ensures Valid(buffers)
      ensures id == ResolvedId(old(State(buffers)), q)
      ensures State(buffers) == StepRequest(old(State(buffers)), q)
    {
      hide Perform;
      id := q.id;
      if id == 0 {
        id := nextRequestId;
        nextRequestId := nextRequestId + 1;
      }
      var status: Status, transferred: nat := Err(NotSupported), 0;
      if device != null {
        status, transferred := PerformRequest(q, buffers);
      }
      completions := completions + [IoCompletion(id, status, transferred, q.userData)];
    }

    // The validation loop over the whole batch, before anything is performed.
    method CheckBatch(requests: seq<IoRequest>) returns (status: Status)
      ensures status.Ok? <==> forall i :: 0 <= i < |requests| ==> !Malformed(requests[i])
      ensures status.Err? ==> status == Err(InvalidArgument)
    {
      for i := 0 to |requests|
        invariant forall k :: 0 <= k < i ==> !Malformed(requests[k])
      {
        if requests[i].flags >= KNOWN_FLAGS { return Err(InvalidArgument); }
        if requests[i].operation.UnknownOperation? { return Err(InvalidArgument); }
      }
      return OkStatus;
    }

    method SubmitIoBatch(requests: seq<IoRequest>, ghost buffers: set<array<byte>>) returns (r: Result<IoSubmission>)
      requires Valid(buffers) && forall q :: q in requests ==> q.buffer in buffers
      modifies this, Cells(device), buffers
      ensures Valid(buffers)
      ensures (State(buffers), r) == SubmitBatch(old(State(buffers)), requests)
    {
      hide StepRequest, Malformed;
      ghost var s := State(buffers);
      if requests == [] { return Err(InvalidArgument); }
      if |requests| > MAX_BATCH_SIZE { return Err(InvalidArgument); }
      if |requests| > MAX_OUTSTANDING - |completions| { return Err(IoError); }
      var checked := CheckBatch(requests);
      if checked.Err? { return Err(checked.error); }
      AcceptedAreKnown(s, requests);
      var first := 0;
      assert requests[0..] == requests;
      for index := 0 to |requests|
        invariant Valid(buffers) && |completions| == |s.completions| + index
        invariant index > 0 ==> first == ResolvedId(s, requests[0])
        invariant forall q :: q in requests[index..] ==> q.buffer in State(buffers).memory && !q.operation.UnknownOperation?
        invariant index == 0 ==> State(buffers) == s
        invariant StepAll(s, requests) == StepAll(State(buffers), requests[index..])
      {
        assert requests[index..][0] == requests[index] && requests[index..][1..] == requests[index + 1..];
        RequestEnqueues(State(buffers), requests[index]);
        StepKeepsDevice(State(buffers), requests[index]);
        var id := Accept(requests[index], buffers);
        if index == 0 {
          first := id;
        }
      }
      return Ok(IoSubmission(|requests|, first));
    }

    // The output span is the sequence handed back.
    method PollIoCompletions(n: nat, ghost buffers: set<array<byte>>) returns (r: Result<seq<IoCompletion>>)
      requires Valid(buffers)
      modifies this
      ensures Valid(buffers)
      ensures (State(buffers), r) == Poll(old(State(buffers)), n)
    {
      if n == 0 { return Err(InvalidArgument); }
      var out: seq<IoCompletion> := [];
      ghost var queue := completions;
      while |out| < n && completions != []
        invariant nextRequestId == old(nextRequestId) && |out| <= n && |out| <= |queue|
        invariant out == queue[..|out|] && completions == queue[|out|..]
        decreases |completions|
      {
        assert queue[..|out| + 1] == out + [completions[0]];
        out := out + [completions[0]];
        completions := completions[1..];
      }
      return Ok(out);
    }
  }
}
