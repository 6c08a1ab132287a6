/** The gateway's command book: at most one record for each node, oldest first. */
module CommandBook {
  import opened Bytes
  import opened Protocol
  import opened Options

  const MAX_COMMAND_RECORDS := 16
  const UINT16_MAX: uint16 := 0xFFFF

  type Eight = s: seq<byte> | |s| == 8 witness Fill(8, 0)

  // Command types, states and result statuses keep their wire values.
  const READ_INFO: byte := 2
  const PENDING: byte := 1
  const COMPLETED: byte := 2
  const APPLIED: byte := 0
  const UNSUPPORTED: byte := 1
  const INVALID_ARGUMENT: byte := 2
  const STORAGE_FAILURE: byte := 3

  datatype CommandRecord = CommandRecord(
    deviceUid: Uid, nodeId: byte, commandId: uint16, commandType: byte, argumentSize: byte, arguments: Eight,
    state: byte, status: byte, resultSize: byte, result: Eight, queuedAtUnixMs: uint64, completedAtUnixMs: uint64)

  const BLANK := CommandRecord(Fill(10, 0), 0, 0, 0, 0, Fill(8, 0), 0, 0, 0, Fill(8, 0), 0, 0)

  datatype Book = Book(nextCommandId: uint16, records: seq<CommandRecord>)

  // ---------------------------------------------------------------- argument and result rules

  predicate ValidCommandArguments(commandType: byte, size: nat): (valid: bool)
    ensures valid ==> size <= 4
  {
    (commandType == SET_COUNT && size == 4) || (commandType == READ_INFO && size == 0)
  }

  predicate ValidCommandStatus(status: byte) {
    status <= STORAGE_FAILURE
  }

  function ResultDataSize(commandType: byte, status: byte): byte {
    if status != APPLIED then 0
    else if commandType == SET_COUNT then 8
    else if commandType == READ_INFO then 6
    else 0
  }

  /** `data` in the first cells of a zeroed 8-byte field. */
  function Padded(data: seq<byte>): (p: Eight)
    requires |data| <= 8
    ensures p[..|data|] == data && forall i :: |data| <= i < 8 ==> p[i] == 0
  {
    data + Fill(8 - |data|, 0)
  }

  predicate ZeroPadded(field: Eight, used: nat) {
    used <= 8 && forall i :: used <= i < 8 ==> field[i] == 0
  }

  // ---------------------------------------------------------------- what the codec accepts

  predicate ValidRecord(r: CommandRecord) {
    && FIRST_NODE_ID <= r.nodeId <= LAST_NODE_ID && r.commandId != 0
    && ZeroPadded(r.arguments, r.argumentSize) && ZeroPadded(r.result, r.resultSize)
    && ValidCommandArguments(r.commandType, r.argumentSize)
    && if r.state == PENDING then r.status == 0 && r.resultSize == 0 && r.completedAtUnixMs == 0
       else
         && r.state == COMPLETED && ValidCommandStatus(r.status) && r.status != STORAGE_FAILURE
         && r.resultSize == ResultDataSize(r.commandType, r.status)
  }

  predicate DistinctNodes(records: seq<CommandRecord>) {
    forall i, j :: 0 <= i < j < |records| ==> records[i].nodeId != records[j].nodeId
  }

  predicate ValidBook(b: Book) {
    && |b.records| <= MAX_COMMAND_RECORDS && b.nextCommandId != 0
    && (forall i :: 0 <= i < |b.records| ==> ValidRecord(b.records[i]))
    && DistinctNodes(b.records)
  }

  // ---------------------------------------------------------------- the operations on values

  function IndexFrom(records: seq<CommandRecord>, nodeId: byte, from: nat): (index: int)
    requires from <= |records|
    ensures index == -1 || from <= index < |records|
    ensures index >= 0 ==> records[index].nodeId == nodeId
    ensures index >= 0 ==> forall i :: from <= i < index ==> records[i].nodeId != nodeId
    ensures index == -1 ==> forall i :: from <= i < |records| ==> records[i].nodeId != nodeId
    decreases |records| - from
  {
    if from == |records| then -1
    else if records[from].nodeId == nodeId then from
    else IndexFrom(records, nodeId, from + 1)
  }

  function IndexOf(records: seq<CommandRecord>, nodeId: byte): (index: int)
    ensures index == -1 || 0 <= index < |records|
    ensures index >= 0 ==> records[index].nodeId == nodeId
    ensures index == -1 ==> forall i :: 0 <= i < |records| ==> records[i].nodeId != nodeId
  {
    IndexFrom(records, nodeId, 0)
  }

  function Find(b: Book, nodeId: byte): Option<CommandRecord> {
    var index := IndexOf(b.records, nodeId);
    if index < 0 then None else Some(b.records[index])
  }

  function Without<T>(s: seq<T>, index: nat): (r: seq<T>)
    requires index < |s|
    ensures |r| == |s| - 1
  {
    s[..index] + s[index + 1..]
  }

  function Erase(b: Book, index: nat): Book
    requires index < |b.records|
  {
    b.(records := Without(b.records, index))
  }

  /** The first completed record at or after `from`, or the number of records. */
  function OldestCompleted(records: seq<CommandRecord>, from: nat): (index: nat)
    requires from <= |records|
    ensures from <= index <= |records|
    ensures index < |records| ==> records[index].state == COMPLETED
    ensures forall i :: from <= i < index ==> records[i].state != COMPLETED
    decreases |records| - from
  {
    if from == |records| || records[from].state == COMPLETED then from else OldestCompleted(records, from + 1)
  }

  datatype QueueStatus = Queued | Busy | InvalidNode | InvalidArguments | CapacityReached
  datatype CompleteStatus = Completed | Retry | NotPending | InvalidResult

  function NextId(id: uint16): uint16 {
    if id == UINT16_MAX then 1 else id + 1
  }

  function NewRecord(
    b: Book, deviceUid: Uid, nodeId: byte, commandType: byte, arguments: seq<byte>, nowUnixMs: uint64): CommandRecord
    requires |arguments| <= 8
  {
    CommandRecord(
      deviceUid, nodeId, b.nextCommandId, commandType, |arguments|, Padded(arguments), PENDING, 0, 0, Padded([]),
      nowUnixMs, 0)
  }

  function Append(
    b: Book, deviceUid: Uid, nodeId: byte, commandType: byte, arguments: seq<byte>, nowUnixMs: uint64): Book
    requires |arguments| <= 8
  {
    Book(NextId(b.nextCommandId), b.records + [NewRecord(b, deviceUid, nodeId, commandType, arguments, nowUnixMs)])
  }

  /** The record of the same node goes first, then the oldest completed one of a full book. */
  function WithoutNode(b: Book, nodeId: byte): Book {
    var existing := IndexOf(b.records, nodeId);
    if existing >= 0 then Erase(b, existing) else b
  }

  function MakeRoom(b: Book): Option<Book> {
    if |b.records| != MAX_COMMAND_RECORDS then Some(b)
    else
      var oldest := OldestCompleted(b.records, 0);
      if oldest == |b.records| then None else Some(Erase(b, oldest))
  }

  function Queue(
    b: Book, deviceUid: Uid, nodeId: byte, commandType: byte, arguments: seq<byte>, nowUnixMs: uint64)
    : (result: (QueueStatus, Book))
  {
    if nodeId < FIRST_NODE_ID || nodeId > LAST_NODE_ID then (InvalidNode, b)
    else if !ValidCommandArguments(commandType, |arguments|) then (InvalidArguments, b)
    else
      var existing := Find(b, nodeId);
      if existing.Some? && existing.value.state == PENDING && existing.value.deviceUid == deviceUid then (Busy, b)
      else
        var cleared := WithoutNode(b, nodeId);
        var roomy := MakeRoom(cleared);
        if roomy.None? then (CapacityReached, cleared)
        else (Queued, Append(roomy.value, deviceUid, nodeId, commandType, arguments, nowUnixMs))
  }

  function CompletedRecord(r: CommandRecord, status: byte, data: seq<byte>, nowUnixMs: uint64): CommandRecord
    requires |data| <= 8
  {
    r.(state := COMPLETED, status := status, resultSize := |data|, result := data + r.result[|data|..],
       completedAtUnixMs := nowUnixMs)
  }

  function Complete(
    b: Book, deviceUid: Uid, nodeId: byte, commandId: uint16, status: byte, data: seq<byte>, nowUnixMs: uint64)
    : (result: (CompleteStatus, Book))
  {
    var index := IndexOf(b.records, nodeId);
    if index < 0 then (NotPending, b)
    else
      var r := b.records[index];
      if r.state != PENDING || r.commandId != commandId || r.deviceUid != deviceUid then (NotPending, b)
      else if !ValidCommandStatus(status) then (InvalidResult, b)
      else if status == STORAGE_FAILURE then (Retry, b)
      else if |data| != ResultDataSize(r.commandType, status) then (InvalidResult, b)
      else (Completed, b.(records := b.records[index := CompletedRecord(r, status, data, nowUnixMs)]))
  }

  function Cancel(b: Book, nodeId: byte): (result: (bool, Book)) {
    var index := IndexOf(b.records, nodeId);
    if index < 0 || b.records[index].state != PENDING then (false, b) else (true, Erase(b, index))
  }

  function RemoveNode(b: Book, nodeId: byte): (result: (bool, Book)) {
    var index := IndexOf(b.records, nodeId);
    if index < 0 then (false, b) else (true, Erase(b, index))
  }

  function Clear(b: Book): Book {
    b.(records := [])
  }

  // ---------------------------------------------------------------- validity is kept

  lemma EraseValid(b: Book, index: nat)
    requires ValidBook(b) && index < |b.records|
    ensures ValidBook(Erase(b, index))
  {
    hide ValidRecord;
  }

  lemma NewRecordValid(
    b: Book, deviceUid: Uid, nodeId: byte, commandType: byte, arguments: seq<byte>, nowUnixMs: uint64)
    requires FIRST_NODE_ID <= nodeId <= LAST_NODE_ID && b.nextCommandId != 0
    requires ValidCommandArguments(commandType, |arguments|)
    ensures ValidRecord(NewRecord(b, deviceUid, nodeId, commandType, arguments, nowUnixMs))
  {
  }

  /** `kept` lost no pending command except those of `nodeId`. */
  predicate KeepsPending(b: Book, kept: Book, nodeId: byte) {
    forall r :: r in b.records && r.state == PENDING && r.nodeId != nodeId ==> r in kept.records
  }

  lemma EraseKeeps(b: Book, index: nat, nodeId: byte)
    requires index < |b.records|
    requires b.records[index].state != PENDING || b.records[index].nodeId == nodeId
    ensures KeepsPending(b, Erase(b, index), nodeId)
  {
    forall r | r in b.records && r.state == PENDING && r.nodeId != nodeId
      ensures r in Erase(b, index).records
    {
      var i :| 0 <= i < |b.records| && b.records[i] == r;
      assert Erase(b, index).records[if i < index then i else i - 1] == r;
    }
  }

  lemma WithoutNodeValid(b: Book, nodeId: byte)
    requires ValidBook(b)
    ensures ValidBook(WithoutNode(b, nodeId)) && KeepsPending(b, WithoutNode(b, nodeId), nodeId)
    ensures forall r :: r in WithoutNode(b, nodeId).records ==> r.nodeId != nodeId && r in b.records
    ensures Find(b, nodeId).None? ==> WithoutNode(b, nodeId) == b
    ensures WithoutNode(b, nodeId).nextCommandId == b.nextCommandId
    ensures Find(b, nodeId).Some? ==> |WithoutNode(b, nodeId).records| == |b.records| - 1
  {
    hide ValidRecord, IndexFrom;
    var index := IndexOf(b.records, nodeId);
    if index >= 0 {
      EraseValid(b, index);
      EraseKeeps(b, index, nodeId);
    }
  }

  lemma MakeRoomValid(b: Book, nodeId: byte)
    requires ValidBook(b)
    ensures MakeRoom(b).None? <==>
            |b.records| == MAX_COMMAND_RECORDS && forall r :: r in b.records ==> r.state == PENDING
    ensures MakeRoom(b).Some? ==>
              && ValidBook(MakeRoom(b).value) && |MakeRoom(b).value.records| < MAX_COMMAND_RECORDS
              && MakeRoom(b).value.nextCommandId == b.nextCommandId
              && KeepsPending(b, MakeRoom(b).value, nodeId)
              && (forall r :: r in MakeRoom(b).value.records ==> r in b.records)
  {
    hide OldestCompleted, DistinctNodes;
    if |b.records| == MAX_COMMAND_RECORDS {
      var oldest := OldestCompleted(b.records, 0);
      if oldest < |b.records| {
        EraseValid(b, oldest);
        EraseKeeps(b, oldest, nodeId);
        assert b.records[oldest] in b.records;
      } else {
        OnlyPending(b);
      }
    }
  }

  lemma AppendValid(
    b: Book, deviceUid: Uid, nodeId: byte, commandType: byte, arguments: seq<byte>, nowUnixMs: uint64)
    requires ValidBook(b) && |b.records| < MAX_COMMAND_RECORDS
    requires forall r :: r in b.records ==> r.nodeId != nodeId
    requires FIRST_NODE_ID <= nodeId <= LAST_NODE_ID && ValidCommandArguments(commandType, |arguments|)
    ensures
      var after := Append(b, deviceUid, nodeId, commandType, arguments, nowUnixMs);
      && ValidBook(after) && Find(after, nodeId) == Some(NewRecord(b, deviceUid, nodeId, commandType, arguments, nowUnixMs))
      && forall r :: r in b.records ==> r in after.records
  {
    hide IndexFrom, ValidCommandArguments, ValidRecord, NewRecord;
    var new_ := NewRecord(b, deviceUid, nodeId, commandType, arguments, nowUnixMs);
    NewRecordValid(b, deviceUid, nodeId, commandType, arguments, nowUnixMs);
    NewRecordNode(b, deviceUid, nodeId, commandType, arguments, nowUnixMs);
    var after := Append(b, deviceUid, nodeId, commandType, arguments, nowUnixMs);
    forall i | 0 <= i < |b.records|
      ensures after.records[i].nodeId != nodeId
    {
      assert after.records[i] == b.records[i];
      assert b.records[i] in b.records;
    }
    assert after.records[|b.records|] == new_;
  }

  lemma NewRecordNode(
    b: Book, deviceUid: Uid, nodeId: byte, commandType: byte, arguments: seq<byte>, nowUnixMs: uint64)
    requires |arguments| <= 8
    ensures NewRecord(b, deviceUid, nodeId, commandType, arguments, nowUnixMs).nodeId == nodeId
  {
  }

  /** Queueing keeps the book valid, refuses without a change, never drops a
      pending command of another node, and finds no room only in a book full of
      other nodes' pending commands. */
  lemma QueueValid(
    b: Book, deviceUid: Uid, nodeId: byte, commandType: byte, arguments: seq<byte>, nowUnixMs: uint64)
    requires ValidBook(b)
    ensures
      var (status, after) := Queue(b, deviceUid, nodeId, commandType, arguments, nowUnixMs);
      && ValidBook(after)
      && (status != Queued ==> after == b)
      && (status == Queued ==>
            && Find(after, nodeId).Some?
            && var r := Find(after, nodeId).value;
               && r.state == PENDING && r.deviceUid == deviceUid && r.commandType == commandType
               && r.arguments[..r.argumentSize] == arguments
               && r.commandId == b.nextCommandId && after.nextCommandId == NextId(b.nextCommandId))
      && KeepsPending(b, after, nodeId)
      && (status == CapacityReached <==>
            && FIRST_NODE_ID <= nodeId <= LAST_NODE_ID && ValidCommandArguments(commandType, |arguments|)
            && |b.records| == MAX_COMMAND_RECORDS && Find(b, nodeId).None?
            && forall r :: r in b.records ==> r.state == PENDING)
  {
    hide ValidBook, Find, Append, WithoutNode, MakeRoom, ValidCommandArguments;
    var (status, after) := Queue(b, deviceUid, nodeId, commandType, arguments, nowUnixMs);
    WithoutNodeValid(b, nodeId);
    var cleared := WithoutNode(b, nodeId);
    MakeRoomValid(cleared, nodeId);
    assert |b.records| <= MAX_COMMAND_RECORDS by { BookSize(b); }
    if status == Queued {
      var roomy := MakeRoom(cleared).value;
      AppendValid(roomy, deviceUid, nodeId, commandType, arguments, nowUnixMs);
      AppendFields(roomy, deviceUid, nodeId, commandType, arguments, nowUnixMs);
    }
  }

  lemma BookSize(b: Book)
    requires ValidBook(b)
    ensures |b.records| <= MAX_COMMAND_RECORDS
  {
  }

  lemma AppendFields(
    b: Book, deviceUid: Uid, nodeId: byte, commandType: byte, arguments: seq<byte>, nowUnixMs: uint64)
    requires |arguments| <= 8
    ensures
      var r := NewRecord(b, deviceUid, nodeId, commandType, arguments, nowUnixMs);
      && r.state == PENDING && r.deviceUid == deviceUid && r.commandType == commandType
      && r.arguments[..r.argumentSize] == arguments && r.commandId == b.nextCommandId
    ensures Append(b, deviceUid, nodeId, commandType, arguments, nowUnixMs).nextCommandId == NextId(b.nextCommandId)
  {
  }

  lemma OnlyPending(b: Book)
    requires ValidBook(b) && OldestCompleted(b.records, 0) == |b.records|
    ensures forall r :: r in b.records ==> r.state == PENDING
  {
  }

  /** Completing keeps the book valid and touches only the record it names. */
  lemma CompleteValid(
    b: Book, deviceUid: Uid, nodeId: byte, commandId: uint16, status: byte, data: seq<byte>, nowUnixMs: uint64)
    requires ValidBook(b)
    ensures
      var (outcome, after) := Complete(b, deviceUid, nodeId, commandId, status, data, nowUnixMs);
      && ValidBook(after)
      && (outcome != Completed ==> after == b)
      && (outcome == Completed ==>
            && Find(b, nodeId).Some? && Find(after, nodeId).Some?
            && var r := Find(after, nodeId).value;
               && r.state == COMPLETED && r.status == status && r.result[..r.resultSize] == data
               && r.commandId == commandId && r.arguments == Find(b, nodeId).value.arguments
               && r.commandType == Find(b, nodeId).value.commandType)
  {
    hide IndexFrom;
    var (outcome, after) := Complete(b, deviceUid, nodeId, commandId, status, data, nowUnixMs);
    if outcome == Completed {
      var index := IndexOf(b.records, nodeId);
      assert ValidRecord(b.records[index]);
      assert ValidRecord(after.records[index]);
      assert IndexOf(after.records, nodeId) == index by {
        assert after.records[IndexOf(after.records, nodeId)].nodeId == after.records[index].nodeId;
      }
    }
  }

  lemma RemovalsValid(b: Book, nodeId: byte)
    requires ValidBook(b)
    ensures ValidBook(Cancel(b, nodeId).1) && ValidBook(RemoveNode(b, nodeId).1) && ValidBook(Clear(b))
    ensures !Cancel(b, nodeId).0 ==> Cancel(b, nodeId).1 == b
    ensures Cancel(b, nodeId).0 || RemoveNode(b, nodeId).0 ==> Find(RemoveNode(b, nodeId).1, nodeId).None?
  {
    hide ValidRecord, IndexFrom;
    var index := IndexOf(b.records, nodeId);
    if index >= 0 {
      EraseValid(b, index);
    }
  }

  // ---------------------------------------------------------------- whole runs

  datatype Op =
    | DoQueue(deviceUid: Uid, nodeId: byte, commandType: byte, arguments: seq<byte>, nowUnixMs: uint64)
    | DoComplete(deviceUid: Uid, nodeId: byte, commandId: uint16, status: byte, data: seq<byte>, nowUnixMs: uint64)
    | DoCancel(nodeId: byte)
    | DoRemove(nodeId: byte)
    | DoClear

  function Perform(b: Book, op: Op): Book {
    match op
    case DoQueue(uid, node, commandType, arguments, now) => Queue(b, uid, node, commandType, arguments, now).1
    case DoComplete(uid, node, id, status, data, now) => Complete(b, uid, node, id, status, data, now).1
    case DoCancel(node) => Cancel(b, node).1
    case DoRemove(node) => RemoveNode(b, node).1
    case DoClear => Clear(b)
  }

  function Run(b: Book, ops: seq<Op>): Book {
    if ops == [] then b else Perform(Run(b, ops[..|ops| - 1]), ops[|ops| - 1])
  }

  /** The ID of the k-th command issued after one that had `first`: 1 to 65535 in turn. */
  function IdAt(first: uint16, k: nat): (id: uint16)
    requires first != 0
    ensures id != 0
  {
    (first - 1 + k) % 0xFFFF + 1
  }

  lemma IdAtNext(first: uint16, k: nat)
    requires first != 0
    ensures NextId(IdAt(first, k)) == IdAt(first, k + 1)
    ensures IdAt(first, 0) == first
  {
    var a := first - 1 + k;
    assert (a + 1) % 0xFFFF == if a % 0xFFFF == 0xFFFE then 0 else a % 0xFFFF + 1;
  }

  /** IDs repeat after 65535 commands and not before. */
  lemma IdsDiffer(first: uint16, i: nat, j: nat)
    requires first != 0 && i < j < i + 0xFFFF
    ensures IdAt(first, i) != IdAt(first, j)
  {
  }

  /** Issue numbers beside the records: kept records keep theirs, a queued one gets
      the next. */
  function Stamps(b: Book, stamps: seq<nat>, issued: nat, op: Op): seq<nat>
    requires |stamps| == |b.records|
  {
    match op
    case DoQueue(uid, node, commandType, arguments, now) =>
      if Queue(b, uid, node, commandType, arguments, now).0 != Queued then stamps
      else
        var index := IndexOf(b.records, node);
        var cleared := WithoutNode(b, node);
        var kept := if index >= 0 then Without(stamps, index) else stamps;
        RoomStamps(cleared, kept) + [issued]
    case DoComplete(_, _, _, _, _, _) => stamps
    case DoCancel(node) => if Cancel(b, node).0 then Without(stamps, IndexOf(b.records, node)) else stamps
    case DoRemove(node) => if RemoveNode(b, node).0 then Without(stamps, IndexOf(b.records, node)) else stamps
    case DoClear => []
  }

  function Issued(b: Book, issued: nat, op: Op): nat {
    if op.DoQueue? && Queue(b, op.deviceUid, op.nodeId, op.commandType, op.arguments, op.nowUnixMs).0 == Queued
    then issued + 1 else issued
  }

  /** Records stand in the order their commands were issued, and carry the IDs of
      that order. */
  predicate InIssueOrder(b: Book, first: uint16, stamps: seq<nat>, issued: nat)
    requires first != 0
  {
    && |stamps| == |b.records|
    && (forall i, j :: 0 <= i < j < |stamps| ==> stamps[i] < stamps[j])
    && (forall i :: 0 <= i < |stamps| ==> stamps[i] < issued && b.records[i].commandId == IdAt(first, stamps[i]))
    && b.nextCommandId == IdAt(first, issued)
  }

  lemma ErasedInOrder(b: Book, first: uint16, stamps: seq<nat>, issued: nat, index: nat)
    requires first != 0 && InIssueOrder(b, first, stamps, issued) && index < |b.records|
    ensures InIssueOrder(Erase(b, index), first, Without(stamps, index), issued)
  {
    hide IdAt;
    var s, r := Without(stamps, index), Erase(b, index).records;
    forall i | 0 <= i < |s|
      ensures s[i] == stamps[if i < index then i else i + 1] && r[i] == b.records[if i < index then i else i + 1]
    {
    }
  }

  lemma AppendedInOrder(b: Book, after: Book, first: uint16, stamps: seq<nat>, issued: nat, r: CommandRecord)
    requires first != 0 && InIssueOrder(b, first, stamps, issued)
    requires r.commandId == b.nextCommandId && after == Book(NextId(b.nextCommandId), b.records + [r])
    ensures InIssueOrder(after, first, stamps + [issued], issued + 1)
  {
    hide IdAt;
    IdAtNext(first, issued);
    forall i | 0 <= i < |stamps|
      ensures (stamps + [issued])[i] == stamps[i] && after.records[i] == b.records[i]
    {
    }
  }

  lemma QueueInOrder(b: Book, first: uint16, stamps: seq<nat>, issued: nat, op: Op)
    requires first != 0 && InIssueOrder(b, first, stamps, issued) && |stamps| == |b.records|
    requires op.DoQueue? && Queue(b, op.deviceUid, op.nodeId, op.commandType, op.arguments, op.nowUnixMs).0 == Queued
    ensures InIssueOrder(Perform(b, op), first, Stamps(b, stamps, issued, op), issued + 1)
  {
    hide InIssueOrder, IdAt, NewRecord, OldestCompleted, IndexFrom, ValidCommandArguments;
    var index := IndexOf(b.records, op.nodeId);
    var cleared := WithoutNode(b, op.nodeId);
    var kept := if index >= 0 then Without(stamps, index) else stamps;
    if index >= 0 {
      ErasedInOrder(b, first, stamps, issued, index);
    }
    RoomInOrder(cleared, first, kept, issued);
    var roomy := MakeRoom(cleared).value;
    var r := NewRecord(roomy, op.deviceUid, op.nodeId, op.commandType, op.arguments, op.nowUnixMs);
    AppendFields(roomy, op.deviceUid, op.nodeId, op.commandType, op.arguments, op.nowUnixMs);
    AppendedInOrder(roomy, Perform(b, op), first, RoomStamps(cleared, kept), issued, r);
  }

  function RoomStamps(b: Book, stamps: seq<nat>): seq<nat>
    requires |stamps| == |b.records|
  {
    var oldest := OldestCompleted(b.records, 0);
    if |stamps| == MAX_COMMAND_RECORDS && oldest < |stamps| then Without(stamps, oldest) else stamps
  }

  lemma RoomInOrder(b: Book, first: uint16, stamps: seq<nat>, issued: nat)
    requires first != 0 && InIssueOrder(b, first, stamps, issued) && |stamps| == |b.records|
    requires MakeRoom(b).Some?
    ensures InIssueOrder(MakeRoom(b).value, first, RoomStamps(b, stamps), issued)
  {
    hide InIssueOrder, OldestCompleted;
    if |b.records| == MAX_COMMAND_RECORDS {
      ErasedInOrder(b, first, stamps, issued, OldestCompleted(b.records, 0));
    }
  }

  lemma StepInOrder(b: Book, first: uint16, stamps: seq<nat>, issued: nat, op: Op)
    requires first != 0 && InIssueOrder(b, first, stamps, issued) && |stamps| == |b.records| && ValidBook(b)
    ensures InIssueOrder(Perform(b, op), first, Stamps(b, stamps, issued, op), Issued(b, issued, op))
  {
    hide InIssueOrder, ValidBook, Queue, Complete, Clear, WithoutNode, IndexFrom, OldestCompleted;
    match op {
      case DoQueue(uid, node, commandType, arguments, now) =>
        if Queue(b, uid, node, commandType, arguments, now).0 == Queued {
          QueueInOrder(b, first, stamps, issued, op);
        } else {
          QueueValid(b, uid, node, commandType, arguments, now);
        }
      case DoComplete(uid, node, id, status, data, now) =>
        CompleteInOrder(b, first, stamps, issued, uid, node, id, status, data, now);
      case DoCancel(node) =>
        if Cancel(b, node).0 { ErasedInOrder(b, first, stamps, issued, IndexOf(b.records, node)); }
      case DoRemove(node) =>
        if RemoveNode(b, node).0 { ErasedInOrder(b, first, stamps, issued, IndexOf(b.records, node)); }
      case DoClear =>
        ClearInOrder(b, first, stamps, issued);
    }
  }

  lemma StampCount(b: Book, first: uint16, stamps: seq<nat>, issued: nat)
    requires first != 0 && InIssueOrder(b, first, stamps, issued)
    ensures |stamps| == |b.records|
  {
  }

  lemma ClearInOrder(b: Book, first: uint16, stamps: seq<nat>, issued: nat)
    requires first != 0 && InIssueOrder(b, first, stamps, issued)
    ensures InIssueOrder(Clear(b), first, [], issued)
  {
  }

  lemma CompleteInOrder(
    b: Book, first: uint16, stamps: seq<nat>, issued: nat,
    uid: Uid, node: byte, id: uint16, status: byte, data: seq<byte>, now: uint64)
    requires first != 0 && InIssueOrder(b, first, stamps, issued)
    ensures InIssueOrder(Complete(b, uid, node, id, status, data, now).1, first, stamps, issued)
  {
    hide IdAt, IndexFrom;
  }

  lemma PerformValid(b: Book, op: Op)
    requires ValidBook(b)
    ensures ValidBook(Perform(b, op))
  {
    hide ValidBook, Queue, Complete, Cancel, RemoveNode, Clear;
    match op {
      case DoQueue(uid, node, commandType, arguments, now) => QueueValid(b, uid, node, commandType, arguments, now);
      case DoComplete(uid, node, id, status, data, now) => CompleteValid(b, uid, node, id, status, data, now);
      case DoCancel(node) => RemovalsValid(b, node);
      case DoRemove(node) => RemovalsValid(b, node);
      case DoClear => RemovalsValid(b, 0);
    }
  }

  /** Every reachable book is valid for its codec, so it has at most one record for
      each node, and its records stand in issue order. */
  lemma {:induction false} ReachableBook(first: uint16, ops: seq<Op>) returns (stamps: seq<nat>, issued: nat)
    requires first != 0
    ensures ValidBook(Run(Book(first, []), ops))
    ensures InIssueOrder(Run(Book(first, []), ops), first, stamps, issued)
    ensures issued <= |ops|
  {
    if ops == [] {
      stamps, issued := [], 0;
      IdAtNext(first, 0);
    } else {
      hide ValidBook, InIssueOrder, Perform;
      var before, issuedBefore := ReachableBook(first, ops[..|ops| - 1]);
      var b, op := Run(Book(first, []), ops[..|ops| - 1]), ops[|ops| - 1];
      StampCount(b, first, before, issuedBefore);
      StepInOrder(b, first, before, issuedBefore, op);
      PerformValid(b, op);
      stamps, issued := Stamps(b, before, issuedBefore, op), Issued(b, issuedBefore, op);
    }
  }
}
