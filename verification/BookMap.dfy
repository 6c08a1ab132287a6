/** The command book seen from outside: a map from nodes to their one record. Each
    operation changes the record of its node and no other, except that queueing in a
    full book gives up the oldest completed one. */
module BookMap {
  import opened Bytes
  import opened Protocol
  import opened Options
  import opened CommandBook

  /** In a valid book a node's record is found wherever it is. */
  lemma FoundAt(b: Book, i: nat)
    requires ValidBook(b) && i < |b.records|
    ensures Find(b, b.records[i].nodeId) == Some(b.records[i])
  {
    hide ValidRecord, IndexFrom;
    var index := IndexOf(b.records, b.records[i].nodeId);
    assert b.records[index].nodeId == b.records[i].nodeId;
  }

  lemma FoundNowhere(b: Book, nodeId: byte)
    requires forall i :: 0 <= i < |b.records| ==> b.records[i].nodeId != nodeId
    ensures Find(b, nodeId).None?
  {
  }

  /** Books with the same records, in whatever order, find the same. */
  lemma SameRecordsFindSame(a: Book, b: Book, nodeId: byte)
    requires ValidBook(a) && ValidBook(b)
    requires forall r: CommandRecord :: r.nodeId == nodeId ==> (r in a.records <==> r in b.records)
    ensures Find(a, nodeId) == Find(b, nodeId)
  {
    hide ValidBook, IndexFrom;
    if Find(a, nodeId).Some? {
      var i := IndexOf(a.records, nodeId);
      assert a.records[i] in b.records;
      var j :| 0 <= j < |b.records| && b.records[j] == a.records[i];
      FoundAt(b, j);
    } else {
      assert forall x :: x in a.records ==> x.nodeId != nodeId;
      assert forall j :: 0 <= j < |b.records| ==> b.records[j] in b.records;
      FoundNowhere(b, nodeId);
    }
  }

  lemma EraseFinds(b: Book, index: nat, nodeId: byte)
    requires ValidBook(b) && index < |b.records|
    ensures Find(Erase(b, index), nodeId) == if nodeId == b.records[index].nodeId then None else Find(b, nodeId)
  {
    EraseValid(b, index);
    hide ValidRecord, IndexFrom, Find;
    var after := Erase(b, index);
    assert forall i :: 0 <= i < |after.records| ==> after.records[i] == b.records[if i < index then i else i + 1];
    if nodeId == b.records[index].nodeId {
      FoundNowhere(after, nodeId);
    } else {
      forall r: CommandRecord | r.nodeId == nodeId && r in b.records
        ensures r in after.records
      {
        var i :| 0 <= i < |b.records| && b.records[i] == r;
        assert after.records[if i < index then i else i - 1] == r;
      }
      SameRecordsFindSame(after, b, nodeId);
    }
  }

  lemma AppendFinds(b: Book, r: CommandRecord, next: uint16, nodeId: byte)
    requires Find(b, r.nodeId).None?
    ensures Find(Book(next, b.records + [r]), nodeId) == if nodeId == r.nodeId then Some(r) else Find(b, nodeId)
  {
    hide IndexFrom;
    var after := Book(next, b.records + [r]);
    assert after.records[|b.records|] == r && forall i :: 0 <= i < |b.records| ==> after.records[i] == b.records[i];
    var i, j := IndexOf(after.records, nodeId), IndexOf(b.records, nodeId);
    IndexAppend(b.records, r, nodeId, 0);
  }

  lemma {:induction false} IndexAppend(records: seq<CommandRecord>, r: CommandRecord, nodeId: byte, from: nat)
    requires from <= |records|
    ensures IndexFrom(records + [r], nodeId, from) ==
            if IndexFrom(records, nodeId, from) >= 0 then IndexFrom(records, nodeId, from)
            else if r.nodeId == nodeId then |records| else -1
    decreases |records| - from
  {
    if from < |records| {
      IndexAppend(records, r, nodeId, from + 1);
    }
  }

  /** The oldest completed record of another node than `nodeId`. */
  predicate OldestCompletedOther(b: Book, nodeId: byte, victim: byte) {
    && victim != nodeId && Find(b, victim).Some? && Find(b, victim).value.state == COMPLETED
    && forall i :: 0 <= i < |b.records| && b.records[i].state == COMPLETED && b.records[i].nodeId != nodeId ==>
         IndexOf(b.records, victim) <= i
  }

  /** What queueing does, record by record. */
  lemma QueueMeaning(
    b: Book, deviceUid: Uid, nodeId: byte, commandType: byte, arguments: seq<byte>, now: uint64, other: byte)
    requires ValidBook(b) && other != nodeId
    ensures
      var (status, after) := Queue(b, deviceUid, nodeId, commandType, arguments, now);
      var valid := FIRST_NODE_ID <= nodeId <= LAST_NODE_ID && ValidCommandArguments(commandType, |arguments|);
      var current := Find(b, nodeId);
      && (status == InvalidNode <==> !(FIRST_NODE_ID <= nodeId <= LAST_NODE_ID))
      && (status == InvalidArguments <==>
            FIRST_NODE_ID <= nodeId <= LAST_NODE_ID && !ValidCommandArguments(commandType, |arguments|))
      && (status == CapacityReached <==>
            valid && current.None? && |b.records| == MAX_COMMAND_RECORDS &&
            forall i :: 0 <= i < |b.records| ==> b.records[i].state == PENDING)
      && (status == Busy <==>
            valid && current.Some? && current.value.state == PENDING && current.value.deviceUid == deviceUid)
      && (status == Queued ==>
            && |arguments| <= 8
            && Find(after, nodeId) == Some(CommandRecord(
                 deviceUid, nodeId, b.nextCommandId, commandType, |arguments|, Padded(arguments), PENDING, 0, 0,
                 Padded([]), now, 0))
            && (Find(after, other) == Find(b, other) ||
                (Find(after, other).None? && current.None? && |b.records| == MAX_COMMAND_RECORDS &&
                 OldestCompletedOther(b, nodeId, other))))
      && (status != Queued ==> after == b)
  {
    QueueValid(b, deviceUid, nodeId, commandType, arguments, now);
    RoomMeaning(b, nodeId);
    var (status, after) := Queue(b, deviceUid, nodeId, commandType, arguments, now);
    if status == Queued {
      hide IndexFrom, OldestCompleted, Find, ValidBook;
      WithoutNodeValid(b, nodeId);
      WithoutFinds(b, nodeId, nodeId);
      WithoutFinds(b, nodeId, other);
      var cleared := WithoutNode(b, nodeId);
      var roomy := MakeRoom(cleared).value;
      RoomFinds(cleared, nodeId);
      RoomFinds(cleared, other);
      var r := NewRecord(roomy, deviceUid, nodeId, commandType, arguments, now);
      AppendFinds(roomy, r, NextId(roomy.nextCommandId), nodeId);
      AppendFinds(roomy, r, NextId(roomy.nextCommandId), other);
      BookSize(b);
      if Find(roomy, other) != Find(b, other) {
        VictimKept(b, nodeId, other);
      }
    }
  }

  /** There is no room exactly in a book full of other nodes' pending commands. */
  lemma RoomMeaning(b: Book, nodeId: byte)
    requires ValidBook(b)
    ensures
      MakeRoom(WithoutNode(b, nodeId)).None? <==>
        Find(b, nodeId).None? && |b.records| == MAX_COMMAND_RECORDS &&
        forall i :: 0 <= i < |b.records| ==> b.records[i].state == PENDING
  {
    hide IndexFrom;
    BookSize(b);
    assert forall i :: 0 <= i < |b.records| ==> ValidRecord(b.records[i]);
  }

  lemma WithoutFinds(b: Book, nodeId: byte, other: byte)
    requires ValidBook(b)
    ensures Find(WithoutNode(b, nodeId), other) == if other == nodeId then None else Find(b, other)
  {
    hide ValidRecord, IndexFrom;
    var index := IndexOf(b.records, nodeId);
    if index >= 0 {
      EraseFinds(b, index, other);
    }
  }

  /** Making room drops at most the oldest completed record. */
  lemma RoomFinds(b: Book, nodeId: byte)
    requires ValidBook(b) && MakeRoom(b).Some?
    ensures
      var roomy := MakeRoom(b).value;
      || Find(roomy, nodeId) == Find(b, nodeId)
      || (Find(roomy, nodeId).None? && |b.records| == MAX_COMMAND_RECORDS && Find(b, nodeId).Some? &&
          Find(b, nodeId).value.state == COMPLETED &&
          forall i :: 0 <= i < |b.records| && b.records[i].state == COMPLETED ==> IndexOf(b.records, nodeId) <= i)
  {
    hide ValidRecord, IndexFrom;
    if |b.records| == MAX_COMMAND_RECORDS {
      var oldest := OldestCompleted(b.records, 0);
      EraseFinds(b, oldest, nodeId);
      FoundAt(b, oldest);
      if nodeId == b.records[oldest].nodeId {
        assert IndexOf(b.records, nodeId) == oldest by {
          assert b.records[IndexOf(b.records, nodeId)].nodeId == b.records[oldest].nodeId;
        }
      }
    }
  }

  lemma VictimKept(b: Book, nodeId: byte, other: byte)
    requires ValidBook(b) && other != nodeId
    requires
      var cleared := WithoutNode(b, nodeId);
      && |cleared.records| == MAX_COMMAND_RECORDS && Find(cleared, other).Some?
      && Find(cleared, other).value.state == COMPLETED
      && forall i :: 0 <= i < |cleared.records| && cleared.records[i].state == COMPLETED ==>
           IndexOf(cleared.records, other) <= i
    ensures Find(b, nodeId).None? && |b.records| == MAX_COMMAND_RECORDS && OldestCompletedOther(b, nodeId, other)
  {
    hide ValidRecord, IndexFrom;
    WithoutNodeValid(b, nodeId);
    BookSize(b);
  }

  /** Completing answers exactly the pending command it names, and only once. */
  lemma CompleteMeaning(
    b: Book, deviceUid: Uid, nodeId: byte, commandId: uint16, status: byte, data: seq<byte>, now: uint64, other: byte)
    requires ValidBook(b) && other != nodeId
    ensures
      var (outcome, after) := Complete(b, deviceUid, nodeId, commandId, status, data, now);
      var current := Find(b, nodeId);
      var named := current.Some? && current.value.state == PENDING && current.value.commandId == commandId &&
                   current.value.deviceUid == deviceUid;
      && (outcome == NotPending <==> !named)
      && (outcome == Retry <==> named && status == STORAGE_FAILURE)
      && (outcome == Completed <==>
            named && status < STORAGE_FAILURE && |data| == ResultDataSize(current.value.commandType, status))
      && Find(after, other) == Find(b, other)
      && (outcome == Completed ==>
            Find(after, nodeId) == Some(current.value.(
              state := COMPLETED, status := status, resultSize := |data|, result := Padded(data),
              completedAtUnixMs := now)))
      && (outcome == Completed ==> Complete(after, deviceUid, nodeId, commandId, status, data, now).0 == NotPending)
  {
    CompleteValid(b, deviceUid, nodeId, commandId, status, data, now);
    var (outcome, after) := Complete(b, deviceUid, nodeId, commandId, status, data, now);
    hide IndexFrom;
    if outcome == Completed {
      var index := IndexOf(b.records, nodeId);
      var r := b.records[index];
      assert ValidRecord(r);
      assert data + r.result[|data|..] == Padded(data);
      FoundAt(after, index);
      ReplaceFinds(b, after, index, other);
    }
  }

  lemma ReplaceFinds(b: Book, after: Book, index: nat, other: byte)
    requires ValidBook(b) && ValidBook(after) && index < |b.records| == |after.records|
    requires after.records[index].nodeId == b.records[index].nodeId != other
    requires forall i :: 0 <= i < |b.records| && i != index ==> after.records[i] == b.records[i]
    ensures Find(after, other) == Find(b, other)
  {
    hide ValidRecord, IndexFrom, DistinctNodes;
    forall r: CommandRecord | r.nodeId == other
      ensures r in after.records <==> r in b.records
    {
      if r in b.records {
        var i :| 0 <= i < |b.records| && b.records[i] == r;
        assert after.records[i] == r;
      }
      if r in after.records {
        var i :| 0 <= i < |b.records| && after.records[i] == r;
        assert b.records[i] == r;
      }
    }
    SameRecordsFindSame(after, b, other);
  }

  /** Cancelling removes a pending command, removing any record of its node. */
  lemma RemovalMeaning(b: Book, nodeId: byte, other: byte)
    requires ValidBook(b)
    ensures Cancel(b, nodeId).0 <==> Find(b, nodeId).Some? && Find(b, nodeId).value.state == PENDING
    ensures RemoveNode(b, nodeId).0 <==> Find(b, nodeId).Some?
    ensures Find(RemoveNode(b, nodeId).1, other) == if other == nodeId then None else Find(b, other)
    ensures Cancel(b, nodeId).1 == if Cancel(b, nodeId).0 then RemoveNode(b, nodeId).1 else b
    ensures Find(Clear(b), other).None? && Clear(b).nextCommandId == b.nextCommandId
    ensures RemoveNode(b, nodeId).1.nextCommandId == b.nextCommandId
  {
    hide ValidRecord, IndexFrom;
    var index := IndexOf(b.records, nodeId);
    if index >= 0 {
      EraseFinds(b, index, other);
    }
  }
}
