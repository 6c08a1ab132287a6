/** The command book in memory: a fixed array whose unused tail is blank. */
module CommandTable {
  import opened Bytes
  import opened Protocol
  import opened Options
  import opened CommandBook

  class Table {
    const records: array<CommandRecord>
    var count: nat
    var nextCommandId: uint16

    /** The tail beyond `count` is what a default record holds. */
    ghost predicate Valid()
      reads this, records
    {
      && records.Length == MAX_COMMAND_RECORDS && count <= MAX_COMMAND_RECORDS
      && forall i :: count <= i < MAX_COMMAND_RECORDS ==> records[i] == BLANK
    }

    function View(): Book
      requires Valid()
      reads this, records
    {
      Book(nextCommandId, records[..count])
    }

    constructor (first: uint16)
      ensures Valid() && fresh(records) && View() == Book(first, [])
    {
      records := new CommandRecord[MAX_COMMAND_RECORDS](_ => BLANK);
      count, nextCommandId := 0, first;
    }

    method IndexOfNode(nodeId: byte) returns (index: int)
      requires Valid()
      ensures index == IndexOf(records[..count], nodeId)
    {
      for i := 0 to count
        invariant IndexOf(records[..count], nodeId) == IndexFrom(records[..count], nodeId, i)
      {
        if records[i].nodeId == nodeId {
          return i;
        }
      }
      return -1;
    }

    /** Closes the gap and blanks the cell that becomes unused. */
    method EraseAt(index: nat)
      requires Valid() && index < count
      modifies this, records
      ensures Valid() && View() == Erase(old(View()), index)
    {
      for next := index + 1 to count
        invariant count == old(count) && nextCommandId == old(nextCommandId)
        invariant forall i :: 0 <= i < index ==> records[i] == old(records[i])
        invariant forall i :: index <= i < next - 1 ==> records[i] == old(records[i + 1])
        invariant forall i :: next - 1 <= i < MAX_COMMAND_RECORDS ==> records[i] == old(records[i])
      {
        records[next - 1] := records[next];
      }
      count := count - 1;
      records[count] := BLANK;
      assert records[..count] == Without(old(records[..count]), index);
    }

    method OldestDone() returns (index: nat)
      requires Valid()
      ensures index == OldestCompleted(records[..count], 0)
    {
      index := 0;
      while index < count && records[index].state != COMPLETED
        invariant index <= count
        invariant OldestCompleted(records[..count], 0) == OldestCompleted(records[..count], index)
      {
        index := index + 1;
      }
    }

    /** A full book gives up its oldest completed record. */
    method MakePlace() returns (roomy: bool)
      requires Valid()
      modifies this, records
      ensures Valid()
      ensures MakeRoom(old(View())) == if roomy then Some(View()) else None
      ensures roomy ==> count < MAX_COMMAND_RECORDS
      ensures nextCommandId == old(nextCommandId)
      ensures !roomy ==> View() == old(View())
    {
      hide OldestCompleted;
      if count == MAX_COMMAND_RECORDS {
        var oldest := OldestDone();
        if oldest == count {
          return false;
        }
        EraseAt(oldest);
      }
      roomy := true;
    }

    method DoQueue(deviceUid: Uid, nodeId: byte, commandType: byte, arguments: seq<byte>, nowUnixMs: uint64)
      returns (status: QueueStatus, commandId: uint16)
      requires Valid()
      modifies this, records
      ensures Valid()
      ensures (status, View()) == Queue(old(View()), deviceUid, nodeId, commandType, arguments, nowUnixMs)
      ensures status == Queued ==> commandId == old(nextCommandId)
    {
      hide OldestCompleted, IndexFrom, Append, NewRecord, ValidCommandArguments, MakeRoom, Without;
      commandId := 0;
      if nodeId < FIRST_NODE_ID || nodeId > LAST_NODE_ID {
        return InvalidNode, commandId;
      }
      if !ValidCommandArguments(commandType, |arguments|) {
        return InvalidArguments, commandId;
      }
      var existing := IndexOfNode(nodeId);
      if existing >= 0 {
        if records[existing].state == PENDING && records[existing].deviceUid == deviceUid {
          return Busy, commandId;
        }
        EraseAt(existing);
      }
      assert View() == WithoutNode(old(View()), nodeId);
      var roomy := MakePlace();
      if !roomy {
        return CapacityReached, commandId;
      }
      commandId := nextCommandId;
      AppendRecord(deviceUid, nodeId, commandType, arguments, nowUnixMs);
      status := Queued;
    }

    method AppendRecord(deviceUid: Uid, nodeId: byte, commandType: byte, arguments: seq<byte>, nowUnixMs: uint64)
      requires Valid() && count < MAX_COMMAND_RECORDS && |arguments| <= 8
      modifies this, records
      ensures Valid()
      ensures View() == Append(old(View()), deviceUid, nodeId, commandType, arguments, nowUnixMs)
    {
      ghost var before := View();
      records[count] := CommandRecord(
        deviceUid, nodeId, nextCommandId, commandType, |arguments|, Padded(arguments), PENDING, 0, 0, Padded([]),
        nowUnixMs, 0);
      count := count + 1;
      nextCommandId := if nextCommandId == UINT16_MAX then 1 else nextCommandId + 1;
      assert View().records == before.records + [records[count - 1]];
    }

    method DoComplete(
      deviceUid: Uid, nodeId: byte, commandId: uint16, status: byte, data: seq<byte>, nowUnixMs: uint64)
      returns (outcome: CompleteStatus)
      requires Valid()
      modifies records
      ensures Valid()
      ensures (outcome, View()) == Complete(old(View()), deviceUid, nodeId, commandId, status, data, nowUnixMs)
    {
      hide IndexFrom;
      var index := IndexOfNode(nodeId);
      if index < 0 {
        return NotPending;
      }
      var r := records[index];
      if r.state != PENDING || r.commandId != commandId || r.deviceUid != deviceUid {
        return NotPending;
      }
      if !ValidCommandStatus(status) {
        return InvalidResult;
      }
      if status == STORAGE_FAILURE {
        return Retry;
      }
      if |data| != ResultDataSize(r.commandType, status) {
        return InvalidResult;
      }
      records[index] := CompletedRecord(r, status, data, nowUnixMs);
      return Completed;
    }

    method DoCancel(nodeId: byte) returns (cancelled: bool)
      requires Valid()
      modifies this, records
      ensures Valid() && (cancelled, View()) == Cancel(old(View()), nodeId)
    {
      var index := IndexOfNode(nodeId);
      if index < 0 || records[index].state != PENDING {
        return false;
      }
      EraseAt(index);
      return true;
    }

    method DoRemoveNode(nodeId: byte) returns (removed: bool)
      requires Valid()
      modifies this, records
      ensures Valid() && (removed, View()) == RemoveNode(old(View()), nodeId)
    {
      var index := IndexOfNode(nodeId);
      if index < 0 {
        return false;
      }
      EraseAt(index);
      return true;
    }

    method DoClear()
      requires Valid()
      modifies this, records
      ensures Valid() && View() == Clear(old(View()))
    {
      for i := 0 to MAX_COMMAND_RECORDS
        invariant nextCommandId == old(nextCommandId)
        invariant forall j :: 0 <= j < i ==> records[j] == BLANK
      {
        records[i] := BLANK;
      }
      count := 0;
    }

    /** `candidate = book`. */
    method CopyFrom(other: Table)
      requires other.Valid() && other != this && other.records != records && records.Length == MAX_COMMAND_RECORDS
      modifies this, records
      ensures Valid() && View() == other.View()
    {
      for i := 0 to MAX_COMMAND_RECORDS
        invariant forall j :: 0 <= j < i ==> records[j] == other.records[j]
      {
        records[i] := other.records[i];
      }
      count, nextCommandId := other.count, other.nextCommandId;
      assert records[..count] == other.records[..count];
    }

    /** A book read from flash. */
    method Assign(b: Book)
      requires Valid() && |b.records| <= MAX_COMMAND_RECORDS
      modifies this, records
      ensures Valid() && View() == b
    {
      for i := 0 to MAX_COMMAND_RECORDS
        invariant forall j :: 0 <= j < i ==> records[j] == if j < |b.records| then b.records[j] else BLANK
      {
        records[i] := if i < |b.records| then b.records[i] else BLANK;
      }
      count, nextCommandId := |b.records|, b.nextCommandId;
      assert records[..count] == b.records;
    }
  }
}
