/** The node registry in memory: an array of 64 records changed in place. */
module NodeTable {
  import opened Bytes
  import opened Protocol
  import opened Utf8
  import opened NodeRegistry

  class Table {
    const records: array<NodeRecord>
    var count: nat

    ghost predicate Valid()
      reads this
    {
      records.Length == MAX_NODES && count <= MAX_NODES
    }

    function View(): Registry
      requires Valid()
      reads this, records
    {
      Registry(records[..], count)
    }

    constructor ()
      ensures Valid() && fresh(records) && View() == NOTHING
    {
      records := new NodeRecord[MAX_NODES](_ => BLANK);
      count := 0;
      new;
      assert records[..] == Blanks(MAX_NODES);
    }

    method FindByUid(deviceUid: Uid) returns (index: int)
      requires Valid()
      ensures index == ByUid(records[..count], deviceUid)
    {
      for i := 0 to count
        invariant UidIndexFrom(records[..count], deviceUid, 0) == UidIndexFrom(records[..count], deviceUid, i)
      {
        if records[i].deviceUid == deviceUid {
          return i;
        }
      }
      return -1;
    }

    method FindByNodeId(nodeId: byte) returns (index: int)
      requires Valid()
      ensures index == ById(records[..count], nodeId)
    {
      for i := 0 to count
        invariant IdIndexFrom(records[..count], nodeId, 0) == IdIndexFrom(records[..count], nodeId, i)
      {
        if records[i].nodeId == nodeId {
          return i;
        }
      }
      return -1;
    }

    method AllocateId() returns (nodeId: byte)
      requires Valid()
      ensures nodeId == AllocateNodeId(records[..count])
    {
      hide IdIndexFrom;
      var candidate: nat := 1;
      while candidate <= 99
        invariant 1 <= candidate <= 100
        invariant AllocateNodeId(records[..count]) == FreeIdFrom(records[..count], candidate)
      {
        var index := FindByNodeId(candidate);
        if index < 0 {
          return candidate;
        }
        candidate := candidate + 1;
      }
      return UNPROVISIONED;
    }

    /** Changes one record in place. */
    method Put(index: nat, value: NodeRecord)
      requires Valid() && index < MAX_NODES
      modifies records
      ensures View() == SetCell(old(View()), index, value)
    {
      records[index] := value;
      assert records[..] == old(records[..])[index := value];
    }

    method DoReserve(request: JoinRequest) returns (status: ReserveStatus, nodeId: byte)
      requires Valid()
      modifies this, records
      ensures Valid() && (status, nodeId, View()) == Reserve(old(View()), request)
    {
      hide UidIndexFrom, IdIndexFrom, FreeIdFrom;
      assert Live(View()) == records[..count];
      if request.profileId == 0 {
        return InvalidProfileId, UNPROVISIONED;
      }
      var existing := FindByUid(request.deviceUid);
      if existing >= 0 {
        var record := records[existing];
        nodeId := record.nodeId;
        if record.profileId != request.profileId {
          return ProfileConflict, nodeId;
        }
        if record.state == ACTIVE {
          return ExistingActive, nodeId;
        }
        if record.state == DISABLED {
          return ExistingDisabled, nodeId;
        }
        Put(existing, RequestedAgain(record, request));
        return ExistingPendingUpdated, nodeId;
      }
      if count >= MAX_NODES {
        return Full, UNPROVISIONED;
      }
      nodeId := AllocateId();
      if nodeId == UNPROVISIONED {
        return Full, UNPROVISIONED;
      }
      Put(count, CreatedRecord(records[count], nodeId, request));
      count := count + 1;
      status := Created;
    }

    method DoConfirm(deviceUid: Uid, nodeId: byte, nonce: uint32) returns (status: ConfirmStatus)
      requires Valid()
      modifies records
      ensures Valid() && (status, View()) == Confirm(old(View()), deviceUid, nodeId, nonce)
    {
      assert Live(View()) == records[..count];
      var index := FindByNodeId(nodeId);
      if index < 0 {
        return ConfirmStatus.NotFound;
      }
      var record := records[index];
      if record.deviceUid != deviceUid {
        return IdentityMismatch;
      }
      if record.requestNonce != nonce {
        return NonceMismatch;
      }
      if record.state == ACTIVE {
        return AlreadyActive;
      }
      if record.state != PENDING {
        return NotPending;
      }
      Put(index, record.(state := ACTIVE));
      return Confirmed;
    }

    method DoDisable(nodeId: byte) returns (disabled: bool)
      requires Valid()
      modifies records
      ensures Valid() && (disabled, View()) == Disable(old(View()), nodeId)
    {
      assert Live(View()) == records[..count];
      var index := FindByNodeId(nodeId);
      if index < 0 || records[index].state == DISABLED {
        return false;
      }
      Put(index, records[index].(state := DISABLED, requestNonce := 0));
      return true;
    }

    method DoRemove(nodeId: byte) returns (removed: bool)
      requires Valid()
      modifies this, records
      ensures Valid() && (removed, View()) == Remove(old(View()), nodeId)
    {
      assert Live(View()) == records[..count];
      var index := FindByNodeId(nodeId);
      if index < 0 {
        return false;
      }
      Put(index, records[count - 1]);
      Put(count - 1, BLANK);
      count := count - 1;
      return true;
    }

    method DoRename(nodeId: byte, name: seq<byte>) returns (status: RenameStatus)
      requires Valid()
      modifies records
      ensures Valid() && (status, View()) == Rename(old(View()), nodeId, name)
    {
      hide IdIndexFrom;
      assert Live(View()) == records[..count];
      var valid := CheckDisplayName(name);
      if !valid {
        return InvalidName;
      }
      ShortName(name);
      var index := FindByNodeId(nodeId);
      if index < 0 {
        return RenameStatus.NotFound;
      }
      var record := records[index];
      if record.displayNameLength == |name| && record.displayName[..|name|] == name {
        return RenameStatus.NoChange;
      }
      Put(index, Named(record, name));
      return Renamed;
    }

    method DoSetPowerPolicy(nodeId: byte, policy: byte) returns (status: PolicyStatus)
      requires Valid()
      modifies records
      ensures Valid() && (status, View()) == SetPowerPolicy(old(View()), nodeId, policy)
    {
      assert Live(View()) == records[..count];
      var index := FindByNodeId(nodeId);
      if index < 0 {
        return PolicyStatus.NotFound;
      }
      var record := records[index];
      if !ValidPolicy(policy) || (FixedPolicy(policy) && FixedLevel(policy) > record.maxPowerLevel) {
        return InvalidPolicy;
      }
      if record.powerPolicy == policy {
        return PolicyStatus.NoChange;
      }
      Put(index, record.(powerPolicy := policy));
      return PolicyStatus.Updated;
    }

    method DoUpdateInfo(nodeId: byte, deviceUid: Uid, info: NodeInfo) returns (status: InfoStatus)
      requires Valid()
      modifies records
      ensures Valid() && (status, View()) == UpdateInfo(old(View()), nodeId, deviceUid, info)
    {
      assert Live(View()) == records[..count];
      var index := FindByNodeId(nodeId);
      if index < 0 || records[index].state != ACTIVE || records[index].deviceUid != deviceUid {
        return InfoStatus.NotFound;
      }
      var record := records[index];
      var changed := record.profileId != info.profileId;
      if !changed && record.firmware == info.firmware && record.maxPowerLevel == info.maxPowerLevel {
        return InfoStatus.NoChange;
      }
      Put(index, record.(
        profileId := info.profileId, firmware := info.firmware, maxPowerLevel := info.maxPowerLevel,
        powerPolicy := Clamped(record.powerPolicy, info.maxPowerLevel)));
      return if changed then ProfileChanged else InfoStatus.Updated;
    }

    /** Checks every record and every pair before anything is written. */
    method DoRestore(source: seq<NodeRecord>) returns (ok: bool)
      requires Valid()
      modifies this, records
      ensures Valid()
      ensures ok <==> Restore(source).Some?
      ensures View() == if ok then Restore(source).value else old(View())
    {
      hide Restorable;
      if |source| > MAX_NODES {
        return false;
      }
      for index := 0 to |source|
        invariant View() == old(View())
        invariant forall i :: 0 <= i < index ==> Restorable(source[i])
        invariant Unique(source[..index])
      {
        if !Restorable(source[index]) {
          return false;
        }
        for previous := 0 to index
          invariant View() == old(View())
          invariant forall i :: 0 <= i < previous ==>
                      source[i].nodeId != source[index].nodeId && source[i].deviceUid != source[index].deviceUid
        {
          if source[previous].nodeId == source[index].nodeId || source[previous].deviceUid == source[index].deviceUid {
            return false;
          }
        }
      }
      assert source[..|source|] == source;
      Take(source);
      return true;
    }

    method Take(source: seq<NodeRecord>)
      requires Valid() && |source| <= MAX_NODES
      modifies this, records
      ensures Valid() && View() == Registry(source + Blanks(MAX_NODES - |source|), |source|)
    {
      for index := 0 to MAX_NODES
        invariant forall i :: 0 <= i < index ==> records[i] == if i < |source| then source[i] else BLANK
      {
        records[index] := if index < |source| then source[index] else BLANK;
      }
      count := |source|;
      assert records[..] == source + Blanks(MAX_NODES - |source|);
    }

    /** Copy construction and assignment. */
    method CopyFrom(other: Table)
      requires Valid() && other.Valid() && other.records != records && other != this
      modifies this, records
      ensures Valid() && View() == other.View()
    {
      for i := 0 to MAX_NODES
        invariant forall j :: 0 <= j < i ==> records[j] == other.records[j]
      {
        records[i] := other.records[i];
      }
      count := other.count;
      assert records[..] == other.records[..];
    }

    /** A registry read from flash. */
    method Assign(r: Registry)
      requires Valid() && r.count <= MAX_NODES
      modifies this, records
      ensures Valid() && View() == r
    {
      for i := 0 to MAX_NODES
        invariant forall j :: 0 <= j < i ==> records[j] == r.cells[j]
      {
        records[i] := r.cells[i];
      }
      count := r.count;
      assert records[..] == r.cells;
    }

    method Clear()
      requires Valid()
      modifies this, records
      ensures Valid() && View() == NOTHING
    {
      Take([]);
      assert [] + Blanks(MAX_NODES) == Blanks(MAX_NODES);
    }
  }
}
