/** The node registry seen from outside: a map from node IDs to records, in which no
    two records share a device UID. */
module RegistryMap {
  import opened Bytes
  import opened Protocol
  import opened Options
  import opened Utf8
  import opened NodeRegistry

  function Lookup(r: Registry, nodeId: byte): Option<NodeRecord>
    requires r.count <= MAX_NODES
  {
    var index := ById(Live(r), nodeId);
    if index < 0 then None else Some(r.cells[index])
  }

  function LookupUid(r: Registry, uid: Uid): Option<NodeRecord>
    requires r.count <= MAX_NODES
  {
    var index := ByUid(Live(r), uid);
    if index < 0 then None else Some(r.cells[index])
  }

  /** A record is found by its ID and by its UID, wherever it is. */
  lemma FoundAt(r: Registry, i: nat)
    requires Good(false, r) && i < r.count
    ensures r.count <= MAX_NODES
    ensures Lookup(r, r.cells[i].nodeId) == Some(r.cells[i]) == LookupUid(r, r.cells[i].deviceUid)
  {
    hide GoodRecord, IdIndexFrom, UidIndexFrom;
    var s := Live(r);
    var j, k := ById(s, s[i].nodeId), ByUid(s, s[i].deviceUid);
    assert s[j].nodeId == s[i].nodeId && s[k].deviceUid == s[i].deviceUid;
  }

  lemma FoundNowhere(r: Registry, nodeId: byte)
    requires r.count <= MAX_NODES && forall i :: 0 <= i < r.count ==> r.cells[i].nodeId != nodeId
    ensures Lookup(r, nodeId).None?
  {
    hide IdIndexFrom;
  }

  /** The two lookups see the same records. */
  lemma LookupsAgree(r: Registry, uid: Uid)
    requires Good(false, r)
    ensures r.count <= MAX_NODES
    ensures LookupUid(r, uid).Some? ==>
              Lookup(r, LookupUid(r, uid).value.nodeId) == LookupUid(r, uid) && LookupUid(r, uid).value.deviceUid == uid
  {
    hide GoodRecord, IdIndexFrom, UidIndexFrom;
    if LookupUid(r, uid).Some? {
      FoundAt(r, ByUid(Live(r), uid));
    }
  }

  /** Registries with the same records, in whatever cells, answer the same. */
  lemma SameRecordsFindSame(a: Registry, b: Registry, nodeId: byte)
    requires Good(false, a) && Good(false, b)
    requires forall x: NodeRecord :: x.nodeId == nodeId ==> (x in Live(a) <==> x in Live(b))
    ensures a.count <= MAX_NODES && b.count <= MAX_NODES && Lookup(a, nodeId) == Lookup(b, nodeId)
  {
    hide Good, IdIndexFrom;
    CountFits(false, a);
    CountFits(false, b);
    if Lookup(a, nodeId).Some? {
      var x := Live(a)[ById(Live(a), nodeId)];
      assert x in Live(b);
      var j :| 0 <= j < b.count && Live(b)[j] == x;
      FoundAt(b, j);
    } else {
      assert forall x :: x in Live(a) ==> x.nodeId != nodeId;
      assert forall j :: 0 <= j < b.count ==> Live(b)[j] in Live(b);
      FoundNowhere(b, nodeId);
    }
  }

  /** Replacing a record under its own ID changes that entry alone. */
  lemma SetFinds(r: Registry, index: nat, value: NodeRecord, nodeId: byte)
    requires Good(false, r) && index < r.count && GoodRecord(false, value)
    requires value.nodeId == r.cells[index].nodeId && value.deviceUid == r.cells[index].deviceUid
    ensures r.count <= MAX_NODES
    ensures Lookup(SetCell(r, index, value), nodeId) == if nodeId == value.nodeId then Some(value) else Lookup(r, nodeId)
  {
    SetCellGood(false, r, index, value);
    hide GoodRecord, IdIndexFrom;
    var after := SetCell(r, index, value);
    if nodeId == value.nodeId {
      FoundAt(after, index);
    } else {
      forall x: NodeRecord | x.nodeId == nodeId
        ensures x in Live(after) <==> x in Live(r)
      {
        if x in Live(r) {
          var i :| 0 <= i < r.count && Live(r)[i] == x;
          assert Live(after)[i] == x;
        }
        if x in Live(after) {
          var i :| 0 <= i < r.count && Live(after)[i] == x;
          assert Live(r)[i] == x;
        }
      }
      SameRecordsFindSame(after, r, nodeId);
    }
  }

  lemma AppendFinds(r: Registry, value: NodeRecord, nodeId: byte)
    requires Good(false, r) && r.count < MAX_NODES && Lookup(r, value.nodeId).None?
    requires Good(false, Registry(r.cells[r.count := value], r.count + 1))
    ensures Lookup(Registry(r.cells[r.count := value], r.count + 1), nodeId) ==
            if nodeId == value.nodeId then Some(value) else Lookup(r, nodeId)
  {
    hide GoodRecord, IdIndexFrom, Unique;
    var after := Registry(r.cells[r.count := value], r.count + 1);
    if nodeId == value.nodeId {
      FoundAt(after, r.count);
    } else {
      forall x: NodeRecord | x.nodeId == nodeId
        ensures x in Live(after) <==> x in Live(r)
      {
        if x in Live(r) {
          var i :| 0 <= i < r.count && Live(r)[i] == x;
          assert Live(after)[i] == x;
        }
        if x in Live(after) {
          var i :| 0 <= i < after.count && Live(after)[i] == x;
          assert Live(r)[i] == x;
        }
      }
      SameRecordsFindSame(after, r, nodeId);
    }
  }

  // ---------------------------------------------------------------- what the operations mean

  /** A known UID is answered with its ID; only a pending record of the same profile
      changes, and only in what the request carries. */
  lemma ReserveKnown(r: Registry, request: JoinRequest, other: byte)
    requires Good(false, r) && Decodable(request) && r.count <= MAX_NODES && LookupUid(r, request.deviceUid).Some?
    ensures
      var (status, nodeId, after) := Reserve(r, request);
      var existing := LookupUid(r, request.deviceUid).value;
      && after.count == r.count && nodeId == existing.nodeId && status != Created && status != Full
      && (status == ProfileConflict <==> existing.profileId != request.profileId)
      && (status == ExistingActive <==> existing.profileId == request.profileId && existing.state == ACTIVE)
      && (status == ExistingDisabled <==> existing.profileId == request.profileId && existing.state == DISABLED)
      && (status == ExistingPendingUpdated <==> existing.profileId == request.profileId && existing.state == PENDING)
      && (Lookup(after, other) ==
            if status == ExistingPendingUpdated && other == nodeId then
              Some(existing.(
                firmware := request.firmware, requestNonce := request.requestNonce,
                maxPowerLevel := request.maxPowerLevel,
                powerPolicy := if existing.powerPolicy > request.maxPowerLevel + 1 then POLICY_AUTO
                               else existing.powerPolicy))
            else Lookup(r, other))
  {
    hide ValidDisplayName, UidIndexFrom, IdIndexFrom, Unique;
    var index := ByUid(Live(r), request.deviceUid);
    var record := r.cells[index];
    assert GoodRecord(false, record);
    StateKinds(record);
    AgainGood(false, record, request);
    SetFinds(r, index, RequestedAgain(record, request), other);
  }

  /** A new UID gets the whole record under a free ID, unless 64 records are stored. */
  lemma ReserveNew(r: Registry, request: JoinRequest, other: byte)
    requires Good(false, r) && Decodable(request) && r.count <= MAX_NODES && LookupUid(r, request.deviceUid).None?
    ensures
      var (status, nodeId, after) := Reserve(r, request);
      && after.count <= MAX_NODES
      && (status == if r.count == MAX_NODES then Full else Created)
      && (status == Full ==> after == r && nodeId == UNPROVISIONED)
      && (status == Created ==>
            && Lookup(r, nodeId).None?
            && (Lookup(after, other) ==
                  if other == nodeId then
                    Some(NodeRecord(
                      request.deviceUid, nodeId, request.profileId, request.firmware, PENDING, request.requestNonce, 0,
                      Fill(DISPLAY_NAME_SIZE, 0), request.maxPowerLevel, POLICY_AUTO))
                  else Lookup(r, other)))
  {
    ReserveGood(false, r, request);
    hide GoodRecord, FreeIdFrom, UidIndexFrom, IdIndexFrom, Unique;
    if r.count < MAX_NODES {
      var nodeId := AllocateNodeId(Live(r));
      FreeIdExists(Live(r));
      assert r.cells[r.count] == BLANK;
      AppendFinds(r, CreatedRecord(r.cells[r.count], nodeId, request), other);
    }
  }

  lemma StateKinds(record: NodeRecord)
    requires GoodRecord(false, record)
    ensures record.state == PENDING || record.state == ACTIVE || record.state == DISABLED
  {
  }

  /** A confirmation activates exactly the pending record of its UID, ID and nonce. */
  lemma ConfirmMeaning(r: Registry, uid: Uid, nodeId: byte, nonce: uint32, other: byte)
    requires Good(false, r)
    ensures r.count <= MAX_NODES
    ensures
      var (status, after) := Confirm(r, uid, nodeId, nonce);
      var current := Lookup(r, nodeId);
      var named := current.Some? && current.value.deviceUid == uid && current.value.requestNonce == nonce;
      && after.count <= MAX_NODES
      && (status == ConfirmStatus.NotFound <==> current.None?)
      && (status == IdentityMismatch <==> current.Some? && current.value.deviceUid != uid)
      && (status == NonceMismatch <==>
            current.Some? && current.value.deviceUid == uid && current.value.requestNonce != nonce)
      && (status == AlreadyActive <==> named && current.value.state == ACTIVE)
      && (status == Confirmed <==> named && current.value.state == PENDING)
      && Lookup(after, other) ==
           if status == Confirmed && other == nodeId then Some(current.value.(state := ACTIVE)) else Lookup(r, other)
  {
    hide ValidDisplayName, IdIndexFrom, Unique;
    var index := ById(Live(r), nodeId);
    if index >= 0 {
      assert GoodRecord(false, r.cells[index]);
      SetFinds(r, index, r.cells[index].(state := ACTIVE), other);
    }
  }

  lemma DisableMeaning(r: Registry, nodeId: byte, other: byte)
    requires Good(false, r)
    ensures r.count <= MAX_NODES
    ensures
      var (disabled, after) := Disable(r, nodeId);
      var current := Lookup(r, nodeId);
      && after.count <= MAX_NODES
      && (disabled <==> current.Some? && current.value.state != DISABLED)
      && Lookup(after, other) ==
           if disabled && other == nodeId then Some(current.value.(state := DISABLED, requestNonce := 0))
           else Lookup(r, other)
  {
    hide ValidDisplayName, IdIndexFrom, Unique;
    var index := ById(Live(r), nodeId);
    if index >= 0 {
      assert GoodRecord(false, r.cells[index]);
      SetFinds(r, index, r.cells[index].(state := DISABLED, requestNonce := 0), other);
    }
  }

  /** Removing frees exactly its ID. */
  lemma RemoveMeaning(r: Registry, nodeId: byte, other: byte)
    requires Good(false, r)
    ensures r.count <= MAX_NODES
    ensures
      var (removed, after) := Remove(r, nodeId);
      && after.count <= MAX_NODES
      && (removed <==> Lookup(r, nodeId).Some?)
      && Lookup(after, other) == if other == nodeId then None else Lookup(r, other)
  {
    RemoveGood(false, r, nodeId);
    var (removed, after) := Remove(r, nodeId);
    hide Good, IdIndexFrom, Remove;
    CountFits(false, r);
    if removed {
      if other != nodeId {
        SameRecordsFindSame(after, r, other);
      }
    } else {
      NothingRemoved(r, nodeId);
    }
  }

  lemma NothingRemoved(r: Registry, nodeId: byte)
    requires r.count <= MAX_NODES && !Remove(r, nodeId).0
    ensures Lookup(r, nodeId).None? && Remove(r, nodeId).1 == r
  {
    hide IdIndexFrom;
  }

  /** Renaming stores a valid name, zero padded, and nothing else. */
  lemma RenameMeaning(r: Registry, nodeId: byte, name: seq<byte>, other: byte)
    requires Good(false, r)
    ensures r.count <= MAX_NODES
    ensures
      var (status, after) := Rename(r, nodeId, name);
      var current := Lookup(r, nodeId);
      && after.count <= MAX_NODES
      && (status == InvalidName <==> !ValidDisplayName(name))
      && (status == RenameStatus.NotFound <==> ValidDisplayName(name) && current.None?)
      && (status == Renamed ==>
            |name| <= DISPLAY_NAME_SIZE && current.Some? &&
            Lookup(after, nodeId) == Some(current.value.(
              displayName := name + Fill(DISPLAY_NAME_SIZE - |name|, 0), displayNameLength := |name|)))
      && (status == RenameStatus.NoChange <==>
            ValidDisplayName(name) && current.Some? && current.value.displayNameLength == |name| &&
            |name| <= DISPLAY_NAME_SIZE && current.value.displayName[..|name|] == name)
      && (other != nodeId || status != Renamed ==> Lookup(after, other) == Lookup(r, other))
  {
    hide ValidDisplayName, ValidName, IdIndexFrom, Unique, GoodRecord;
    var index := ById(Live(r), nodeId);
    if ValidDisplayName(name) && index >= 0 {
      assert GoodRecord(false, r.cells[index]);
      ShortName(name);
      NamedGood(false, r.cells[index], name);
      SetFinds(r, index, Named(r.cells[index], name), other);
      SetFinds(r, index, Named(r.cells[index], name), nodeId);
    }
  }

  /** A policy is taken exactly if it is automatic or a level within the ceiling. */
  lemma PolicyMeaning(r: Registry, nodeId: byte, policy: byte, other: byte)
    requires Good(false, r)
    ensures r.count <= MAX_NODES
    ensures
      var (status, after) := SetPowerPolicy(r, nodeId, policy);
      var current := Lookup(r, nodeId);
      && after.count <= MAX_NODES
      && (status == PolicyStatus.NotFound <==> current.None?)
      && (status == InvalidPolicy <==>
            current.Some? && (policy > MAX_RADIO_POWER_LEVEL + 1 || policy > current.value.maxPowerLevel + 1))
      && (Lookup(after, other) ==
            if status == PolicyStatus.Updated && other == nodeId then Some(current.value.(powerPolicy := policy))
            else Lookup(r, other))
      && (status == PolicyStatus.NoChange <==>
            current.Some? && status != InvalidPolicy && current.value.powerPolicy == policy)
  {
    hide ValidDisplayName, IdIndexFrom, Unique;
    var index := ById(Live(r), nodeId);
    if index >= 0 {
      assert GoodRecord(false, r.cells[index]);
      if SetPowerPolicy(r, nodeId, policy).0 == PolicyStatus.Updated {
        SetFinds(r, index, r.cells[index].(powerPolicy := policy), other);
      }
    }
  }

  /** An active node's reported identity replaces the stored one; a fixed level above a
      lowered ceiling returns to automatic control. */
  lemma InfoMeaning(r: Registry, nodeId: byte, uid: Uid, info: NodeInfo, other: byte)
    requires Good(false, r) && DecodableInfo(info)
    ensures r.count <= MAX_NODES
    ensures
      var (status, after) := UpdateInfo(r, nodeId, uid, info);
      var current := Lookup(r, nodeId);
      var named := current.Some? && current.value.state == ACTIVE && current.value.deviceUid == uid;
      && after.count <= MAX_NODES
      && (status == InfoStatus.NotFound <==> !named)
      && (status == ProfileChanged <==> named && current.value.profileId != info.profileId)
      && (status == InfoStatus.NoChange <==>
            named && NodeInfo(current.value.profileId, current.value.firmware, current.value.maxPowerLevel) == info)
      && (other != nodeId || !named ==> Lookup(after, other) == Lookup(r, other))
      && (named ==>
            Lookup(after, nodeId) == Some(current.value.(
              profileId := info.profileId, firmware := info.firmware, maxPowerLevel := info.maxPowerLevel,
              powerPolicy := if status == InfoStatus.NoChange || current.value.powerPolicy <= info.maxPowerLevel + 1
                             then current.value.powerPolicy else POLICY_AUTO)))
  {
    hide ValidDisplayName, IdIndexFrom, Unique;
    var index := ById(Live(r), nodeId);
    if index >= 0 {
      var record := r.cells[index];
      assert GoodRecord(false, record);
      ClampedGood(record.powerPolicy, info.maxPowerLevel);
      var value := record.(
        profileId := info.profileId, firmware := info.firmware, maxPowerLevel := info.maxPowerLevel,
        powerPolicy := Clamped(record.powerPolicy, info.maxPowerLevel));
      SetFinds(r, index, value, other);
      SetFinds(r, index, value, nodeId);
    }
  }
}
