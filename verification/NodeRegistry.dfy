/** The gateway's node registry: 64 cells of which the first `count` are in use. A
    new record keeps what its cell holds in the fields it does not set, so the
    operations rely on blank unused cells. */
module NodeRegistry {
  import opened Bytes
  import opened Protocol
  import opened Options
  import opened Utf8

  const MAX_NODES := 64
  const UNPROVISIONED: byte := 0
  const MAX_RADIO_POWER_LEVEL: byte := 31
  const POLICY_AUTO: byte := 0

  const PENDING: byte := 1
  const ACTIVE: byte := 2
  const DISABLED: byte := 3

  type Name = s: seq<byte> | |s| == 48 witness Fill(48, 0)

  datatype Firmware = Firmware(major: byte, minor: byte, patch: byte)

  datatype NodeRecord = NodeRecord(
    deviceUid: Uid, nodeId: byte, profileId: uint16, firmware: Firmware, state: byte, requestNonce: uint32,
    displayNameLength: byte, displayName: Name, maxPowerLevel: byte, powerPolicy: byte)

  const BLANK := NodeRecord(Fill(10, 0), 0, 0, Firmware(0, 0, 0), 0, 0, 0, Fill(48, 0), 0, 0)

  function Blanks(n: nat): (s: seq<NodeRecord>)
    ensures |s| == n && forall i :: 0 <= i < n ==> s[i] == BLANK
  {
    seq(n, _ => BLANK)
  }

  type Cells = s: seq<NodeRecord> | |s| == 64 witness Blanks(64)

  datatype Registry = Registry(cells: Cells, count: nat)

  datatype JoinRequest = JoinRequest(
    deviceUid: Uid, profileId: uint16, firmware: Firmware, requestNonce: uint32, maxPowerLevel: byte)

  datatype NodeInfo = NodeInfo(profileId: uint16, firmware: Firmware, maxPowerLevel: byte)

  /** What the frame decoders let through. */
  predicate Decodable(request: JoinRequest) {
    request.profileId != 0 && request.maxPowerLevel <= MAX_RADIO_POWER_LEVEL
  }

  predicate DecodableInfo(info: NodeInfo) {
    info.profileId != 0 && info.maxPowerLevel <= MAX_RADIO_POWER_LEVEL
  }

  // ---------------------------------------------------------------- power policies

  predicate FixedPolicy(policy: byte) {
    policy != POLICY_AUTO
  }

  function FixedLevel(policy: byte): byte {
    (policy - 1) % 0x100
  }

  predicate ValidPolicy(policy: byte) {
    policy <= MAX_RADIO_POWER_LEVEL + 1
  }

  /** A fixed level above a new ceiling returns to automatic control. */
  function Clamped(policy: byte, ceiling: byte): byte {
    if FixedPolicy(policy) && FixedLevel(policy) > ceiling then POLICY_AUTO else policy
  }

  // ---------------------------------------------------------------- lookups

  function Live(r: Registry): (s: seq<NodeRecord>)
    requires r.count <= MAX_NODES
    ensures |s| == r.count && forall i :: 0 <= i < r.count ==> s[i] == r.cells[i]
  {
    r.cells[..r.count]
  }

  function UidIndexFrom(s: seq<NodeRecord>, uid: Uid, from: nat): (index: int)
    requires from <= |s|
    ensures index == -1 || (from <= index < |s| && s[index].deviceUid == uid)
    ensures index >= 0 ==> forall i :: from <= i < index ==> s[i].deviceUid != uid
    ensures index == -1 ==> forall i :: from <= i < |s| ==> s[i].deviceUid != uid
    decreases |s| - from
  {
    if from == |s| then -1 else if s[from].deviceUid == uid then from else UidIndexFrom(s, uid, from + 1)
  }

  function IdIndexFrom(s: seq<NodeRecord>, nodeId: byte, from: nat): (index: int)
    requires from <= |s|
    ensures index == -1 || (from <= index < |s| && s[index].nodeId == nodeId)
    ensures index >= 0 ==> forall i :: from <= i < index ==> s[i].nodeId != nodeId
    ensures index == -1 ==> forall i :: from <= i < |s| ==> s[i].nodeId != nodeId
    decreases |s| - from
  {
    if from == |s| then -1 else if s[from].nodeId == nodeId then from else IdIndexFrom(s, nodeId, from + 1)
  }

  function ByUid(s: seq<NodeRecord>, uid: Uid): (index: int)
    ensures index == -1 || (0 <= index < |s| && s[index].deviceUid == uid)
    ensures index == -1 ==> forall i :: 0 <= i < |s| ==> s[i].deviceUid != uid
  {
    UidIndexFrom(s, uid, 0)
  }

  function ById(s: seq<NodeRecord>, nodeId: byte): (index: int)
    ensures index == -1 || (0 <= index < |s| && s[index].nodeId == nodeId)
    ensures index == -1 ==> forall i :: 0 <= i < |s| ==> s[i].nodeId != nodeId
  {
    IdIndexFrom(s, nodeId, 0)
  }

  /** The smallest free ID from `candidate` on, or 0. */
  function FreeIdFrom(s: seq<NodeRecord>, candidate: nat): (id: byte)
    requires 1 <= candidate <= 100
    ensures id == 0 || (candidate <= id <= 99 && ById(s, id) == -1)
    ensures forall n: byte :: candidate <= n <= 99 && (id == 0 || n < id) ==> ById(s, n) != -1
    decreases 100 - candidate
  {
    if candidate == 100 then 0
    else if ById(s, candidate) == -1 then candidate
    else FreeIdFrom(s, candidate + 1)
  }

  function AllocateNodeId(s: seq<NodeRecord>): byte {
    FreeIdFrom(s, 1)
  }

  // ---------------------------------------------------------------- the operations on values

  datatype ReserveStatus =
    Created | ExistingPendingUpdated | ExistingActive | ExistingDisabled | InvalidProfileId | ProfileConflict | Full
  datatype ConfirmStatus = Confirmed | AlreadyActive | NotFound | NotPending | IdentityMismatch | NonceMismatch
  datatype RenameStatus = Renamed | NoChange | NotFound | InvalidName
  datatype PolicyStatus = Updated | NoChange | NotFound | InvalidPolicy
  datatype InfoStatus = Updated | ProfileChanged | NoChange | NotFound

  function SetCell(r: Registry, index: nat, value: NodeRecord): Registry
    requires index < MAX_NODES
  {
    r.(cells := r.cells[index := value])
  }

  /** The fields a created record sets; the display name stays the cell's. */
  function CreatedRecord(cell: NodeRecord, nodeId: byte, request: JoinRequest): NodeRecord {
    cell.(deviceUid := request.deviceUid, nodeId := nodeId, profileId := request.profileId,
          firmware := request.firmware, state := PENDING, requestNonce := request.requestNonce,
          maxPowerLevel := request.maxPowerLevel, powerPolicy := POLICY_AUTO)
  }

  function RequestedAgain(record: NodeRecord, request: JoinRequest): NodeRecord {
    record.(firmware := request.firmware, requestNonce := request.requestNonce,
            maxPowerLevel := request.maxPowerLevel,
            powerPolicy := Clamped(record.powerPolicy, request.maxPowerLevel))
  }

  function Reserve(r: Registry, request: JoinRequest): (result: (ReserveStatus, byte, Registry))
    requires r.count <= MAX_NODES
  {
    if request.profileId == 0 then (InvalidProfileId, UNPROVISIONED, r)
    else
      var existing := ByUid(Live(r), request.deviceUid);
      if existing >= 0 then
        var record := r.cells[existing];
        if record.profileId != request.profileId then (ProfileConflict, record.nodeId, r)
        else if record.state == ACTIVE then (ExistingActive, record.nodeId, r)
        else if record.state == DISABLED then (ExistingDisabled, record.nodeId, r)
        else (ExistingPendingUpdated, record.nodeId, SetCell(r, existing, RequestedAgain(record, request)))
      else if r.count >= MAX_NODES then (Full, UNPROVISIONED, r)
      else
        var nodeId := AllocateNodeId(Live(r));
        if nodeId == UNPROVISIONED then (Full, UNPROVISIONED, r)
        else
          (Created, nodeId,
           Registry(r.cells[r.count := CreatedRecord(r.cells[r.count], nodeId, request)], r.count + 1))
  }

  function Confirm(r: Registry, uid: Uid, nodeId: byte, nonce: uint32): (result: (ConfirmStatus, Registry))
    requires r.count <= MAX_NODES
  {
    var index := ById(Live(r), nodeId);
    if index < 0 then (ConfirmStatus.NotFound, r)
    else
      var record := r.cells[index];
      if record.deviceUid != uid then (IdentityMismatch, r)
      else if record.requestNonce != nonce then (NonceMismatch, r)
      else if record.state == ACTIVE then (AlreadyActive, r)
      else if record.state != PENDING then (NotPending, r)
      else (Confirmed, SetCell(r, index, record.(state := ACTIVE)))
  }

  function Disable(r: Registry, nodeId: byte): (result: (bool, Registry))
    requires r.count <= MAX_NODES
  {
    var index := ById(Live(r), nodeId);
    if index < 0 || r.cells[index].state == DISABLED then (false, r)
    else (true, SetCell(r, index, r.cells[index].(state := DISABLED, requestNonce := 0)))
  }

  /** The last record takes the removed one's cell, and its own becomes blank. */
  function Remove(r: Registry, nodeId: byte): (result: (bool, Registry))
    requires r.count <= MAX_NODES
  {
    var index := ById(Live(r), nodeId);
    if index < 0 then (false, r)
    else (true, Registry(r.cells[index := r.cells[r.count - 1]][r.count - 1 := BLANK], r.count - 1))
  }

  function Named(record: NodeRecord, name: seq<byte>): NodeRecord
    requires |name| <= DISPLAY_NAME_SIZE
  {
    record.(displayName := name + Fill(DISPLAY_NAME_SIZE - |name|, 0), displayNameLength := |name|)
  }

  function Rename(r: Registry, nodeId: byte, name: seq<byte>): (result: (RenameStatus, Registry))
    requires r.count <= MAX_NODES
  {
    if !ValidDisplayName(name) then (InvalidName, r)
    else
      var index := ById(Live(r), nodeId);
      if index < 0 then (RenameStatus.NotFound, r)
      else
        var record := r.cells[index];
        if record.displayNameLength == |name| && record.displayName[..|name|] == name
        then (RenameStatus.NoChange, r)
        else (Renamed, SetCell(r, index, Named(record, name)))
  }

  function SetPowerPolicy(r: Registry, nodeId: byte, policy: byte): (result: (PolicyStatus, Registry))
    requires r.count <= MAX_NODES
  {
    var index := ById(Live(r), nodeId);
    if index < 0 then (PolicyStatus.NotFound, r)
    else
      var record := r.cells[index];
      if !ValidPolicy(policy) || (FixedPolicy(policy) && FixedLevel(policy) > record.maxPowerLevel)
      then (InvalidPolicy, r)
      else if record.powerPolicy == policy then (PolicyStatus.NoChange, r)
      else (PolicyStatus.Updated, SetCell(r, index, record.(powerPolicy := policy)))
  }

  function UpdateInfo(r: Registry, nodeId: byte, uid: Uid, info: NodeInfo): (result: (InfoStatus, Registry))
    requires r.count <= MAX_NODES
  {
    var index := ById(Live(r), nodeId);
    if index < 0 || r.cells[index].state != ACTIVE || r.cells[index].deviceUid != uid then (InfoStatus.NotFound, r)
    else
      var record := r.cells[index];
      var changed := record.profileId != info.profileId;
      if !changed && record.firmware == info.firmware && record.maxPowerLevel == info.maxPowerLevel
      then (InfoStatus.NoChange, r)
      else
        (if changed then ProfileChanged else InfoStatus.Updated,
         SetCell(r, index, record.(
           profileId := info.profileId, firmware := info.firmware, maxPowerLevel := info.maxPowerLevel,
           powerPolicy := Clamped(record.powerPolicy, info.maxPowerLevel))))
  }

  // ---------------------------------------------------------------- the invariant

  predicate ValidName(record: NodeRecord) {
    && record.displayNameLength <= DISPLAY_NAME_SIZE
    && ValidDisplayName(record.displayName[..record.displayNameLength])
    && forall i :: record.displayNameLength <= i < DISPLAY_NAME_SIZE ==> record.displayName[i] == 0
  }

  /** What `restore` checks of one record. */
  predicate Restorable(record: NodeRecord) {
    && FIRST_NODE_ID <= record.nodeId <= LAST_NODE_ID && record.profileId != 0
    && record.displayNameLength <= DISPLAY_NAME_SIZE
    && ValidDisplayName(record.displayName[..record.displayNameLength])
    && record.maxPowerLevel <= MAX_RADIO_POWER_LEVEL && ValidPolicy(record.powerPolicy)
    && (record.state == PENDING || record.state == ACTIVE || record.state == DISABLED)
  }

  /** A record of a registry reachable from the empty one is moreover `strict`: its
      name is zero padded and a fixed level is within the ceiling, neither of which
      `restore` checks. */
  predicate GoodRecord(strict: bool, record: NodeRecord) {
    && Restorable(record)
    && (strict ==>
          && ValidName(record)
          && (FixedPolicy(record.powerPolicy) ==> FixedLevel(record.powerPolicy) <= record.maxPowerLevel))
  }

  predicate Unique(s: seq<NodeRecord>) {
    forall i, j :: 0 <= i < j < |s| ==> s[i].nodeId != s[j].nodeId && s[i].deviceUid != s[j].deviceUid
  }

  predicate BlankTail(r: Registry) {
    r.count <= MAX_NODES && forall i :: r.count <= i < MAX_NODES ==> r.cells[i] == BLANK
  }

  predicate Good(strict: bool, r: Registry) {
    && BlankTail(r)
    && (forall i :: 0 <= i < r.count ==> GoodRecord(strict, r.cells[i]))
    && Unique(Live(r))
  }

  /** A registry of strict records is one `restore` accepts. */
  lemma CountFits(strict: bool, r: Registry)
    requires Good(strict, r)
    ensures r.count <= MAX_NODES && Good(false, r)
  {
    hide Restorable, ValidName;
  }

  const NOTHING := Registry(Blanks(64), 0)

  /** Changing one record but not its identity keeps a registry good. */
  lemma SetCellGood(strict: bool, r: Registry, index: nat, value: NodeRecord)
    requires Good(strict, r) && index < r.count && GoodRecord(strict, value)
    requires value.nodeId == r.cells[index].nodeId && value.deviceUid == r.cells[index].deviceUid
    ensures Good(strict, SetCell(r, index, value))
  {
    hide GoodRecord;
  }

  lemma EmptyName()
    ensures ValidDisplayName([]) && ValidName(BLANK)
  {
  }

  lemma CreatedGood(strict: bool, r: Registry, request: JoinRequest, nodeId: byte)
    requires Good(strict, r) && r.count < MAX_NODES && Decodable(request)
    requires ByUid(Live(r), request.deviceUid) == -1 && ById(Live(r), nodeId) == -1
    requires FIRST_NODE_ID <= nodeId <= LAST_NODE_ID
    ensures
      var record := CreatedRecord(r.cells[r.count], nodeId, request);
      && GoodRecord(strict, record) && record.displayNameLength == 0 && record.displayName == Fill(DISPLAY_NAME_SIZE, 0)
      && Good(strict, Registry(r.cells[r.count := record], r.count + 1))
  {
    hide ValidDisplayName, UidIndexFrom, IdIndexFrom;
    EmptyName();
    assert r.cells[r.count] == BLANK;
  }

  lemma ClampedGood(policy: byte, ceiling: byte)
    requires ValidPolicy(policy)
    ensures ValidPolicy(Clamped(policy, ceiling))
    ensures FixedPolicy(Clamped(policy, ceiling)) ==> FixedLevel(Clamped(policy, ceiling)) <= ceiling
  {
  }

  lemma NamedGood(strict: bool, record: NodeRecord, name: seq<byte>)
    requires GoodRecord(strict, record) && ValidDisplayName(name)
    ensures GoodRecord(strict, Named(record, name))
  {
    hide ValidFrom;
    assert Named(record, name).displayName[..|name|] == name;
  }

  function IdsOf(s: seq<NodeRecord>): (ids: set<int>)
    ensures |ids| <= |s|
    ensures forall i :: 0 <= i < |s| ==> s[i].nodeId in ids
  {
    if s == [] then {} else IdsOf(s[..|s| - 1]) + {s[|s| - 1].nodeId}
  }

  function Range(k: nat): (r: set<int>)
    ensures |r| == k && forall n :: n in r <==> 1 <= n <= k
  {
    if k == 0 then {} else Range(k - 1) + {k}
  }

  lemma SubsetSize(a: set<int>, b: set<int>)
    requires a <= b
    ensures |a| <= |b|
  {
    assert b == a + (b - a);
  }

  /** The pigeonhole: fewer than 99 records leave an ID free. */
  lemma FreeIdExists(s: seq<NodeRecord>)
    requires |s| <= MAX_NODES
    ensures AllocateNodeId(s) != 0
  {
    hide IdIndexFrom, FreeIdFrom;
    if AllocateNodeId(s) == 0 {
      forall n | n in Range(99)
        ensures n in IdsOf(s)
      {
        var id: byte := n;
        assert ById(s, id) != -1;
        assert s[ById(s, id)].nodeId == n;
      }
      SubsetSize(Range(99), IdsOf(s));
    }
  }

  /** Reserving keeps the registry good. A created record has the smallest free ID
      and an empty name; `Full` is returned only at 64 records. */
  lemma ReserveGood(strict: bool, r: Registry, request: JoinRequest)
    requires Good(strict, r) && Decodable(request)
    ensures
      var (status, nodeId, after) := Reserve(r, request);
      && Good(strict, after)
      && (status == Created ==>
            && ById(Live(r), nodeId) == -1 && FIRST_NODE_ID <= nodeId <= LAST_NODE_ID
            && (forall n: byte :: FIRST_NODE_ID <= n < nodeId ==> ById(Live(r), n) != -1)
            && after.count == r.count + 1 && after.cells[..r.count] == r.cells[..r.count]
            && var created := after.cells[r.count];
               && created.nodeId == nodeId && created.deviceUid == request.deviceUid && created.state == PENDING
               && created.requestNonce == request.requestNonce && created.displayNameLength == 0)
      && (status == Full <==> ByUid(Live(r), request.deviceUid) == -1 && r.count == MAX_NODES)
      && (status != Created && status != ExistingPendingUpdated ==> after == r)
  {
    hide GoodRecord, FreeIdFrom, UidIndexFrom, IdIndexFrom;
    var existing := ByUid(Live(r), request.deviceUid);
    if existing >= 0 {
      var record := r.cells[existing];
      assert GoodRecord(strict, record);
      AgainGood(strict, record, request);
      SetCellGood(strict, r, existing, RequestedAgain(record, request));
    } else if r.count < MAX_NODES {
      FreeIdExists(Live(r));
      AllocatedId(Live(r));
      CreatedGood(strict, r, request, AllocateNodeId(Live(r)));
    }
  }

  lemma AllocatedId(s: seq<NodeRecord>)
    requires AllocateNodeId(s) != 0
    ensures
      var id := AllocateNodeId(s);
      FIRST_NODE_ID <= id <= LAST_NODE_ID && ById(s, id) == -1 &&
      forall n: byte :: FIRST_NODE_ID <= n < id ==> ById(s, n) != -1
  {
    hide IdIndexFrom;
  }

  lemma AgainGood(strict: bool, record: NodeRecord, request: JoinRequest)
    requires GoodRecord(strict, record) && Decodable(request)
    ensures GoodRecord(strict, RequestedAgain(record, request))
  {
    hide ValidDisplayName;
    ClampedGood(record.powerPolicy, request.maxPowerLevel);
  }

  lemma ConfirmGood(strict: bool, r: Registry, uid: Uid, nodeId: byte, nonce: uint32)
    requires Good(strict, r)
    ensures
      var (status, after) := Confirm(r, uid, nodeId, nonce);
      && Good(strict, after) && after.count == r.count
      && (status != Confirmed ==> after == r)
      && (status == Confirmed || status == AlreadyActive ==>
            && ById(Live(after), nodeId) >= 0
            && var record := after.cells[ById(Live(after), nodeId)];
               record.state == ACTIVE && record.deviceUid == uid && record.requestNonce == nonce)
  {
    hide ValidDisplayName, IdIndexFrom;
    var index := ById(Live(r), nodeId);
    if index >= 0 {
      assert GoodRecord(strict, r.cells[index]);
      SetCellGood(strict, r, index, r.cells[index].(state := ACTIVE));
      SameIndex(strict, r, index, r.cells[index].(state := ACTIVE), nodeId);
    }
  }

  /** In a good registry the record of an ID is found where it is. */
  lemma SameIndex(strict: bool, r: Registry, index: nat, value: NodeRecord, nodeId: byte)
    requires Good(strict, r) && index < r.count && r.cells[index].nodeId == value.nodeId == nodeId
    requires r.cells[index].deviceUid == value.deviceUid
    ensures ById(Live(SetCell(r, index, value)), nodeId) == index
  {
    hide IdIndexFrom, GoodRecord;
    var after := Live(SetCell(r, index, value));
    assert after[index].nodeId == nodeId;
    assert forall i :: 0 <= i < r.count && i != index ==> after[i] == Live(r)[i] && after[i].nodeId != nodeId;
  }

  lemma DisableGood(strict: bool, r: Registry, nodeId: byte)
    requires Good(strict, r)
    ensures Good(strict, Disable(r, nodeId).1) && (!Disable(r, nodeId).0 ==> Disable(r, nodeId).1 == r)
  {
    hide ValidDisplayName, IdIndexFrom;
    var index := ById(Live(r), nodeId);
    if index >= 0 {
      assert GoodRecord(strict, r.cells[index]);
      SetCellGood(strict, r, index, r.cells[index].(state := DISABLED, requestNonce := 0));
    }
  }

  /** Removing frees exactly the ID it names and keeps every other record. */
  lemma RemoveGood(strict: bool, r: Registry, nodeId: byte)
    requires Good(strict, r)
    ensures
      var (removed, after) := Remove(r, nodeId);
      && Good(strict, after) && (!removed ==> after == r)
      && (removed ==>
            && after.count == r.count - 1 && ById(Live(after), nodeId) == -1
            && forall record :: record in Live(after) <==> record in Live(r) && record.nodeId != nodeId)
  {
    hide GoodRecord, IdIndexFrom;
    var (removed, after) := Remove(r, nodeId);
    if removed {
      hide Remove, ValidDisplayName;
      RemovedCells(strict, r, nodeId);
      RemovedKeeps(strict, r, nodeId);
      RemovedGood(strict, r, nodeId);
      hide Good;
      assert forall i :: 0 <= i < after.count ==> Live(after)[i].nodeId != nodeId;
    }
  }

  lemma RemovedGood(strict: bool, r: Registry, nodeId: byte)
    requires Good(strict, r) && Remove(r, nodeId).0
    ensures Good(strict, Remove(r, nodeId).1)
  {
    RemovedCells(strict, r, nodeId);
    hide GoodRecord, IdIndexFrom, Remove;
    var index, after := ById(Live(r), nodeId), Remove(r, nodeId).1;
    forall i, j | 0 <= i < j < after.count
      ensures Live(after)[i].nodeId != Live(after)[j].nodeId && Live(after)[i].deviceUid != Live(after)[j].deviceUid
    {
      var k, l := if i == index then r.count - 1 else i, if j == index then r.count - 1 else j;
      assert Live(after)[i] == Live(r)[k] && Live(after)[j] == Live(r)[l];
    }
  }

  lemma RemovedCells(strict: bool, r: Registry, nodeId: byte)
    requires Good(strict, r) && Remove(r, nodeId).0
    ensures
      var index, after := ById(Live(r), nodeId), Remove(r, nodeId).1;
      && 0 <= index < r.count && after.count == r.count - 1
      && (forall i :: 0 <= i < after.count ==> after.cells[i] == r.cells[if i == index then r.count - 1 else i])
      && (forall i :: 0 <= i < r.count && i != index ==> r.cells[i].nodeId != nodeId)
      && forall i :: after.count <= i < MAX_NODES ==> after.cells[i] == BLANK
  {
    hide GoodRecord, IdIndexFrom;
    var index := ById(Live(r), nodeId);
    assert forall i :: 0 <= i < r.count ==> Live(r)[i] == r.cells[i];
  }

  lemma RemovedKeeps(strict: bool, r: Registry, nodeId: byte)
    requires Good(strict, r) && Remove(r, nodeId).0
    ensures
      var after := Remove(r, nodeId).1;
      forall record :: record in Live(after) <==> record in Live(r) && record.nodeId != nodeId
  {
    RemovedCells(strict, r, nodeId);
    hide GoodRecord, IdIndexFrom, Remove, Good;
    var index, after := ById(Live(r), nodeId), Remove(r, nodeId).1;
    forall i | 0 <= i < r.count && i != index
      ensures r.cells[i] in Live(after)
    {
      var k := if i == r.count - 1 then index else i;
      assert Live(after)[k] == after.cells[k];
    }
    forall i | 0 <= i < after.count
      ensures Live(after)[i] in Live(r) && Live(after)[i].nodeId != nodeId
    {
      var k := if i == index then r.count - 1 else i;
      assert Live(after)[i] == after.cells[i] == r.cells[k] == Live(r)[k];
    }
  }

  lemma RenameGood(strict: bool, r: Registry, nodeId: byte, name: seq<byte>)
    requires Good(strict, r)
    ensures
      var (status, after) := Rename(r, nodeId, name);
      && Good(strict, after) && (status != Renamed ==> after == r)
      && (status == InvalidName <==> !ValidDisplayName(name))
  {
    hide ValidDisplayName, ValidName, IdIndexFrom, GoodRecord;
    var index := ById(Live(r), nodeId);
    if ValidDisplayName(name) && index >= 0 {
      assert GoodRecord(strict, r.cells[index]);
      ShortName(name);
      NamedGood(strict, r.cells[index], name);
      SetCellGood(strict, r, index, Named(r.cells[index], name));
    }
  }

  lemma ShortName(name: seq<byte>)
    requires ValidDisplayName(name)
    ensures |name| <= DISPLAY_NAME_SIZE
  {
  }

  lemma PolicyGood(strict: bool, r: Registry, nodeId: byte, policy: byte)
    requires Good(strict, r)
    ensures
      var (status, after) := SetPowerPolicy(r, nodeId, policy);
      Good(strict, after) && (status != PolicyStatus.Updated ==> after == r)
  {
    hide ValidDisplayName, IdIndexFrom;
    var index := ById(Live(r), nodeId);
    if index >= 0 && SetPowerPolicy(r, nodeId, policy).0 == PolicyStatus.Updated {
      assert GoodRecord(strict, r.cells[index]);
      SetCellGood(strict, r, index, r.cells[index].(powerPolicy := policy));
    }
  }

  lemma InfoGood(strict: bool, r: Registry, nodeId: byte, uid: Uid, info: NodeInfo)
    requires Good(strict, r) && DecodableInfo(info)
    ensures
      var (status, after) := UpdateInfo(r, nodeId, uid, info);
      Good(strict, after) && (status == InfoStatus.NotFound || status == InfoStatus.NoChange ==> after == r)
  {
    hide ValidDisplayName, IdIndexFrom;
    var index := ById(Live(r), nodeId);
    if index >= 0 {
      var record := r.cells[index];
      assert GoodRecord(strict, record);
      ClampedGood(record.powerPolicy, info.maxPowerLevel);
      SetCellGood(strict, r, index, record.(
        profileId := info.profileId, firmware := info.firmware, maxPowerLevel := info.maxPowerLevel,
        powerPolicy := Clamped(record.powerPolicy, info.maxPowerLevel)));
    }
  }

  // ---------------------------------------------------------------- restore

  /** `restore` takes any restorable, duplicate-free list and blanks the rest. */
  function Restore(s: seq<NodeRecord>): Option<Registry> {
    if |s| <= MAX_NODES && (forall i :: 0 <= i < |s| ==> Restorable(s[i])) && Unique(s)
    then Some(Registry(s + Blanks(MAX_NODES - |s|), |s|)) else None
  }

  /** Restoring the records of a good registry gives it back. */
  lemma RestoreLive(strict: bool, r: Registry)
    requires Good(strict, r)
    ensures Restore(Live(r)) == Some(r)
  {
    hide ValidName, ValidDisplayName;
    assert forall i :: 0 <= i < r.count ==> GoodRecord(strict, r.cells[i]);
    assert r.cells == Live(r) + Blanks(MAX_NODES - r.count);
  }

  // ---------------------------------------------------------------- whole runs

  datatype Op =
    | DoReserve(request: JoinRequest)
    | DoConfirm(uid: Uid, nodeId: byte, nonce: uint32)
    | DoDisable(nodeId: byte)
    | DoRemove(nodeId: byte)
    | DoRename(nodeId: byte, name: seq<byte>)
    | DoSetPolicy(nodeId: byte, policy: byte)
    | DoUpdateInfo(nodeId: byte, uid: Uid, info: NodeInfo)
    | DoClear

  predicate Decoded(op: Op) {
    (op.DoReserve? ==> Decodable(op.request)) && (op.DoUpdateInfo? ==> DecodableInfo(op.info))
  }

  function Perform(r: Registry, op: Op): (after: Registry)
    requires r.count <= MAX_NODES
    ensures after.count <= MAX_NODES
  {
    match op
    case DoReserve(request) => Reserve(r, request).2
    case DoConfirm(uid, nodeId, nonce) => Confirm(r, uid, nodeId, nonce).1
    case DoDisable(nodeId) => Disable(r, nodeId).1
    case DoRemove(nodeId) => Remove(r, nodeId).1
    case DoRename(nodeId, name) => Rename(r, nodeId, name).1
    case DoSetPolicy(nodeId, policy) => SetPowerPolicy(r, nodeId, policy).1
    case DoUpdateInfo(nodeId, uid, info) => UpdateInfo(r, nodeId, uid, info).1
    case DoClear => NOTHING
  }

  lemma PerformGood(strict: bool, r: Registry, op: Op)
    requires Good(strict, r) && Decoded(op)
    ensures Good(strict, Perform(r, op))
  {
    hide Good, Reserve, Confirm, Disable, Remove, Rename, SetPowerPolicy, UpdateInfo;
    match op {
      case DoReserve(request) => ReserveGood(strict, r, request);
      case DoConfirm(uid, nodeId, nonce) => ConfirmGood(strict, r, uid, nodeId, nonce);
      case DoDisable(nodeId) => DisableGood(strict, r, nodeId);
      case DoRemove(nodeId) => RemoveGood(strict, r, nodeId);
      case DoRename(nodeId, name) => RenameGood(strict, r, nodeId, name);
      case DoSetPolicy(nodeId, policy) => PolicyGood(strict, r, nodeId, policy);
      case DoUpdateInfo(nodeId, uid, info) => InfoGood(strict, r, nodeId, uid, info);
      case DoClear => NothingGood(strict);
    }
  }

  function Run(start: Registry, ops: seq<Op>): (r: Registry)
    requires start.count <= MAX_NODES
    ensures r.count <= MAX_NODES
  {
    if ops == [] then start else Perform(Run(start, ops[..|ops| - 1]), ops[|ops| - 1])
  }

  /** Every registry reached by operations on decoded frames is as good as the one it
      started from. */
  lemma {:induction false} RunGood(strict: bool, start: Registry, ops: seq<Op>)
    requires Good(strict, start) && forall op :: op in ops ==> Decoded(op)
    ensures Good(strict, Run(start, ops))
  {
    hide Perform, Decoded, GoodRecord, Unique;
    if ops != [] {
      RunGood(strict, start, ops[..|ops| - 1]);
      PerformGood(strict, Run(start, ops[..|ops| - 1]), ops[|ops| - 1]);
    }
  }

  /** Every registry reachable from the empty one has unique UIDs, unique IDs in
      1..99, valid zero-padded names, fixed levels within the ceiling, and a blank
      tail. */
  lemma ReachableIsGood(ops: seq<Op>)
    requires forall op :: op in ops ==> Decoded(op)
    ensures Good(true, Run(NOTHING, ops))
  {
    NothingGood(true);
    RunGood(true, NOTHING, ops);
  }

  lemma NothingGood(strict: bool)
    ensures Good(strict, NOTHING)
  {
  }
}
