/** The gateway's registry service: every change is made on a copy, saved, and only
    then becomes the registry; a bitmap of the active nodes is published for tasks
    that read without a lock. */
module RegistryService {
  import opened Bytes
  import opened Options
  import opened Protocol
  import opened Bitmap
  import opened NodeRegistry
  import opened NodeTable
  import opened RegistryCodec
  import opened RegistryMap
  import opened Utf8
  import Slots = DualSlotStore

  datatype Service = Service(registry: Registry, store: Slots.State<Registry>)

  datatype CommitStatus = Ok | NoChange | StorageError | NotInitialized

  /** Whether an operation's status asks for a save. */
  predicate Changes(r: Registry, op: Op)
    requires r.count <= MAX_NODES
  {
    match op
    case DoReserve(request) => Reserve(r, request).0 == Created || Reserve(r, request).0 == ExistingPendingUpdated
    case DoConfirm(uid, nodeId, nonce) => Confirm(r, uid, nodeId, nonce).0 == Confirmed
    case DoDisable(nodeId) => Disable(r, nodeId).0
    case DoRemove(nodeId) => Remove(r, nodeId).0
    case DoRename(nodeId, name) => Rename(r, nodeId, name).0 == Renamed
    case DoSetPolicy(nodeId, policy) => SetPowerPolicy(r, nodeId, policy).0 == PolicyStatus.Updated
    case DoUpdateInfo(nodeId, uid, info) =>
      UpdateInfo(r, nodeId, uid, info).0 == InfoStatus.Updated || UpdateInfo(r, nodeId, uid, info).0 == ProfileChanged
    case DoClear => r.count != 0
  }

  /** Saves a candidate; on success it becomes the registry. */
  function Commit(s: Service, candidate: Registry, env: Slots.Env): (r: (bool, Service)) {
    var saved := Slots.Save(Slots.Registry, REGISTRY_CODEC, s.store.flash, s.store.ram, candidate, env);
    (saved.ok, Service(if saved.ok then candidate else s.registry, Slots.State(saved.flash, saved.ram)))
  }

  /** `open` is the recovery guard of an initialized service. */
  function ChangeAndSave(s: Service, op: Op, open: bool, env: Slots.Env): (r: (CommitStatus, Service))
    requires s.registry.count <= MAX_NODES
  {
    if !open then (NotInitialized, s)
    else if !Changes(s.registry, op) then (CommitStatus.NoChange, s)
    else
      var (saved, after) := Commit(s, Perform(s.registry, op), env);
      (if saved then Ok else StorageError, after)
  }

  function Booted(flash: Slots.Flash): Service {
    Service(Slots.LoadedValue(REGISTRY_CODEC, flash), Slots.State(flash, Slots.LoadedRam(REGISTRY_CODEC, flash)))
  }

  /** Nothing is lost by not saving: an operation that asks for no save changed nothing. */
  lemma UnchangedUnlessAsked(r: Registry, op: Op)
    requires Good(false, r) && Decoded(op) && !Changes(r, op)
    ensures Perform(r, op) == r
  {
    hide Good, Reserve, Confirm, Disable, Remove, Rename, SetPowerPolicy, UpdateInfo;
    match op {
      case DoReserve(request) => ReserveGood(false, r, request);
      case DoConfirm(uid, nodeId, nonce) => ConfirmGood(false, r, uid, nodeId, nonce);
      case DoDisable(nodeId) => DisableGood(false, r, nodeId);
      case DoRemove(nodeId) => RemoveGood(false, r, nodeId);
      case DoRename(nodeId, name) => RenameGood(false, r, nodeId, name);
      case DoSetPolicy(nodeId, policy) => PolicyGood(false, r, nodeId, policy);
      case DoUpdateInfo(nodeId, uid, info) => InfoGood(false, r, nodeId, uid, info);
      case DoClear => NoneIsNothing(r);
    }
  }

  lemma NoneIsNothing(r: Registry)
    requires Good(false, r) && r.count == 0
    ensures r == NOTHING
  {
    hide GoodRecord;
    assert r.cells == Blanks(MAX_NODES);
  }

  /** The registry in use is the one the store last wrote and verified, or loaded. */
  predicate Synchronised(s: Service) {
    s.registry == s.store.ram.current
  }

  /** The registries a later boot may load, after one more change. */
  function AllowedAfter(s: Service, op: Op, open: bool, env: Slots.Env, allowed: set<Registry>): set<Registry>
    requires s.registry.count <= MAX_NODES
  {
    match ChangeAndSave(s, op, open, env).0
    case Ok => {Perform(s.registry, op)}
    case StorageError => allowed + {Perform(s.registry, op)}
    case _ => allowed
  }

  /** What the service keeps: memory matches the store's copy, the registry stays as
      good as it was, and a change that reports success is what the next boot loads. */
  lemma ChangeKeeps(strict: bool, s: Service, op: Op, open: bool, env: Slots.Env, allowed: set<Registry>)
    requires Synchronised(s) && Good(strict, s.registry) && Decoded(op)
    requires Slots.Plausible(Slots.Registry, REGISTRY_CODEC, env) && Slots.Matches(REGISTRY_CODEC, s.store, allowed)
    ensures s.registry.count <= MAX_NODES
    ensures
      var (status, after) := ChangeAndSave(s, op, open, env);
      && Synchronised(after) && Good(strict, after.registry)
      && (status == Ok ==> after.registry == Perform(s.registry, op) && Booted(after.store.flash).registry == after.registry)
      && (status != Ok ==> after.registry == s.registry)
      && Slots.Matches(REGISTRY_CODEC, after.store, AllowedAfter(s, op, open, env, allowed))
  {
    hide EncodeGood, Decode, Good, Perform, Changes, Slots.Save, Slots.LoadedSlot, Slots.Matches;
    CountFits(strict, s.registry);
    var (status, after) := ChangeAndSave(s, op, open, env);
    RegistryCodecIsFaithful();
    PerformGood(strict, s.registry, op);
    var candidate := Perform(s.registry, op);
    Slots.SaveMatches(Slots.Registry, REGISTRY_CODEC, s.store, allowed, candidate, env);
    SavedRam(s.store, candidate, env);
  }

  /** The store took one more snapshot over. */
  predicate Advanced(before: Service, after: Service) {
    after.store.ram.generation == (before.store.ram.generation + 1) % 0x1_0000_0000
  }

  /** Every answer to a change, and what it leaves. A change that is asked for while the
      service is open succeeds exactly if its save does, and always if flash meets no error. */
  lemma ChangeAnswers(s: Service, op: Op, open: bool, env: Slots.Env)
    requires Good(false, s.registry) && Decoded(op)
    ensures s.registry.count <= MAX_NODES
    ensures
      var (status, after) := ChangeAndSave(s, op, open, env);
      && (status == NotInitialized <==> !open)
      && (status == CommitStatus.NoChange <==> open && !Changes(s.registry, op))
      && (status == Ok <==> open && Changes(s.registry, op) && Advanced(s, after))
      && (status == Ok ==> after.registry == Perform(s.registry, op) && env.writeReported && env.readReported)
      && (status != Ok ==> after.registry == s.registry && after.store.ram == s.store.ram)
      && (status == NotInitialized || status == CommitStatus.NoChange ==> after == s)
      && (env == Slots.Env(Slots.Written, true, true) ==> status != StorageError)
  {
    hide Good, Perform, Changes, Decode, Encode;
    CountFits(false, s.registry);
    PerformGood(false, s.registry, op);
    RegistryCodecIsFaithful();
    Slots.WrittenIsOk(Slots.Registry, REGISTRY_CODEC, s.store, Perform(s.registry, op));
  }

  /** The record of an ID after an operation, for every operation but the two of the
      joining handshake. */
  function Wanted(op: Op, nodeId: byte, current: Option<NodeRecord>): Option<NodeRecord> {
    if current.None? || op.DoClear? then None
    else
      var record := current.value;
      match op
      case DoRemove(id) => if id == nodeId then None else current
      case DoDisable(id) =>
        if id == nodeId && record.state != DISABLED then Some(record.(state := DISABLED, requestNonce := 0)) else current
      case DoRename(id, name) =>
        if id == nodeId && ValidDisplayName(name) && |name| <= DISPLAY_NAME_SIZE &&
           !(record.displayNameLength == |name| && record.displayName[..|name|] == name)
        then Some(record.(displayName := name + Fill(DISPLAY_NAME_SIZE - |name|, 0), displayNameLength := |name|))
        else current
      case DoSetPolicy(id, policy) =>
        if id == nodeId && policy <= MAX_RADIO_POWER_LEVEL + 1 && policy <= record.maxPowerLevel + 1
        then Some(record.(powerPolicy := policy)) else current
      case DoUpdateInfo(id, uid, info) =>
        if id == nodeId && record.state == ACTIVE && record.deviceUid == uid &&
           NodeInfo(record.profileId, record.firmware, record.maxPowerLevel) != info
        then
          Some(record.(profileId := info.profileId, firmware := info.firmware, maxPowerLevel := info.maxPowerLevel,
                       powerPolicy := if record.powerPolicy <= info.maxPowerLevel + 1 then record.powerPolicy else POLICY_AUTO))
        else current
      case _ => current
  }

  /** A change takes effect: with the service open and flash meeting no error, every
      record is as the operation wants it. */
  lemma ChangeTakesEffect(s: Service, op: Op, nodeId: byte)
    requires Good(false, s.registry) && Decoded(op) && !op.DoReserve? && !op.DoConfirm?
    ensures s.registry.count <= MAX_NODES
    ensures
      var (status, after) := ChangeAndSave(s, op, true, Slots.Env(Slots.Written, true, true));
      && (status == Ok || (status == CommitStatus.NoChange && after == s)) && after.registry.count <= MAX_NODES
      && Lookup(after.registry, nodeId) == Wanted(op, nodeId, Lookup(s.registry, nodeId))
  {
    CountFits(false, s.registry);
    ChangeAnswers(s, op, true, Slots.Env(Slots.Written, true, true));
    if !Changes(s.registry, op) {
      UnchangedUnlessAsked(s.registry, op);
    }
    PerformGood(false, s.registry, op);
    CountFits(false, Perform(s.registry, op));
    hide ChangeAndSave;
    OperationMeaning(s.registry, op, nodeId);
  }

  lemma OperationMeaning(r: Registry, op: Op, nodeId: byte)
    requires Good(false, r) && Decoded(op) && !op.DoReserve? && !op.DoConfirm?
    ensures r.count <= MAX_NODES && Perform(r, op).count <= MAX_NODES
    ensures Lookup(Perform(r, op), nodeId) == Wanted(op, nodeId, Lookup(r, nodeId))
  {
    CountFits(false, r);
    PerformGood(false, r, op);
    CountFits(false, Perform(r, op));
    hide Good, Lookup, ValidDisplayName, Disable, Remove, Rename, SetPowerPolicy, UpdateInfo;
    match op {
      case DoDisable(id) => DisableMeaning(r, id, nodeId);
      case DoRemove(id) => RemoveMeaning(r, id, nodeId);
      case DoRename(id, name) =>
        RenameMeaning(r, id, name, nodeId);
        if ValidDisplayName(name) {
          ShortName(name);
        }
      case DoSetPolicy(id, policy) => PolicyMeaning(r, id, policy, nodeId);
      case DoUpdateInfo(id, uid, info) => InfoMeaning(r, id, uid, info, nodeId);
      case DoClear => NothingFound(nodeId);
    }
  }

  lemma NothingFound(nodeId: byte)
    ensures Lookup(NOTHING, nodeId).None?
  {
  }

  lemma SavedRam(store: Slots.State<Registry>, candidate: Registry, env: Slots.Env)
    ensures
      var saved := Slots.Save(Slots.Registry, REGISTRY_CODEC, store.flash, store.ram, candidate, env);
      saved.ok == saved.verified && saved.ram.current == if saved.ok then candidate else store.ram.current
  {
  }

  // ---------------------------------------------------------------- the bitmap

  predicate ActiveIn(r: Registry, nodeId: nat)
    requires r.count <= MAX_NODES
  {
    exists i :: 0 <= i < r.count && r.cells[i].state == ACTIVE && r.cells[i].nodeId == nodeId
  }

  predicate Published(words: Words, r: Registry)
    requires r.count <= MAX_NODES
  {
    forall n :: 0 <= n < 128 ==> (HasBit(words, n) <==> ActiveIn(r, n))
  }

  /** What `publishLockFreeView` computes before it stores the words. */
  method PublishedWords(nodes: Table) returns (words: Words)
    requires nodes.Valid() && Good(false, nodes.View())
    ensures Published(words, nodes.View())
  {
    hide Restorable;
    words := seq(4, _ => seq(32, _ => false));
    for index := 0 to nodes.count
      invariant forall n :: 0 <= n < 128 ==>
                  (HasBit(words, n) <==>
                     exists i :: 0 <= i < index && nodes.records[i].state == ACTIVE && nodes.records[i].nodeId == n)
    {
      var r := nodes.records[index];
      assert GoodRecord(false, nodes.View().cells[index]);
      RestorableId(r);
      if r.state == ACTIVE && r.nodeId <= LAST_NODE_ID {
        ghost var before := words;
        words := WithBit(words, r.nodeId);
        forall n | 0 <= n < 128
          ensures HasBit(words, n) <==> n == r.nodeId || HasBit(before, n)
        {
          BitSet(before, r.nodeId, n);
        }
      }
    }
  }

  lemma RestorableId(record: NodeRecord)
    requires Restorable(record)
    ensures FIRST_NODE_ID <= record.nodeId <= LAST_NODE_ID
  {
  }

  // ---------------------------------------------------------------- the class

  class Server {
    const store: Slots.Store<Registry>
    const storage: Slots.SlotStorage
    const nodes: Table
    var words: Words

    ghost function State(): Service
      requires Shape() && nodes.Valid()
      reads this, store, storage, nodes, nodes.records
    {
      Service(nodes.View(), Slots.State(storage.slots, store.Memory()))
    }

    ghost predicate Shape() {
      store.storage == storage && store.variant == Slots.Registry && store.codec == REGISTRY_CODEC
    }

    ghost predicate Valid()
      reads this, store, storage, nodes, nodes.records
    {
      && Shape() && nodes.Valid() && Good(false, nodes.View()) && Published(words, nodes.View())
    }

    constructor (storage: Slots.SlotStorage)
      ensures Shape() && nodes.Valid() && this.storage == storage && fresh(nodes) && fresh(nodes.records)
    {
      var s := new Slots.Store<Registry>(Slots.Registry, REGISTRY_CODEC, storage);
      var t := new Table();
      store, this.storage, nodes := s, storage, t;
      words := seq(4, _ => seq(32, _ => false));
    }

    /** Boot. */
    method Begin()
      requires Shape() && nodes.Valid()
      modifies this`words, store, nodes, nodes.records
      ensures Valid() && State() == Booted(storage.slots)
    {
      hide EncodeGood, Decode, Good, Published, Slots.LoadedSlot;
      Slots.LoadsWhatIsReadable(REGISTRY_CODEC, storage.slots, (true, true));
      var status, loaded := store.Load((true, true));
      LoadedIsGood(storage.slots);
      CountFits(false, loaded);
      nodes.Assign(loaded);
      words := PublishedWords(nodes);
    }

    /** Saves the candidate; the registry and the bitmap change only if that succeeds. */
    method CommitCandidate(candidate: Table, env: Slots.Env) returns (saved: bool)
      requires Valid() && candidate.Valid() && Good(false, candidate.View())
      requires candidate != nodes && candidate.records != nodes.records
      modifies `words, store, storage, nodes, nodes.records
      ensures Valid() && (saved, State()) == Commit(old(State()), old(candidate.View()), env)
    {
      hide EncodeGood, Decode, Good, Slots.Save, Published;
      saved := store.DoSave(candidate.View(), env);
      if saved {
        nodes.CopyFrom(candidate);
        words := PublishedWords(nodes);
      }
    }

    /** Answers without a lock, from the bitmap alone. */
    method IsActiveNode(nodeId: byte) returns (active: bool)
      requires Valid()
      ensures active <==> FIRST_NODE_ID <= nodeId <= LAST_NODE_ID && ActiveIn(nodes.View(), nodeId)
    {
      if nodeId < FIRST_NODE_ID || nodeId > LAST_NODE_ID {
        return false;
      }
      active := HasBit(words, nodeId);
    }

    /** Also reports what the registry answered; `result` means nothing while closed. */
    method ReserveAndSave(request: JoinRequest, open: bool, env: Slots.Env)
      returns (status: CommitStatus, result: ReserveStatus, nodeId: byte)
      requires Valid() && Decodable(request)
      modifies this`words, store, storage, nodes, nodes.records
      ensures Valid() && (status, State()) == ChangeAndSave(old(State()), DoReserve(request), open, env)
      ensures open ==> (result, nodeId) == (Reserve(old(nodes.View()), request).0, Reserve(old(nodes.View()), request).1)
    {
      hide EncodeGood, Decode, Good, Slots.Save, Published, Commit, Reserve;
      if !open {
        return NotInitialized, Full, UNPROVISIONED;
      }
      var candidate := new Table();
      candidate.CopyFrom(nodes);
      PerformGood(false, nodes.View(), DoReserve(request));
      result, nodeId := candidate.DoReserve(request);
      if result != Created && result != ExistingPendingUpdated {
        return CommitStatus.NoChange, result, nodeId;
      }
      var saved := CommitCandidate(candidate, env);
      status := if saved then Ok else StorageError;
    }

    method ConfirmAndSave(deviceUid: Uid, nodeId: byte, nonce: uint32, open: bool, env: Slots.Env)
      returns (status: CommitStatus, result: ConfirmStatus)
      requires Valid()
      modifies this`words, store, storage, nodes, nodes.records
      ensures Valid() && (status, State()) == ChangeAndSave(old(State()), DoConfirm(deviceUid, nodeId, nonce), open, env)
      ensures open ==> result == Confirm(old(nodes.View()), deviceUid, nodeId, nonce).0
    {
      hide EncodeGood, Decode, Good, Slots.Save, Published, Commit, Confirm;
      if !open {
        return NotInitialized, ConfirmStatus.NotFound;
      }
      var candidate := new Table();
      candidate.CopyFrom(nodes);
      PerformGood(false, nodes.View(), DoConfirm(deviceUid, nodeId, nonce));
      result := candidate.DoConfirm(deviceUid, nodeId, nonce);
      if result != Confirmed {
        return CommitStatus.NoChange, result;
      }
      var saved := CommitCandidate(candidate, env);
      status := if saved then Ok else StorageError;
    }

    method Change(op: Op, open: bool, env: Slots.Env) returns (status: CommitStatus)
      requires Valid() && Decoded(op)
      modifies this`words, store, storage, nodes, nodes.records
      ensures Valid() && (status, State()) == ChangeAndSave(old(State()), op, open, env)
    {
      hide EncodeGood, Decode, Good, Slots.Save, Published, Commit;
      if !open {
        return NotInitialized;
      }
      if op.DoClear? && nodes.count == 0 {
        return CommitStatus.NoChange;
      }
      var candidate := new Table();
      candidate.CopyFrom(nodes);
      PerformGood(false, nodes.View(), op);
      var changed := Apply(candidate, op);
      if !changed {
        return CommitStatus.NoChange;
      }
      var saved := CommitCandidate(candidate, env);
      return if saved then Ok else StorageError;
    }
  }

  /** One registry operation on a copy, and whether its status asks for a save. */
  method Apply(t: Table, op: Op) returns (changed: bool)
    requires t.Valid()
    modifies t, t.records
    ensures t.Valid() && t.View() == Perform(old(t.View()), op) && changed == Changes(old(t.View()), op)
  {
    hide Reserve, Confirm, Disable, Remove, Rename, SetPowerPolicy, UpdateInfo;
    match op {
      case DoReserve(request) =>
        var status, nodeId := t.DoReserve(request);
        changed := status == Created || status == ExistingPendingUpdated;
      case DoConfirm(uid, nodeId, nonce) =>
        var status := t.DoConfirm(uid, nodeId, nonce);
        changed := status == Confirmed;
      case DoDisable(nodeId) => changed := t.DoDisable(nodeId);
      case DoRemove(nodeId) => changed := t.DoRemove(nodeId);
      case DoRename(nodeId, name) =>
        var status := t.DoRename(nodeId, name);
        changed := status == Renamed;
      case DoSetPolicy(nodeId, policy) =>
        var status := t.DoSetPowerPolicy(nodeId, policy);
        changed := status == PolicyStatus.Updated;
      case DoUpdateInfo(nodeId, uid, info) =>
        var status := t.DoUpdateInfo(nodeId, uid, info);
        changed := status == InfoStatus.Updated || status == ProfileChanged;
      case DoClear =>
        changed := t.count != 0;
        t.Clear();
    }
  }

  /** A loaded registry is one its codec accepted. */
  lemma LoadedIsGood(flash: Slots.Flash)
    ensures Good(false, Slots.LoadedValue(REGISTRY_CODEC, flash))
  {
    hide Good, Decode;
    var slot := Slots.LoadedSlot(REGISTRY_CODEC, flash);
    if slot < 0 {
      NothingGood(false);
    } else {
      DecodedIsGood(flash[slot].value);
    }
  }
}
