/** The gateway's command service: the durable book, the per-boot delivery table,
    and the bitmap other tasks read without a lock. */
module CommandService {
  import opened Bytes
  import opened Protocol
  import opened Options
  import opened Bitmap
  import opened CommandBook
  import opened CommandBookCodec
  import opened CommandTable
  import opened BookMap
  import Slots = DualSlotStore

  const NODE_ID_SLOTS := 100
  const PULSE_COUNTER_PROFILE: uint16 := 6

  datatype Delivery = Delivery(sessionNonce: uint32, commandId: uint16)

  const NO_DELIVERY := Delivery(0, 0)

  type Deliveries = s: seq<Delivery> | |s| == 100 witness seq(100, _ => NO_DELIVERY)

  /** The service's state: the book in memory, its store, and the deliveries of
      this boot. */
  datatype Service = Service(book: Book, store: Slots.State<Book>, deliveries: Deliveries)

  /** What the registry says about an active node. */
  datatype Identity = Identity(deviceUid: Uid, profileId: uint16)

  datatype Reply = NoCommand(nonce: uint32) | Deliver(nonce: uint32, commandId: uint16, commandType: byte, arguments: seq<byte>)

  datatype QueueResult =
    Queued | Busy | NodeNotFound | Unsupported | InvalidArguments | CapacityReached | StorageError | NotInitialized

  function ProfileSupports(profileId: uint16, commandType: byte): bool {
    (commandType == SET_COUNT && profileId == PULSE_COUNTER_PROFILE) || commandType == READ_INFO
  }

  /** Saves a candidate; on success it becomes the book. */
  function Commit(s: Service, candidate: Book, env: Slots.Env): (r: (bool, Service)) {
    var saved := Slots.Save(Slots.Generic, COMMAND_CODEC, s.store.flash, s.store.ram, candidate, env);
    (saved.ok, s.(book := if saved.ok then candidate else s.book, store := Slots.State(saved.flash, saved.ram)))
  }

  predicate PendingIn(b: Book, nodeId: nat) {
    exists i :: 0 <= i < |b.records| && b.records[i].state == PENDING && b.records[i].nodeId == nodeId
  }

  function Ready(s: Service, identity: Option<Identity>, nodeId: byte, nonce: uint32): (r: (Reply, Service))
    requires nodeId < NODE_ID_SLOTS
  {
    var found := Find(s.book, nodeId);
    if identity.Some? && found.Some? && found.value.state == PENDING &&
       found.value.deviceUid == identity.value.deviceUid && found.value.argumentSize <= 8
    then
      (Deliver(nonce, found.value.commandId, found.value.commandType, found.value.arguments[..found.value.argumentSize]),
       s.(deliveries := s.deliveries[nodeId := Delivery(nonce, found.value.commandId)]))
    else (NoCommand(nonce), s)
  }

  /** A result of the latest delivery completes the command. `open` is the recovery
      guard; `infoStored` whether the registry took the identity of a ReadInfo. */
  function ResultArrived(
    s: Service, identity: Option<Identity>, nodeId: byte, nonce: uint32, commandId: uint16, status: byte,
    data: seq<byte>, open: bool, infoStored: bool, now: uint64, env: Slots.Env): Service
    requires nodeId < NODE_ID_SLOTS
  {
    if !open || identity.None? || s.deliveries[nodeId] != Delivery(nonce, commandId) then s
    else if ReportsInfo(s.book, nodeId, commandId, status) && !infoStored then s
    else
      var (outcome, candidate) :=
        Complete(s.book, identity.value.deviceUid, nodeId, commandId, status, data, now);
      if outcome == Completed then Commit(s, candidate, env).1 else s
  }

  predicate ReportsInfo(b: Book, nodeId: byte, commandId: uint16, status: byte) {
    var found := Find(b, nodeId);
    found.Some? && found.value.state == PENDING && found.value.commandId == commandId &&
    found.value.commandType == READ_INFO && status == APPLIED
  }

  function QueueCommand(
    s: Service, identity: Option<Identity>, nodeId: byte, commandType: byte, arguments: seq<byte>, open: bool,
    now: uint64, env: Slots.Env): (r: (QueueResult, Service))
    requires nodeId < NODE_ID_SLOTS
  {
    if identity.None? then (NodeNotFound, s)
    else if !ProfileSupports(identity.value.profileId, commandType) then (Unsupported, s)
    else if !open then (NotInitialized, s)
    else
      var (status, candidate) := Queue(s.book, identity.value.deviceUid, nodeId, commandType, arguments, now);
      match status
      case Queued =>
        var (saved, after) := Commit(s, candidate, env);
        if saved then (QueueResult.Queued, after.(deliveries := after.deliveries[nodeId := NO_DELIVERY]))
        else (StorageError, after)
      case Busy => (QueueResult.Busy, s)
      case InvalidNode => (NodeNotFound, s)
      case InvalidArguments => (QueueResult.InvalidArguments, s)
      case CapacityReached => (QueueResult.CapacityReached, s)
  }

  function CancelCommand(s: Service, nodeId: byte, open: bool, env: Slots.Env): (r: (bool, Service)) {
    var (cancelled, candidate) := Cancel(s.book, nodeId);
    if open && cancelled then Commit(s, candidate, env) else (false, s)
  }

  function RemoveNodeCommand(s: Service, nodeId: byte, open: bool, env: Slots.Env): (r: (bool, Service)) {
    if !open then (false, s)
    else
      var (removed, candidate) := RemoveNode(s.book, nodeId);
      var (saved, after) := if removed then Commit(s, candidate, env) else (false, s);
      (saved, if nodeId < NODE_ID_SLOTS then after.(deliveries := after.deliveries[nodeId := NO_DELIVERY]) else after)
  }

  function ClearCommands(s: Service, open: bool, env: Slots.Env): (r: (bool, Service)) {
    if !open then (false, s)
    else
      var (saved, after) := if s.book.records == [] then (true, s) else Commit(s, Clear(s.book), env);
      (saved, after.(deliveries := seq(NODE_ID_SLOTS, _ => NO_DELIVERY)))
  }

  /** A boot: the book is reloaded and every delivery forgotten. A gateway without
      a stored book starts its IDs at a random one. */
  function Booted(flash: Slots.Flash, randomId: uint16): Service {
    var ram := Slots.LoadedRam(COMMAND_CODEC, flash);
    Service(
      if ram.loaded then ram.current else Book(randomId, []), Slots.State(flash, ram),
      seq(NODE_ID_SLOTS, _ => NO_DELIVERY))
  }

  // ---------------------------------------------------------------- what is answered

  predicate PendingFor(r: CommandRecord, nodeId: byte, identity: Option<Identity>) {
    identity.Some? && r.state == PENDING && r.nodeId == nodeId && r.deviceUid == identity.value.deviceUid
  }

  /** A listening node is sent the pending command of its device, whole, exactly if there
      is one; the latest delivery of the node is then this one. */
  predicate ReadyAnswered(
    b: Book, before: Deliveries, nodeId: byte, identity: Option<Identity>, nonce: uint32, reply: Reply, after: Deliveries)
    requires nodeId < NODE_ID_SLOTS
  {
    && reply.nonce == nonce
    && (reply.Deliver? <==> BusyWith(b, nodeId, identity))
    && (reply.NoCommand? ==> after == before)
    && (reply.Deliver? ==>
          && after == before[nodeId := Delivery(nonce, reply.commandId)]
          && exists i :: 0 <= i < |b.records| && PendingFor(b.records[i], nodeId, identity) && Carries(reply, b.records[i]))
  }

  /** The ID, the type and all the arguments. */
  predicate Carries(reply: Reply, r: CommandRecord) {
    && reply.Deliver? && reply.commandId == r.commandId && reply.commandType == r.commandType
    && |reply.arguments| == r.argumentSize <= 8
    && forall k :: 0 <= k < |reply.arguments| ==> reply.arguments[k] == r.arguments[k]
  }

  lemma ReadyMeaning(s: Service, identity: Option<Identity>, nodeId: byte, nonce: uint32)
    requires ValidBook(s.book) && nodeId < NODE_ID_SLOTS
    ensures
      var (reply, after) := Ready(s, identity, nodeId, nonce);
      && ReadyAnswered(s.book, s.deliveries, nodeId, identity, nonce, reply, after.deliveries)
      && after.book == s.book && after.store == s.store
  {
    hide IndexFrom, DistinctNodes;
    var index := IndexOf(s.book.records, nodeId);
    if index >= 0 {
      assert ValidRecord(s.book.records[index]);
      var (reply, after) := Ready(s, identity, nodeId, nonce);
      assert reply.Deliver? ==> PendingFor(s.book.records[index], nodeId, identity) && Carries(reply, s.book.records[index]);
    }
    forall i | 0 <= i < |s.book.records| && PendingFor(s.book.records[i], nodeId, identity)
      ensures Find(s.book, nodeId) == Some(s.book.records[i])
    {
      FoundAt(s.book, i);
    }
  }

  /** The result answers the latest delivery and settles the pending command it names. */
  predicate Settles(
    s: Service, identity: Option<Identity>, nodeId: byte, nonce: uint32, commandId: uint16, status: byte,
    data: seq<byte>, open: bool, infoStored: bool, r: CommandRecord)
    requires nodeId < NODE_ID_SLOTS
  {
    && open && s.deliveries[nodeId].sessionNonce == nonce && s.deliveries[nodeId].commandId == commandId
    && PendingFor(r, nodeId, identity) && r.commandId == commandId
    && status < STORAGE_FAILURE && |data| == ResultDataSize(r.commandType, status)
    && (r.commandType == READ_INFO && status == APPLIED ==> infoStored)
  }

  /** The one record, completed. */
  predicate Settled(b: Book, i: nat, after: Book, status: byte, data: seq<byte>, now: uint64)
    requires i < |b.records| && |data| <= 8
  {
    && after.nextCommandId == b.nextCommandId && |after.records| == |b.records|
    && after.records[i] == b.records[i].(
         state := COMPLETED, status := status, resultSize := |data|, result := Padded(data), completedAtUnixMs := now)
    && forall j :: 0 <= j < |b.records| && j != i ==> after.records[j] == b.records[j]
  }

  /** A result is taken exactly if it settles a record: then that record is completed with
      it, once the book is saved, and nothing else changes. */
  predicate ResultTaken(
    before: Service, identity: Option<Identity>, nodeId: byte, nonce: uint32, commandId: uint16, status: byte,
    data: seq<byte>, open: bool, infoStored: bool, now: uint64, env: Slots.Env, after: Service)
    requires nodeId < NODE_ID_SLOTS
  {
    var b := before.book;
    && after.deliveries == before.deliveries
    && ((forall i :: 0 <= i < |b.records| ==>
           !Settles(before, identity, nodeId, nonce, commandId, status, data, open, infoStored, b.records[i])) ==>
          after == before)
    && forall i | 0 <= i < |b.records| &&
                  Settles(before, identity, nodeId, nonce, commandId, status, data, open, infoStored, b.records[i]) ::
         && |data| <= 8
         && (after.book == b || Settled(b, i, after.book, status, data, now))
         && (env == Slots.Env(Slots.Written, true, true) ==> Settled(b, i, after.book, status, data, now))
  }

  lemma ResultMeaning(
    s: Service, identity: Option<Identity>, nodeId: byte, nonce: uint32, commandId: uint16, status: byte,
    data: seq<byte>, open: bool, infoStored: bool, now: uint64, env: Slots.Env)
    requires ValidBook(s.book) && nodeId < NODE_ID_SLOTS
    ensures
      ResultTaken(
        s, identity, nodeId, nonce, commandId, status, data, open, infoStored, now, env,
        ResultArrived(s, identity, nodeId, nonce, commandId, status, data, open, infoStored, now, env))
  {
    hide IndexFrom, DistinctNodes, ValidRecord, Slots.Save, Encode, Complete, Padded, Settled;
    var b, index := s.book, IndexOf(s.book.records, nodeId);
    forall i | 0 <= i < |b.records| && b.records[i].nodeId == nodeId
      ensures i == index
    {
      OnlyIndex(b, i);
    }
    if identity.Some? {
      var (outcome, candidate) := Complete(b, identity.value.deviceUid, nodeId, commandId, status, data, now);
      CompleteSettles(b, identity.value.deviceUid, nodeId, commandId, status, data, now);
      CompleteValid(b, identity.value.deviceUid, nodeId, commandId, status, data, now);
      GoodSaveCommits(s, candidate);
    }
  }

  lemma CompleteSettles(
    b: Book, deviceUid: Uid, nodeId: byte, commandId: uint16, status: byte, data: seq<byte>, now: uint64)
    requires ValidBook(b)
    ensures
      var (outcome, after) := Complete(b, deviceUid, nodeId, commandId, status, data, now);
      var index := IndexOf(b.records, nodeId);
      && (outcome == Completed <==>
            index >= 0 && var r := b.records[index];
                          && r.state == PENDING && r.deviceUid == deviceUid && r.commandId == commandId
                          && status < STORAGE_FAILURE && |data| == ResultDataSize(r.commandType, status))
      && (outcome == Completed ==> |data| <= 8 && Settled(b, index, after, status, data, now))
  {
    hide IndexFrom, DistinctNodes;
    var index := IndexOf(b.records, nodeId);
    if index >= 0 {
      var r := b.records[index];
      assert ValidRecord(r);
      if |data| <= 8 && r.resultSize == 0 {
        assert data + r.result[|data|..] == Padded(data);
      }
    }
  }

  lemma OnlyIndex(b: Book, i: nat)
    requires ValidBook(b) && i < |b.records|
    ensures IndexOf(b.records, b.records[i].nodeId) == i
  {
    hide IndexFrom, ValidRecord;
    assert b.records[IndexOf(b.records, b.records[i].nodeId)].nodeId == b.records[i].nodeId;
  }

  /** A save that meets no error takes a valid candidate over. */
  lemma GoodSaveCommits(s: Service, candidate: Book)
    requires ValidBook(candidate)
    ensures
      var (ok, after) := Commit(s, candidate, Slots.Env(Slots.Written, true, true));
      ok && after.book == candidate && after.store.ram.loaded && after.store.ram.current == candidate
  {
    hide Decode, ValidBook, Slots.Save;
    CommandCodecIsFaithful();
    Slots.WrittenIsOk(Slots.Generic, COMMAND_CODEC, s.store, candidate);
  }

  predicate Supported(identity: Option<Identity>, commandType: byte) {
    identity.Some? &&
    (commandType == READ_INFO || (commandType == SET_COUNT && identity.value.profileId == PULSE_COUNTER_PROFILE))
  }

  predicate BusyWith(b: Book, nodeId: byte, identity: Option<Identity>) {
    exists i :: 0 <= i < |b.records| && PendingFor(b.records[i], nodeId, identity)
  }

  /** Full of other nodes' pending commands. */
  predicate FullWithout(b: Book, nodeId: byte) {
    && |b.records| == MAX_COMMAND_RECORDS
    && forall i :: 0 <= i < |b.records| ==> b.records[i].state == PENDING && b.records[i].nodeId != nodeId
  }

  predicate Fits(commandType: byte, size: nat) {
    size == if commandType == SET_COUNT then 4 else 0
  }

  /** The refusals, each exactly when; the commands left are queued if they can be saved. */
  predicate QueueAnswered(
    b: Book, identity: Option<Identity>, nodeId: byte, commandType: byte, size: nat, open: bool, result: QueueResult)
  {
    if identity.None? then result == NodeNotFound
    else if !Supported(identity, commandType) then result == Unsupported
    else if !open then result == NotInitialized
    else if nodeId == 0 then result == NodeNotFound
    else if !Fits(commandType, size) then result == QueueResult.InvalidArguments
    else if BusyWith(b, nodeId, identity) then result == QueueResult.Busy
    else if FullWithout(b, nodeId) then result == QueueResult.CapacityReached
    else result == QueueResult.Queued || result == StorageError
  }

  /** Every answer to a command that is to be queued, each exactly when; without a flash
      error never a storage error. */
  lemma QueueAnswers(
    s: Service, identity: Option<Identity>, nodeId: byte, commandType: byte, arguments: seq<byte>, open: bool,
    now: uint64, env: Slots.Env)
    requires ValidBook(s.book) && nodeId < NODE_ID_SLOTS
    ensures
      var result := QueueCommand(s, identity, nodeId, commandType, arguments, open, now, env).0;
      && QueueAnswered(s.book, identity, nodeId, commandType, |arguments|, open, result)
      && (env == Slots.Env(Slots.Written, true, true) ==> result != StorageError)
  {
    hide IndexFrom, ValidRecord, DistinctNodes, Slots.Save, Encode, Queue;
    if identity.Some? {
      QueueMeaning(s.book, identity.value.deviceUid, nodeId, commandType, arguments, now, if nodeId == 0 then 1 else 0);
      var (status, candidate) := Queue(s.book, identity.value.deviceUid, nodeId, commandType, arguments, now);
      QueueValid(s.book, identity.value.deviceUid, nodeId, commandType, arguments, now);
      GoodSaveCommits(s, candidate);
    }
    forall i | 0 <= i < |s.book.records| && s.book.records[i].nodeId == nodeId
      ensures Find(s.book, nodeId) == Some(s.book.records[i])
    {
      FoundAt(s.book, i);
    }
  }

  /** What queueing leaves: the whole record, waiting for its delivery, or nothing new. */
  lemma QueueLeaves(
    s: Service, identity: Option<Identity>, nodeId: byte, commandType: byte, arguments: seq<byte>, open: bool,
    now: uint64, env: Slots.Env)
    requires ValidBook(s.book) && nodeId < NODE_ID_SLOTS
    ensures
      var (result, after) := QueueCommand(s, identity, nodeId, commandType, arguments, open, now, env);
      if result == QueueResult.Queued then
        && identity.Some? && |arguments| <= 8
        && after.deliveries == s.deliveries[nodeId := NO_DELIVERY]
        && Find(after.book, nodeId) == Some(CommandRecord(
             identity.value.deviceUid, nodeId, s.book.nextCommandId, commandType, |arguments|, Padded(arguments), PENDING, 0, 0,
             Padded([]), now, 0))
      else after.book == s.book && after.deliveries == s.deliveries && (result != StorageError ==> after == s)
  {
    hide IndexFrom, ValidBook, Slots.Save, Encode, Queue;
    if identity.Some? {
      QueueMeaning(s.book, identity.value.deviceUid, nodeId, commandType, arguments, now, if nodeId == 0 then 1 else 0);
    }
  }

  /** Every answer to a cancellation, and what it leaves. */
  lemma CancelAnswers(s: Service, nodeId: byte, open: bool, env: Slots.Env, other: byte)
    requires ValidBook(s.book) && other != nodeId
    ensures
      var (cancelled, after) := CancelCommand(s, nodeId, open, env);
      && (cancelled ==> open && PendingIn(s.book, nodeId) && Find(after.book, nodeId).None?)
      && (!cancelled ==> after.book == s.book)
      && (env == Slots.Env(Slots.Written, true, true) && open && PendingIn(s.book, nodeId) ==> cancelled)
      && Find(after.book, other) == Find(s.book, other) && after.deliveries == s.deliveries
  {
    hide IndexFrom, ValidRecord, DistinctNodes, Slots.Save, Encode, Cancel, RemoveNode;
    RemovalMeaning(s.book, nodeId, other);
    RemovalMeaning(s.book, nodeId, nodeId);
    RemovalsValid(s.book, nodeId);
    FoundPending(s.book, nodeId);
    GoodSaveCommits(s, Cancel(s.book, nodeId).1);
  }

  /** Every answer to the removal of a node, and what it leaves. */
  lemma RemoveAnswers(s: Service, nodeId: byte, open: bool, env: Slots.Env, other: byte)
    requires ValidBook(s.book) && other != nodeId
    ensures
      var (removed, after) := RemoveNodeCommand(s, nodeId, open, env);
      && (removed ==> open && Find(s.book, nodeId).Some? && Find(after.book, nodeId).None?)
      && (!removed ==> after.book == s.book)
      && (env == Slots.Env(Slots.Written, true, true) && open && Find(s.book, nodeId).Some? ==> removed)
      && Find(after.book, other) == Find(s.book, other)
      && after.deliveries ==
           if open && nodeId < NODE_ID_SLOTS then s.deliveries[nodeId := NO_DELIVERY] else s.deliveries
  {
    hide IndexFrom, ValidRecord, DistinctNodes, Slots.Save, Encode, RemoveNode;
    RemovalMeaning(s.book, nodeId, other);
    RemovalMeaning(s.book, nodeId, nodeId);
    RemovalsValid(s.book, nodeId);
    GoodSaveCommits(s, RemoveNode(s.book, nodeId).1);
  }

  /** Clearing forgets every command and delivery, but not the next ID. */
  lemma ClearAnswers(s: Service, open: bool, env: Slots.Env)
    requires ValidBook(s.book)
    ensures
      var (cleared, after) := ClearCommands(s, open, env);
      && (cleared ==> open && after.book == Book(s.book.nextCommandId, []))
      && (!cleared ==> after.book == s.book)
      && (env == Slots.Env(Slots.Written, true, true) && open ==> cleared)
      && (open ==> forall n :: 0 <= n < NODE_ID_SLOTS ==> after.deliveries[n] == NO_DELIVERY)
      && (!open ==> after == s)
  {
    hide Slots.Save, Encode;
    GoodSaveCommits(s, Clear(s.book));
  }

  // ---------------------------------------------------------------- the bitmap

  predicate Published(words: Words, b: Book) {
    forall n :: 0 <= n < 128 ==> (HasBit(words, n) <==> PendingIn(b, n))
  }

  // ---------------------------------------------------------------- the class

  class Server {
    const store: Slots.Store<Book>
    const storage: Slots.SlotStorage
    const book: Table
    const candidate: Table
    const deliveries: array<Delivery>
    var words: Words

    ghost function State(): Service
      requires Shape() && book.Valid()
      reads this, store, storage, book, book.records, deliveries
    {
      Service(book.View(), Slots.State(storage.slots, store.Memory()), deliveries[..])
    }

    ghost predicate Shape() {
      && store.storage == storage && store.variant == Slots.Generic && store.codec == COMMAND_CODEC
      && deliveries.Length == NODE_ID_SLOTS
      && book != candidate && book.records != candidate.records
      && candidate.records.Length == MAX_COMMAND_RECORDS
    }

    /** The book is valid and the bitmap answers for it. */
    ghost predicate Valid()
      reads this, store, storage, book, book.records, deliveries
    {
      Shape() && book.Valid() && ValidBook(book.View()) && Published(words, book.View())
    }

    constructor (storage: Slots.SlotStorage)
      ensures Shape() && book.Valid() && this.storage == storage
      ensures book.View() == Book(0, []) && deliveries[..] == seq(NODE_ID_SLOTS, _ => NO_DELIVERY)
    {
      var s := new Slots.Store<Book>(Slots.Generic, COMMAND_CODEC, storage);
      var b := new Table(0);
      var c := new Table(0);
      var d := new Delivery[NODE_ID_SLOTS](_ => NO_DELIVERY);
      store, this.storage, book, candidate, deliveries := s, storage, b, c, d;
      words := seq(4, _ => seq(32, _ => false));
      assert d[..] == seq(NODE_ID_SLOTS, _ => NO_DELIVERY);
    }

    /** Boot. */
    method Begin(randomId: uint16)
      requires Shape() && book.Valid() && randomId != 0
      requires book.View() == Book(0, []) && deliveries[..] == seq(NODE_ID_SLOTS, _ => NO_DELIVERY)
      modifies this`words, store, book, book.records
      ensures Valid() && State() == Booted(storage.slots, randomId)
    {
      hide Encode, Decode, ValidBook, Published, Slots.LoadedSlot;
      Slots.LoadsWhatIsReadable(COMMAND_CODEC, storage.slots, (true, true));
      var status, loaded := store.Load((true, true));
      var first := Book(randomId, []);
      EmptyIsValid(randomId);
      if status == Slots.Loaded {
        first := loaded;
        LoadedIsValid(storage.slots);
        BookSize(loaded);
      }
      book.Assign(first);
      PublishLockFreeView();
    }

    /** Call after every change of the book. */
    method PublishLockFreeView()
      requires book.Valid() && ValidBook(book.View())
      modifies `words
      ensures Published(words, book.View())
    {
      words := PublishedWords(book);
    }

    /** Saves the candidate; the book and the bitmap change only if that succeeds. */
    method CommitCandidate(env: Slots.Env) returns (ok: bool)
      requires Valid() && candidate.Valid() && ValidBook(candidate.View())
      modifies `words, store, storage, book, book.records
      ensures Valid() && (ok, State()) == Commit(old(State()), old(candidate.View()), env)
    {
      hide Encode, Decode, ValidBook, Slots.Save, Published;
      ok := store.DoSave(candidate.View(), env);
      if ok {
        book.CopyFrom(candidate);
        PublishLockFreeView();
      }
    }

    /** Answers without a lock, from the bitmap alone. */
    method HasPending(nodeId: byte) returns (pending: bool)
      requires Valid()
      ensures pending <==> FIRST_NODE_ID <= nodeId <= LAST_NODE_ID && PendingIn(book.View(), nodeId)
    {
      if nodeId < FIRST_NODE_ID || nodeId > LAST_NODE_ID {
        return false;
      }
      pending := HasBit(words, nodeId);
    }

    method HandleCommandReady(nodeId: byte, identity: Option<Identity>, nonce: uint32) returns (reply: Reply)
      requires Valid() && nodeId < NODE_ID_SLOTS
      modifies deliveries
      ensures Valid() && (reply, State()) == Ready(old(State()), identity, nodeId, nonce)
      ensures ReadyAnswered(
                book.View(), old(deliveries[..]), nodeId, identity, nonce, reply, deliveries[..])
    {
      hide ValidBook, Published, Slots.Save, ReadyAnswered;
      ReadyMeaning(State(), identity, nodeId, nonce);
      var pending := HasPending(nodeId);
      FoundPending(book.View(), nodeId);
      if !pending {
        return NoCommand(nonce);
      }
      var index := book.IndexOfNode(nodeId);
      if identity.None? || index < 0 {
        return NoCommand(nonce);
      }
      var r := book.records[index];
      if r.state != PENDING || r.deviceUid != identity.value.deviceUid || r.argumentSize > 8 {
        return NoCommand(nonce);
      }
      deliveries[nodeId] := Delivery(nonce, r.commandId);
      reply := Deliver(nonce, r.commandId, r.commandType, r.arguments[..r.argumentSize]);
    }

    method HandleCommandResult(
      nodeId: byte, identity: Option<Identity>, nonce: uint32, commandId: uint16, status: byte, data: seq<byte>,
      open: bool, infoStored: bool, now: uint64, env: Slots.Env) returns (outcome: CompleteStatus)
      requires Valid() && nodeId < NODE_ID_SLOTS
      modifies this`words, store, storage, book, book.records, candidate, candidate.records
      ensures Valid()
      ensures State() == ResultArrived(
                old(State()), identity, nodeId, nonce, commandId, status, data, open, infoStored, now, env)
      ensures ResultTaken(
                old(State()), identity, nodeId, nonce, commandId, status, data, open, infoStored, now, env, State())
    {
      hide ValidBook, Published, Slots.Save, Encode, Decode, Complete, IndexFrom, ResultTaken;
      ResultMeaning(State(), identity, nodeId, nonce, commandId, status, data, open, infoStored, now, env);
      if !open || identity.None? || deliveries[nodeId] != Delivery(nonce, commandId) {
        return NotPending;
      }
      if ReportsInfo(book.View(), nodeId, commandId, status) && !infoStored {
        return NotPending;
      }
      candidate.CopyFrom(book);
      CompleteValid(book.View(), identity.value.deviceUid, nodeId, commandId, status, data, now);
      outcome := candidate.DoComplete(identity.value.deviceUid, nodeId, commandId, status, data, now);
      if outcome == Completed {
        var recorded := CommitCandidate(env);
      }
    }

    method QueueForNode(
      nodeId: byte, identity: Option<Identity>, commandType: byte, arguments: seq<byte>, open: bool, now: uint64,
      env: Slots.Env) returns (result: QueueResult)
      requires Valid() && nodeId < NODE_ID_SLOTS
      modifies this`words, store, storage, book, book.records, candidate, candidate.records, deliveries
      ensures Valid()
      ensures (result, State()) == QueueCommand(old(State()), identity, nodeId, commandType, arguments, open, now, env)
    {
      hide ValidBook, Published, Slots.Save, Encode, Decode, Queue, Commit;
      if identity.None? {
        return NodeNotFound;
      }
      if !ProfileSupports(identity.value.profileId, commandType) {
        return Unsupported;
      }
      if !open {
        return NotInitialized;
      }
      candidate.CopyFrom(book);
      QueueValid(book.View(), identity.value.deviceUid, nodeId, commandType, arguments, now);
      var status, commandId := candidate.DoQueue(identity.value.deviceUid, nodeId, commandType, arguments, now);
      match status {
        case Queued =>
          var saved := CommitCandidate(env);
          if !saved {
            return StorageError;
          }
          deliveries[nodeId] := NO_DELIVERY;
          return QueueResult.Queued;
        case Busy => return QueueResult.Busy;
        case InvalidNode => return NodeNotFound;
        case InvalidArguments => return QueueResult.InvalidArguments;
        case CapacityReached => return QueueResult.CapacityReached;
      }
    }

    method CancelForNode(nodeId: byte, open: bool, env: Slots.Env) returns (cancelled: bool)
      requires Valid()
      modifies this`words, store, storage, book, book.records, candidate, candidate.records
      ensures Valid() && (cancelled, State()) == CancelCommand(old(State()), nodeId, open, env)
    {
      hide ValidBook, Published, Slots.Save, Encode, Decode, IndexFrom;
      if !open {
        return false;
      }
      candidate.CopyFrom(book);
      RemovalsValid(book.View(), nodeId);
      cancelled := candidate.DoCancel(nodeId);
      if cancelled {
        cancelled := CommitCandidate(env);
      }
    }

    /** A node that leaves takes its record and its delivery along. */
    method RemoveForNode(nodeId: byte, open: bool, env: Slots.Env) returns (removed: bool)
      requires Valid()
      modifies this`words, store, storage, book, book.records, candidate, candidate.records, deliveries
      ensures Valid() && (removed, State()) == RemoveNodeCommand(old(State()), nodeId, open, env)
    {
      hide ValidBook, Published, Slots.Save, Encode, Decode, IndexFrom, RemoveNode, Commit;
      if !open {
        return false;
      }
      candidate.CopyFrom(book);
      RemovalsValid(book.View(), nodeId);
      removed := candidate.DoRemoveNode(nodeId);
      if removed {
        removed := CommitCandidate(env);
      }
      if nodeId < NODE_ID_SLOTS {
        deliveries[nodeId] := NO_DELIVERY;
      }
    }

    /** Forgets every command and delivery; the next ID is kept. */
    method ClearAll(open: bool, env: Slots.Env) returns (cleared: bool)
      requires Valid()
      modifies this`words, store, storage, book, book.records, candidate, candidate.records, deliveries
      ensures Valid() && (cleared, State()) == ClearCommands(old(State()), open, env)
    {
      hide ValidBook, Published, Slots.Save, Encode, Decode, Clear, Commit;
      if !open {
        return false;
      }
      candidate.CopyFrom(book);
      RemovalsValid(book.View(), 0);
      candidate.DoClear();
      cleared := true;
      if book.count != 0 {
        cleared := CommitCandidate(env);
      }
      ForgetDeliveries();
    }

    method ForgetDeliveries()
      requires Valid()
      modifies deliveries
      ensures Valid() && State() == old(State()).(deliveries := seq(NODE_ID_SLOTS, _ => NO_DELIVERY))
    {
      hide ValidBook, Published;
      for i := 0 to NODE_ID_SLOTS
        invariant forall j :: 0 <= j < i ==> deliveries[j] == NO_DELIVERY
      {
        deliveries[i] := NO_DELIVERY;
      }
      assert deliveries[..] == seq(NODE_ID_SLOTS, _ => NO_DELIVERY);
    }
  }

  /** What `publishLockFreeView` computes before it stores the words. */
  method PublishedWords(book: Table) returns (words: Words)
    requires book.Valid() && ValidBook(book.View())
    ensures Published(words, book.View())
  {
    words := seq(4, _ => seq(32, _ => false));
    for index := 0 to book.count
      invariant forall n :: 0 <= n < 128 ==>
                  (HasBit(words, n) <==>
                     exists i :: 0 <= i < index && book.records[i].state == PENDING && book.records[i].nodeId == n)
    {
      var r := book.records[index];
      assert ValidRecord(book.View().records[index]);
      if r.state == PENDING {
        ghost var before := words;
        words := WithBit(words, r.nodeId);
        forall n | 0 <= n < 128
          ensures HasBit(words, n) <==> n == r.nodeId || HasBit(before, n)
        {
          BitSet(before, r.nodeId, n);
        }
      }
    }
  }

  lemma EmptyIsValid(first: uint16)
    requires first != 0
    ensures ValidBook(Book(first, []))
  {
  }

  /** A loaded book is one its codec accepted. */
  lemma LoadedIsValid(flash: Slots.Flash)
    requires Slots.LoadedSlot(COMMAND_CODEC, flash) >= 0
    ensures ValidBook(Slots.LoadedValue(COMMAND_CODEC, flash))
  {
  }

  /** The bitmap decides like a look at the node's record: in a valid book the
      first record of a node is its only one. */
  lemma FoundPending(b: Book, nodeId: byte)
    requires ValidBook(b)
    ensures PendingIn(b, nodeId) <==> Find(b, nodeId).Some? && Find(b, nodeId).value.state == PENDING
    ensures Find(b, nodeId).Some? ==> FIRST_NODE_ID <= nodeId <= LAST_NODE_ID
  {
    hide IndexFrom;
    if Find(b, nodeId).Some? {
      assert ValidRecord(b.records[IndexOf(b.records, nodeId)]);
    }
    if PendingIn(b, nodeId) {
      var i :| 0 <= i < |b.records| && b.records[i].state == PENDING && b.records[i].nodeId == nodeId;
      assert b.records[IndexOf(b.records, nodeId)].nodeId == nodeId;
    }
  }
}
