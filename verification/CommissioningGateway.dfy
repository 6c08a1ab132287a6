/** The gateway's side of commissioning: it reserves a record for the expected device
    while pairing, and activates it when the device confirms. */
module CommissioningGateway {
  import opened Bytes
  import opened Protocol
  import opened Options
  import opened CommissioningFrames
  import opened NodeRegistry
  import opened RegistryMap
  import opened RegistryService
  import Slots = DualSlotStore

  const GATEWAY_NODE_ID: byte := 100
  const CONFIRM_TIMEOUT_MS: uint32 := 5000

  datatype Installation = Installation(networkId: byte, key: Key)

  /** The registry and the open transaction: the device whose QR code was scanned,
      and whether an accepted device still has to confirm. */
  datatype Gateway = Gateway(service: Service, expected: Option<Uid>, awaitingConfirm: bool, confirmDeadline: uint32)

  /** What the surroundings decide: pairing window open, recovery guard free, the
      registry write, the radio queue taking the answer, the profile switch. */
  datatype Surroundings = Surroundings(
    pairing: bool, open: bool, env: Slots.Env, sent: bool, switched: bool, now: uint32)

  function DeadlineFrom(now: uint32): uint32 {
    (now + CONFIRM_TIMEOUT_MS) % 0x1_0000_0000
  }

  function AcceptFor(request: JoinRequest, nodeId: byte, installation: Installation): JoinAccept {
    JoinAccept(
      request.deviceUid, request.requestNonce, nodeId, GATEWAY_NODE_ID, installation.networkId, installation.key)
  }

  /** The accept is transmitted, if at all, after the record is durable. */
  function RequestArrived(
    g: Gateway, senderId: byte, request: JoinRequest, installation: Option<Installation>, w: Surroundings)
    : (r: (Option<JoinAccept>, Gateway))
    requires g.service.registry.count <= MAX_NODES
  {
    if !w.pairing || senderId != 0 || g.awaitingConfirm || g.expected != Some(request.deviceUid) then (None, g)
    else
      var (status, nodeId, _) := Reserve(g.service.registry, request);
      var (commit, service) := ChangeAndSave(g.service, DoReserve(request), w.open, w.env);
      var after := g.(service := service);
      if commit == StorageError || commit == NotInitialized ||
         (status != Created && status != ExistingPendingUpdated) || installation.None?
      then (None, after)
      else
        (Some(AcceptFor(request, nodeId, installation.value)),
         if w.sent then after.(awaitingConfirm := true, confirmDeadline := DeadlineFrom(w.now)) else after)
  }

  function ConfirmArrived(g: Gateway, senderId: byte, confirm: JoinConfirm, w: Surroundings)
    : (r: (Option<JoinConfirm>, Gateway))
    requires g.service.registry.count <= MAX_NODES
  {
    var result := Confirm(g.service.registry, confirm.deviceUid, senderId, confirm.requestNonce).0;
    var op := DoConfirm(confirm.deviceUid, senderId, confirm.requestNonce);
    var (commit, service) := ChangeAndSave(g.service, op, w.open, w.env);
    var after := g.(service := service);
    var newlyConfirmed := commit == Ok && result == Confirmed;
    if !newlyConfirmed && !(commit == CommitStatus.NoChange && result == AlreadyActive) then (None, after)
    else
      (Some(confirm),
       if w.sent then
         after.(awaitingConfirm := false, confirmDeadline := 0,
                expected := if newlyConfirmed && w.switched then None else after.expected)
       else after)
  }

  /** The confirm window closes when its deadline has passed, across clock wrap. */
  function TimedOut(g: Gateway, now: uint32): Gateway {
    if g.awaitingConfirm && (now - g.confirmDeadline) % 0x1_0000_0000 < 0x8000_0000
    then g.(awaitingConfirm := false, confirmDeadline := 0) else g
  }

  /** The window stays open for five seconds from the moment the accept was sent, wherever
      the clock wraps, and is closed by any look at it in the 24 days after. */
  lemma WindowLasts(g: Gateway, sent: uint32, elapsed: nat)
    requires g.awaitingConfirm && g.confirmDeadline == DeadlineFrom(sent) && elapsed < 0x8000_0000
    ensures
      var after := TimedOut(g, (sent + elapsed) % 0x1_0000_0000);
      && (elapsed < 5000 ==> after == g)
      && (elapsed >= 5000 ==> after == g.(awaitingConfirm := false, confirmDeadline := 0))
  {
  }

  // ---------------------------------------------------------------- what is answered

  /** A request is accepted exactly if pairing expects that device now, its record is
      pending or new and there is room, an installation key exists, and the record was
      saved; then the accept names that record and the installation, and once it is sent
      the confirm is awaited. */
  predicate RequestAnswered(
    g: Gateway, senderId: byte, request: JoinRequest, installation: Option<Installation>, w: Surroundings,
    accept: Option<JoinAccept>, after: Gateway)
    requires g.service.registry.count <= MAX_NODES && after.service.registry.count <= MAX_NODES
  {
    var r := g.service.registry;
    var known := LookupUid(r, request.deviceUid);
    var awaited := w.pairing && senderId == 0 && !g.awaitingConfirm && g.expected == Some(request.deviceUid);
    var admitted := Admitted(r, request);
    && (accept.Some? <==>
          awaited && admitted && w.open && installation.Some? && Advanced(g.service, after.service))
    && (awaited && admitted && w.open && w.env == Slots.Env(Slots.Written, true, true) ==> Advanced(g.service, after.service))
    && (!awaited ==> after == g)
    && (accept.Some? ==>
          && accept.value.deviceUid == request.deviceUid && accept.value.requestNonce == request.requestNonce
          && accept.value.gatewayNodeId == GATEWAY_NODE_ID && accept.value.networkId == installation.value.networkId
          && accept.value.installationKey == installation.value.key
          && (known.Some? ==> accept.value.assignedNodeId == known.value.nodeId)
          && (known.None? ==> Lookup(r, accept.value.assignedNodeId).None?)
          && var record := Lookup(after.service.registry, accept.value.assignedNodeId);
             record.Some? && record.value.deviceUid == request.deviceUid && record.value.state == PENDING &&
             record.value.requestNonce == request.requestNonce && record.value.profileId == request.profileId)
    && after.expected == g.expected
    && after.awaitingConfirm == ((accept.Some? && w.sent) || g.awaitingConfirm)
    && after.confirmDeadline == if accept.Some? && w.sent then (w.now + 5000) % 0x1_0000_0000 else g.confirmDeadline
  }

  predicate Admitted(r: Registry, request: JoinRequest)
    requires r.count <= MAX_NODES
  {
    var known := LookupUid(r, request.deviceUid);
    if known.Some? then known.value.profileId == request.profileId && known.value.state == PENDING
    else r.count < MAX_NODES
  }

  /** The record an admitted request reserves. */
  lemma ReservedRecord(r: Registry, request: JoinRequest)
    requires Good(false, r) && Decodable(request)
    ensures r.count <= MAX_NODES
    ensures
      var (status, nodeId, after) := Reserve(r, request);
      var known := LookupUid(r, request.deviceUid);
      && after.count <= MAX_NODES && Perform(r, DoReserve(request)) == after
      && (status == Created || status == ExistingPendingUpdated <==> Admitted(r, request))
      && (Changes(r, DoReserve(request)) <==> Admitted(r, request))
      && (Admitted(r, request) ==>
            && (if known.Some? then nodeId == known.value.nodeId else Lookup(r, nodeId).None?)
            && Lookup(after, nodeId).Some?
            && var record := Lookup(after, nodeId).value;
               record.deviceUid == request.deviceUid && record.state == PENDING &&
               record.requestNonce == request.requestNonce && record.profileId == request.profileId)
  {
    CountFits(false, r);
    ReserveGood(false, r, request);
    var (status, nodeId, after) := Reserve(r, request);
    CountFits(false, after);
    if LookupUid(r, request.deviceUid).Some? {
      ReserveKnown(r, request, nodeId);
      LookupsAgree(r, request.deviceUid);
    } else {
      ReserveNew(r, request, nodeId);
    }
    hide Reserve, Good, Lookup, LookupUid;
  }

  lemma RequestMeaning(
    g: Gateway, senderId: byte, request: JoinRequest, installation: Option<Installation>, w: Surroundings)
    requires Good(false, g.service.registry) && Decodable(request)
    ensures g.service.registry.count <= MAX_NODES
    ensures
      var (accept, after) := RequestArrived(g, senderId, request, installation, w);
      after.service.registry.count <= MAX_NODES && RequestAnswered(g, senderId, request, installation, w, accept, after)
  {
    hide Reserve, Perform, Changes, Good, Lookup, LookupUid, ChangeAndSave, Advanced;
    CountFits(false, g.service.registry);
    ChangeAnswers(g.service, DoReserve(request), w.open, w.env);
    ReservedRecord(g.service.registry, request);
  }

  /** A confirm is answered, with itself, exactly if its UID, sender and nonce name a
      pending record that then was saved as active, or one that is active already; so a
      lost answer is given again. The transaction ends once the answer is sent. */
  predicate ConfirmAnswered(
    g: Gateway, senderId: byte, confirm: JoinConfirm, w: Surroundings, complete: Option<JoinConfirm>, after: Gateway)
    requires g.service.registry.count <= MAX_NODES && after.service.registry.count <= MAX_NODES
  {
    var current := Lookup(g.service.registry, senderId);
    var named :=
      current.Some? && current.value.deviceUid == confirm.deviceUid && current.value.requestNonce == confirm.requestNonce;
    var pending, active := named && current.value.state == PENDING, named && current.value.state == ACTIVE;
    var activated := w.open && pending && Advanced(g.service, after.service);
    && (complete.Some? <==> activated || (w.open && active))
    && (complete.Some? ==> complete.value == confirm)
    && (w.open && pending && w.env == Slots.Env(Slots.Written, true, true) ==> activated)
    && (activated ==> Lookup(after.service.registry, senderId) == Some(current.value.(state := ACTIVE)))
    && (!activated ==> after.service.registry == g.service.registry)
    && after.awaitingConfirm == (g.awaitingConfirm && !(complete.Some? && w.sent))
    && after.confirmDeadline == (if complete.Some? && w.sent then 0 else g.confirmDeadline)
    && after.expected == if activated && w.sent && w.switched then None else g.expected
  }

  lemma ConfirmMeaningHere(g: Gateway, senderId: byte, confirm: JoinConfirm, w: Surroundings)
    requires Good(false, g.service.registry)
    ensures g.service.registry.count <= MAX_NODES
    ensures
      var (complete, after) := ConfirmArrived(g, senderId, confirm, w);
      after.service.registry.count <= MAX_NODES && ConfirmAnswered(g, senderId, confirm, w, complete, after)
  {
    var r, op := g.service.registry, DoConfirm(confirm.deviceUid, senderId, confirm.requestNonce);
    CountFits(false, r);
    ChangeAnswers(g.service, op, w.open, w.env);
    PerformGood(false, r, op);
    ConfirmMeaning(r, confirm.deviceUid, senderId, confirm.requestNonce, senderId);
    hide Confirm, Good, Lookup, ChangeAndSave, Advanced;
    CountFits(false, Perform(r, op));
  }

  class Coordinator {
    const registry: Server
    var expected: Option<Uid>
    var awaitingConfirm: bool
    var confirmDeadline: uint32

    ghost predicate Valid()
      reads this, registry, registry.store, registry.storage, registry.nodes, registry.nodes.records
    {
      registry.Valid()
    }

    ghost function State(): Gateway
      requires Valid()
      reads this, registry, registry.store, registry.storage, registry.nodes, registry.nodes.records
    {
      Gateway(registry.State(), expected, awaitingConfirm, confirmDeadline)
    }

    constructor (registry: Server)
      requires registry.Valid()
      ensures Valid() && this.registry == registry
      ensures State() == Gateway(registry.State(), None, false, 0)
    {
      this.registry := registry;
      expected, awaitingConfirm, confirmDeadline := None, false, 0;
    }

    /** A scanned QR code opens the pairing window for its device only. */
    method Open(deviceUid: Uid, radioReady: bool, windowOpened: bool) returns (ok: bool)
      requires Valid()
      modifies this`expected
      ensures Valid() && ok == (radioReady && windowOpened)
      ensures State() == old(State()).(expected := if ok then Some(deviceUid) else None)
    {
      hide Good, Published;
      expected := Some(deviceUid);
      if !radioReady || !windowOpened {
        expected := None;
        return false;
      }
      ok := true;
    }

    method Close()
      requires Valid()
      modifies this`expected
      ensures Valid() && State() == old(State()).(expected := None)
    {
      hide Good, Published;
      expected := None;
    }

    method HandleJoinRequest(
      senderId: byte, request: JoinRequest, installation: Option<Installation>, w: Surroundings)
      returns (accept: Option<JoinAccept>)
      requires Valid() && Decodable(request)
      modifies this`awaitingConfirm, this`confirmDeadline
      modifies registry`words, registry.store, registry.storage, registry.nodes, registry.nodes.records
      ensures Valid() && (accept, State()) == RequestArrived(old(State()), senderId, request, installation, w)
      ensures old(registry.nodes.View()).count <= MAX_NODES && registry.nodes.View().count <= MAX_NODES
      ensures RequestAnswered(old(State()), senderId, request, installation, w, accept, State())
    {
      hide Reserve, Good, Published, Commit, ChangeAndSave, RequestAnswered;
      RequestMeaning(State(), senderId, request, installation, w);
      if !w.pairing || senderId != 0 || awaitingConfirm || expected != Some(request.deviceUid) {
        return None;
      }
      ghost var before := registry.State();
      var commit, status, nodeId := registry.ReserveAndSave(request, w.open, w.env);
      ClosedIsNotInitialized(before, DoReserve(request), w.open, w.env);
      if commit == StorageError || commit == NotInitialized {
        return None;
      }
      if status != Created && status != ExistingPendingUpdated {
        return None;
      }
      if installation.None? {
        return None;
      }
      accept := Some(AcceptFor(request, nodeId, installation.value));
      if !w.sent {
        return;
      }
      awaitingConfirm := true;
      confirmDeadline := DeadlineFrom(w.now);
    }

    method HandleJoinConfirm(senderId: byte, confirm: JoinConfirm, w: Surroundings)
      returns (complete: Option<JoinConfirm>)
      requires Valid()
      modifies this
      modifies registry`words, registry.store, registry.storage, registry.nodes, registry.nodes.records
      ensures Valid() && (complete, State()) == ConfirmArrived(old(State()), senderId, confirm, w)
      ensures old(registry.nodes.View()).count <= MAX_NODES && registry.nodes.View().count <= MAX_NODES
      ensures ConfirmAnswered(old(State()), senderId, confirm, w, complete, State())
    {
      hide Confirm, Good, Published, Commit, ChangeAndSave, ConfirmAnswered;
      ConfirmMeaningHere(State(), senderId, confirm, w);
      ghost var before := registry.State();
      var commit, result := registry.ConfirmAndSave(confirm.deviceUid, senderId, confirm.requestNonce, w.open, w.env);
      ClosedIsNotInitialized(before, DoConfirm(confirm.deviceUid, senderId, confirm.requestNonce), w.open, w.env);
      var newlyConfirmed := commit == Ok && result == Confirmed;
      var alreadyConfirmed := commit == CommitStatus.NoChange && result == AlreadyActive;
      if !newlyConfirmed && !alreadyConfirmed {
        return None;
      }
      complete := Some(confirm);
      if !w.sent {
        return;
      }
      awaitingConfirm := false;
      confirmDeadline := 0;
      if newlyConfirmed && w.switched {
        expected := None;
      }
    }

    method Poll(now: uint32)
      requires Valid()
      modifies this`awaitingConfirm, this`confirmDeadline
      ensures Valid() && State() == TimedOut(old(State()), now)
    {
      hide Good, Published;
      if awaitingConfirm && (now - confirmDeadline) % 0x1_0000_0000 < 0x8000_0000 {
        awaitingConfirm := false;
        confirmDeadline := 0;
      }
    }
  }

  lemma ClosedIsNotInitialized(s: Service, op: Op, open: bool, env: Slots.Env)
    requires s.registry.count <= MAX_NODES
    ensures !open <==> ChangeAndSave(s, op, open, env).0 == NotInitialized
  {
  }
}
