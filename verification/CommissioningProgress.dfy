/** What the handshake achieves when nothing is lost: from any reachable state, a device
    that pairing expects becomes an active node of the installation, and a node whose
    last answer was lost gets it again. */
module CommissioningProgress {
  import opened Protocol
  import opened Options
  import opened NodeRegistry
  import opened RegistryMap
  import opened CommissioningFrames
  import opened CommissioningGateway
  import opened CommissioningSafety
  import Slots = DualSlotStore
  import Config = NetworkConfigStore
  import Node = CommissioningNode

  /** Pairing is open, flash meets no error, and the radio takes what it is given. */
  predicate Favourable(w: Surroundings) {
    w.pairing && w.open && w.env == Slots.Env(Slots.Written, true, true) && w.sent && w.switched
  }

  lemma LeadsOn(s: System, events: seq<Event>, t: System, e: Event)
    requires Leads(s, events, t) && Enabled(t, e) && t.gateway.service.registry.count <= MAX_NODES
    ensures Leads(s, events + [e], Next(t, e))
  {
    hide Enabled, Next;
    assert (events + [e])[..|events|] == events;
  }

  /** What the invariant knows of the gateway and of a node. */
  lemma KnownGood(s: System, uid: Uid)
    requires Inv(s) && uid in s.nodes
    ensures Good(false, s.gateway.service.registry) && s.gateway.service.registry.count <= MAX_NODES
    ensures Config.Disciplined(s.nodes[uid].image)
  {
    hide NetOk, OneId, Slots.Matches, Config.Disciplined, Good, Actives, NoncesUsed, ConfigOk;
    assert NodeOk(uid, s.nodes[uid], s.provisioned, s.committed);
    CountFits(true, s.gateway.service.registry);
  }

  /** The registry names the membership a node holds, as pending or active. */
  predicate Names(r: Registry, uid: Uid, config: Config.NetworkConfig)
    requires r.count <= MAX_NODES
  {
    var record := Lookup(r, config.nodeId);
    && record.Some? && record.value.deviceUid == uid && record.value.requestNonce == config.requestNonce
    && (record.value.state == PENDING || record.value.state == ACTIVE)
  }

  predicate Joined(t: System, uid: Uid, config: Config.NetworkConfig) {
    && uid in t.nodes && t.gateway.service.registry.count <= MAX_NODES
    && Holds(t.nodes[uid], Config.Active) && Node.SameMembership(config, Config.Loaded(t.nodes[uid].image).value)
    && Names(t.gateway.service.registry, uid, config)
    && Lookup(t.gateway.service.registry, config.nodeId).value.state == ACTIVE
    && !t.gateway.awaitingConfirm
  }

  function ConfigOf(s: System, uid: Uid): Config.NetworkConfig
    requires uid in s.nodes && Config.Loaded(s.nodes[uid].image).Some?
  {
    Config.Loaded(s.nodes[uid].image).value
  }

  /** A provisional node, and its record in the registry. */
  predicate AwaitsConfirm(s: System, uid: Uid) {
    && s.gateway.service.registry.count <= MAX_NODES && uid in s.nodes && Holds(s.nodes[uid], Config.Provisional)
    && Names(s.gateway.service.registry, uid, ConfigOf(s, uid))
  }

  /** A device that pairing expects and the registry can admit, itself without a membership. */
  predicate AwaitsJoin(s: System, request: JoinRequest) {
    && s.gateway.service.registry.count <= MAX_NODES && request.deviceUid in s.nodes
    && Decodable(request) && Admitted(s.gateway.service.registry, request)
    && s.gateway.expected == Some(request.deviceUid) && !s.gateway.awaitingConfirm
    && var n := s.nodes[request.deviceUid];
       Config.Loaded(n.image).None? && n.waiting.None? && request.requestNonce !in n.used
  }

  /** A provisional node whose record the gateway holds as pending, or already as active
      because the answer before was lost, becomes active in three events. */
  lemma ConfirmSucceeds(s: System, uid: Uid, w: Surroundings) returns (events: seq<Event>, t: System)
    requires Inv(s) && Favourable(w) && AwaitsConfirm(s, uid)
    ensures |events| == 3 && Leads(s, events, t) && Joined(t, uid, ConfigOf(s, uid))
  {
    hide Inv, Config.Loaded, Config.Disciplined, Config.Step, Lookup, Good, ConfirmArrived, AllowedNext, Settles, Leads;
    KnownGood(s, uid);
    var config := Config.Loaded(s.nodes[uid].image).value;
    var confirm := JoinConfirm(uid, config.requestNonce);
    var send, take := SendConfirm(uid), TakeComplete(uid, config.nodeId, confirm, 34);
    var answer := GatewayConfirm(config.nodeId, confirm, w);
    var sent := Next(s, send);
    Start(s);
    assert [] + [send] == [send] && [send] + [answer] == [send, answer] && [send, answer] + [take] == [send, answer, take];
    LeadsOn(s, [], s, send);
    ConfirmMeaningHere(sent.gateway, config.nodeId, confirm, w);
    LeadsOn(s, [send], sent, answer);
    var answered := Next(sent, answer);
    LeadsOn(s, [send, answer], answered, take);
    Config.StepIsAtomic(s.nodes[uid].image, Config.StoreActive(34));
    events, t := [send, answer, take], Next(answered, take);
  }

  lemma Start(s: System)
    ensures Leads(s, [], s)
  {
  }

  lemma LastStep(s: System, events: seq<Event>, t: System) returns (before: System)
    requires Leads(s, events, t) && events != []
    ensures Leads(s, events[..|events| - 1], before) && Enabled(before, events[|events| - 1])
    ensures before.gateway.service.registry.count <= MAX_NODES && t == Next(before, events[|events| - 1])
  {
    hide Enabled, Next;
    before :|
      && Leads(s, events[..|events| - 1], before) && Enabled(before, events[|events| - 1])
      && before.gateway.service.registry.count <= MAX_NODES && t == Next(before, events[|events| - 1]);
  }

  lemma NoSteps(s: System, t: System)
    requires Leads(s, [], t)
    ensures t == s
  {
  }

  lemma {:induction false} LeadsConcat(s: System, a: seq<Event>, m: System, b: seq<Event>, t: System)
    requires Leads(s, a, m) && Leads(m, b, t)
    ensures Leads(s, a + b, t)
    decreases |b|
  {
    hide Enabled, Next, Leads;
    if b == [] {
      assert a + b == a;
      NoSteps(m, t);
    } else {
      var front, last := b[..|b| - 1], b[|b| - 1];
      var before := LastStep(m, b, t);
      LeadsConcat(s, a, m, front, before);
      LeadsOn(s, a + front, before, last);
      assert a + b == (a + front) + [last];
    }
  }

  /** The first three events: the request reserves a record, and its accept is stored. */
  lemma RequestSucceeds(s: System, request: JoinRequest, i: Installation, w: Surroundings)
    returns (events: seq<Event>, t: System)
    requires Inv(s) && Favourable(w) && AwaitsJoin(s, request)
    ensures |events| == 3 && Leads(s, events, t) && Inv(t) && AwaitsConfirm(t, request.deviceUid)
    ensures OfInstallation(i, ConfigOf(t, request.deviceUid))
    ensures ConfigOf(t, request.deviceUid).requestNonce == request.requestNonce
  {
    hide Inv, Config.Loaded, Config.Disciplined, Config.Step, Lookup, LookupUid, Good, RequestArrived, AllowedNext, Settles,
         Leads, RequestAnswered;
    var uid := request.deviceUid;
    KnownGood(s, uid);
    var send, answer := SendRequest(uid, request), GatewayRequest(0, request, Some(i), w);
    var sent := Next(s, send);
    Start(s);
    assert [] + [send] == [send] && [send] + [answer] == [send, answer];
    LeadsOn(s, [], s, send);
    StepKeepsInv(s, send);
    RequestMeaning(sent.gateway, 0, request, Some(i), w);
    var (accept, gateway) := RequestArrived(sent.gateway, 0, request, Some(i), w);
    AcceptGiven(sent.gateway, request, i, w, accept, gateway);
    LeadsOn(s, [send], sent, answer);
    StepKeepsInv(sent, answer);
    var answered := Next(sent, answer);
    AcceptIsDurable(sent, answer);
    var take := TakeAccept(uid, accept.value, 34);
    assert [send, answer] + [take] == [send, answer, take];
    LeadsOn(s, [send, answer], answered, take);
    StepKeepsInv(answered, take);
    Config.StepIsAtomic(s.nodes[uid].image, Config.StoreProvisional(Node.ConfigFrom(accept.value), 34));
    events, t := [send, answer, take], Next(answered, take);
  }

  lemma AcceptGiven(
    g: Gateway, request: JoinRequest, i: Installation, w: Surroundings, accept: Option<JoinAccept>, after: Gateway)
    requires g.service.registry.count <= MAX_NODES && after.service.registry.count <= MAX_NODES
    requires RequestAnswered(g, 0, request, Some(i), w, accept, after)
    requires Favourable(w) && Admitted(g.service.registry, request)
    requires g.expected == Some(request.deviceUid) && !g.awaitingConfirm
    ensures accept.Some? && after.awaitingConfirm
    ensures
      var a, record := accept.value, Lookup(after.service.registry, accept.value.assignedNodeId);
      && a.deviceUid == request.deviceUid && a.requestNonce == request.requestNonce
      && a.gatewayNodeId == GATEWAY_NODE_ID && a.networkId == i.networkId && a.installationKey == i.key
      && record.Some? && record.value.deviceUid == request.deviceUid && record.value.state == PENDING
      && record.value.requestNonce == request.requestNonce
  {
    hide Lookup, LookupUid;
  }

  /** From any reachable state in which pairing expects a device that is new or pending,
      and the device has no membership: six events make it an active node with the
      network and key of the installation, under a record of the registry that is active
      and has its UID, ID and nonce. */
  lemma HandshakeSucceeds(s: System, request: JoinRequest, i: Installation, w: Surroundings)
    returns (events: seq<Event>, t: System, config: Config.NetworkConfig)
    requires Inv(s) && Favourable(w) && AwaitsJoin(s, request)
    ensures |events| == 6 && Leads(s, events, t) && Joined(t, request.deviceUid, config)
    ensures OfInstallation(i, config) && config.requestNonce == request.requestNonce
  {
    hide Inv, Config.Loaded, Leads, Favourable, Admitted, Joined, Names, OfInstallation, AwaitsJoin;
    var first, m := RequestSucceeds(s, request, i, w);
    config := ConfigOf(m, request.deviceUid);
    var second;
    second, t := ConfirmSucceeds(m, request.deviceUid, w);
    LeadsConcat(s, first, m, second, t);
    events := first + second;
  }
}
