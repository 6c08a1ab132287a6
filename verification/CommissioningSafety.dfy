/** The commissioning handshake as a step system: a radio that loses, duplicates and
    reorders frames, gateway saves that fail, gateway reboots, nodes whose EEPROM
    writes are cut between any two bytes, and network resets. */
module CommissioningSafety {
  import opened Bytes
  import opened Protocol
  import opened Options
  import opened Eeprom
  import opened NodeRegistry
  import opened RegistryCodec
  import opened RegistryService
  import opened CommissioningFrames
  import opened CommissioningGateway
  import opened RegistryMap
  import opened Utf8
  import Slots = DualSlotStore
  import Config = NetworkConfigStore
  import Node = CommissioningNode

  // ---------------------------------------------------------------- the system

  /** `sender` and `receiver` are the radio addresses a frame carries. */
  datatype Frame =
    | RequestFrame(request: JoinRequest)
    | AcceptFrame(accept: JoinAccept)
    | ConfirmFrame(sender: byte, confirm: JoinConfirm)
    | CompleteFrame(receiver: byte, confirm: JoinConfirm)

  datatype Membership = Membership(uid: Uid, nodeId: byte, nonce: uint32)

  /** A node: its EEPROM, the nonce of its open accept window, the nonces it has used. */
  datatype NodeState = NodeState(image: Image, waiting: Option<uint32>, used: set<uint32>)

  type Nodes = map<Uid, NodeState>

  /** `allowed` are the registries a boot may load. `provisioned` and `committed`
      record history: the memberships some node has durably stored as provisional,
      and those the gateway has durably held as active. */
  datatype System = System(
    gateway: Gateway, allowed: set<Registry>, nodes: Nodes, net: set<Frame>,
    provisioned: set<Membership>, committed: set<Membership>)

  datatype Event =
    | OpenPairing(uid: Uid)
    | ClosePairing
    | WindowElapses(now: uint32)
    | GatewayRequest(senderId: byte, request: JoinRequest, installation: Option<Installation>, w: Surroundings)
    | GatewayConfirm(senderId: byte, confirm: JoinConfirm, w: Surroundings)
    | GatewayChange(op: Op, w: Surroundings)
    | GatewayBoot
    | SendRequest(node: Uid, request: JoinRequest)
    | CloseWindow(node: Uid)
    | TakeAccept(node: Uid, accept: JoinAccept, cut: nat)
    | SendConfirm(node: Uid)
    | TakeComplete(node: Uid, receiver: byte, confirm: JoinConfirm, cut: nat)
    | ResetNode(node: Uid, cut: nat)

  predicate AtNode(e: Event) {
    e.SendRequest? || e.CloseWindow? || e.TakeAccept? || e.SendConfirm? || e.TakeComplete? || e.ResetNode?
  }

  predicate Holds(n: NodeState, state: Config.ProvisioningState) {
    Config.Loaded(n.image).Some? && Config.Loaded(n.image).value.state == state
  }

  function MemberOf(uid: Uid, config: Config.NetworkConfig): Membership {
    Membership(uid, config.nodeId, config.requestNonce)
  }

  function MemberNow(uid: Uid, image: Image): set<Membership> {
    if Config.Loaded(image).Some? then {MemberOf(uid, Config.Loaded(image).value)} else {}
  }

  predicate EnabledAtNode(net: set<Frame>, n: NodeState, e: Event)
    requires AtNode(e)
  {
    match e
    case SendRequest(node, request) =>
      && Config.Loaded(n.image).None? && n.waiting.None? && request.deviceUid == node && Decodable(request)
      && request.requestNonce !in n.used
    case TakeAccept(node, accept, _) =>
      && AcceptFrame(accept) in net && DecodableAccept(accept)
      && n.waiting.Some? && Node.Matches(node, n.waiting.value, accept)
    case SendConfirm(_) => Holds(n, Config.Provisional)
    case TakeComplete(node, receiver, confirm, _) =>
      && CompleteFrame(receiver, confirm) in net && Holds(n, Config.Provisional)
      && confirm == JoinConfirm(node, Config.Loaded(n.image).value.requestNonce)
    case _ => true
  }

  predicate Enabled(s: System, e: Event) {
    if AtNode(e) then e.node in s.nodes && EnabledAtNode(s.net, s.nodes[e.node], e)
    else
      match e
      case GatewayRequest(_, request, _, w) =>
        RequestFrame(request) in s.net && Slots.Plausible(Slots.Registry, REGISTRY_CODEC, w.env)
      case GatewayConfirm(senderId, confirm, w) =>
        ConfirmFrame(senderId, confirm) in s.net && Slots.Plausible(Slots.Registry, REGISTRY_CODEC, w.env)
      case GatewayChange(op, w) =>
        && Decoded(op) && !op.DoReserve? && !op.DoConfirm?
        && Slots.Plausible(Slots.Registry, REGISTRY_CODEC, w.env)
      case _ => true
  }

  // ---------------------------------------------------------------- steps

  /** The registry change an event attempts, if any. */
  function Attempted(g: Gateway, e: Event): Option<Op> {
    match e
    case GatewayRequest(senderId, request, _, w) =>
      if w.pairing && senderId == 0 && !g.awaitingConfirm && g.expected == Some(request.deviceUid)
      then Some(DoReserve(request)) else None
    case GatewayConfirm(senderId, confirm, _) => Some(DoConfirm(confirm.deviceUid, senderId, confirm.requestNonce))
    case GatewayChange(op, _) => Some(op)
    case _ => None
  }

  function GatewayAfter(g: Gateway, e: Event): Gateway
    requires g.service.registry.count <= MAX_NODES
  {
    match e
    case OpenPairing(uid) => g.(expected := Some(uid))
    case ClosePairing => g.(expected := None)
    case WindowElapses(now) => TimedOut(g, now)
    case GatewayRequest(senderId, request, installation, w) => RequestArrived(g, senderId, request, installation, w).1
    case GatewayConfirm(senderId, confirm, w) => ConfirmArrived(g, senderId, confirm, w).1
    case GatewayChange(op, w) => g.(service := ChangeAndSave(g.service, op, w.open, w.env).1)
    case GatewayBoot => Gateway(Booted(g.service.store.flash), None, false, 0)
    case _ => g
  }

  function GatewayFrames(g: Gateway, e: Event): set<Frame>
    requires g.service.registry.count <= MAX_NODES
  {
    match e
    case GatewayRequest(senderId, request, installation, w) =>
      var accept := RequestArrived(g, senderId, request, installation, w).0;
      if accept.Some? then {AcceptFrame(accept.value)} else {}
    case GatewayConfirm(senderId, confirm, w) =>
      var complete := ConfirmArrived(g, senderId, confirm, w).0;
      if complete.Some? then {CompleteFrame(senderId, complete.value)} else {}
    case _ => {}
  }

  /** Whether the gateway's registry in memory becomes what a boot would load. */
  predicate Settles(g: Gateway, e: Event)
    requires g.service.registry.count <= MAX_NODES
  {
    e.GatewayBoot? ||
    (Attempted(g, e).Some? && ChangeAndSave(g.service, Attempted(g, e).value, WOf(e).open, WOf(e).env).0 == Ok)
  }

  function WOf(e: Event): Surroundings {
    match e
    case GatewayRequest(_, _, _, w) => w
    case GatewayConfirm(_, _, w) => w
    case GatewayChange(_, w) => w
    case _ => Surroundings(false, false, Slots.Env(Slots.Kept, false, false), false, false, 0)
  }

  function AllowedNext(s: System, e: Event): set<Registry>
    requires s.gateway.service.registry.count <= MAX_NODES
  {
    if e.GatewayBoot? then {Booted(s.gateway.service.store.flash).registry}
    else if Attempted(s.gateway, e).None? then s.allowed
    else AllowedAfter(s.gateway.service, Attempted(s.gateway, e).value, WOf(e).open, WOf(e).env, s.allowed)
  }

  function Actives(r: Registry): set<Membership>
    requires r.count <= MAX_NODES
  {
    set i | 0 <= i < r.count && r.cells[i].state == ACTIVE ::
      Membership(r.cells[i].deviceUid, r.cells[i].nodeId, r.cells[i].requestNonce)
  }

  function NodeAfter(n: NodeState, e: Event): NodeState
    requires AtNode(e)
  {
    match e
    case SendRequest(_, request) => n.(waiting := Some(request.requestNonce), used := n.used + {request.requestNonce})
    case CloseWindow(_) => n.(waiting := None)
    case TakeAccept(_, accept, cut) =>
      NodeState(Config.Step(n.image, Config.StoreProvisional(Node.ConfigFrom(accept), cut)), None, n.used)
    case SendConfirm(_) => n
    case TakeComplete(_, _, _, cut) => NodeState(Config.Step(n.image, Config.StoreActive(cut)), None, n.used)
    case ResetNode(_, cut) => NodeState(Config.Step(n.image, Config.ResetNetwork(cut)), None, n.used)
  }

  function NodeFrames(n: NodeState, e: Event): set<Frame>
    requires AtNode(e)
  {
    match e
    case SendRequest(_, request) => {RequestFrame(request)}
    case SendConfirm(node) =>
      if Config.Loaded(n.image).None? then {}
      else
        var config := Config.Loaded(n.image).value;
        {ConfirmFrame(config.nodeId, JoinConfirm(node, config.requestNonce))}
    case _ => {}
  }

  function Next(s: System, e: Event): System
    requires s.gateway.service.registry.count <= MAX_NODES
  {
    if AtNode(e) then
      if e.node !in s.nodes then s
      else
        var n := s.nodes[e.node];
        var after := NodeAfter(n, e);
        s.(nodes := s.nodes[e.node := after], net := s.net + NodeFrames(n, e),
           provisioned := s.provisioned + if e.TakeAccept? then MemberNow(e.node, after.image) else {})
    else
      var gateway := GatewayAfter(s.gateway, e);
      s.(gateway := gateway, allowed := AllowedNext(s, e), net := s.net + GatewayFrames(s.gateway, e),
         committed := s.committed +
           if Settles(s.gateway, e) && gateway.service.registry.count <= MAX_NODES
           then Actives(gateway.service.registry) else {})
  }

  // ---------------------------------------------------------------- the invariant

  /** A nonce is stored under one node ID only. */
  predicate OneId(provisioned: set<Membership>) {
    forall x, y :: x in provisioned && y in provisioned && x.uid == y.uid && x.nonce == y.nonce ==> x.nodeId == y.nodeId
  }

  predicate NoncesUsed(uid: Uid, n: NodeState, provisioned: set<Membership>) {
    && (n.waiting.Some? ==> n.waiting.value in n.used)
    && forall x :: x in provisioned && x.uid == uid ==> x.nonce in n.used && n.waiting != Some(x.nonce)
  }

  predicate ConfigOk(uid: Uid, image: Image, provisioned: set<Membership>, committed: set<Membership>) {
    var config := Config.Loaded(image);
    && (config.Some? ==> MemberOf(uid, config.value) in provisioned)
    && (config.Some? && config.value.state.Active? ==> MemberOf(uid, config.value) in committed)
  }

  predicate NodeOk(uid: Uid, n: NodeState, provisioned: set<Membership>, committed: set<Membership>) {
    Config.Disciplined(n.image) && NoncesUsed(uid, n, provisioned) && ConfigOk(uid, n.image, provisioned, committed)
  }

  predicate NodesOk(nodes: Nodes, provisioned: set<Membership>, committed: set<Membership>) {
    && (forall uid :: uid in nodes ==> NodeOk(uid, nodes[uid], provisioned, committed))
    && (forall x :: x in provisioned ==> x.uid in nodes)
  }

  predicate FrameOk(f: Frame, provisioned: set<Membership>, committed: set<Membership>) {
    match f
    case RequestFrame(request) => Decodable(request)
    case AcceptFrame(_) => true
    case ConfirmFrame(sender, c) => Membership(c.deviceUid, sender, c.requestNonce) in provisioned
    case CompleteFrame(receiver, c) =>
      && Membership(c.deviceUid, receiver, c.requestNonce) in provisioned
      && Membership(c.deviceUid, receiver, c.requestNonce) in committed
  }

  predicate NetOk(net: set<Frame>, provisioned: set<Membership>, committed: set<Membership>) {
    forall f :: f in net ==> FrameOk(f, provisioned, committed)
  }

  /** Only memberships some node has stored are ever active in a registry. */
  predicate RegistryOk(r: Registry, provisioned: set<Membership>) {
    Good(true, r) && r.count <= MAX_NODES && Actives(r) <= provisioned
  }

  ghost predicate GatewayOk(service: Service, allowed: set<Registry>, provisioned: set<Membership>, committed: set<Membership>) {
    && Slots.Matches(REGISTRY_CODEC, service.store, allowed) && Synchronised(service) && service.registry in allowed
    && (forall r :: r in allowed ==> RegistryOk(r, provisioned))
    && service.registry.count <= MAX_NODES && Actives(service.registry) <= committed
  }

  ghost predicate Inv(s: System) {
    && GatewayOk(s.gateway.service, s.allowed, s.provisioned, s.committed)
    && NodesOk(s.nodes, s.provisioned, s.committed)
    && NetOk(s.net, s.provisioned, s.committed)
    && OneId(s.provisioned)
  }

  // ---------------------------------------------------------------- registry facts

  /** Only a confirmation adds an active membership, and only its own. */
  lemma ActivesAfter(r: Registry, op: Op)
    requires Good(true, r) && r.count <= MAX_NODES
    ensures Actives(Perform(r, op)) <=
            Actives(r) + if op.DoConfirm? then {Membership(op.uid, op.nodeId, op.nonce)} else {}
  {
    hide Good, IdIndexFrom, UidIndexFrom, FreeIdFrom;
    var after := Perform(r, op);
    if op.DoRemove? {
      RemovedActives(r, op.nodeId);
    } else {
      forall i | 0 <= i < after.count && after.cells[i].state == ACTIVE
        ensures
          var m := Membership(after.cells[i].deviceUid, after.cells[i].nodeId, after.cells[i].requestNonce);
          m in Actives(r) || (op.DoConfirm? && m == Membership(op.uid, op.nodeId, op.nonce))
      {
        var c := r.cells[i];
        if i < r.count && c.state == ACTIVE {
          assert Membership(c.deviceUid, c.nodeId, c.requestNonce) in Actives(r);
        }
      }
    }
  }

  lemma RemovedActives(r: Registry, nodeId: byte)
    requires Good(true, r) && r.count <= MAX_NODES
    ensures Actives(Remove(r, nodeId).1) <= Actives(r)
  {
    hide Good, GoodRecord, IdIndexFrom;
    var (removed, after) := Remove(r, nodeId);
    if removed {
      RemovedCells(true, r, nodeId);
      hide Remove;
      var index := ById(Live(r), nodeId);
      forall i | 0 <= i < after.count && after.cells[i].state == ACTIVE
        ensures Membership(after.cells[i].deviceUid, after.cells[i].nodeId, after.cells[i].requestNonce) in Actives(r)
      {
        var k := if i == index then r.count - 1 else i;
        assert after.cells[i] == r.cells[k];
        assert Membership(r.cells[k].deviceUid, r.cells[k].nodeId, r.cells[k].requestNonce) in Actives(r);
      }
    }
  }

  /** A confirmation that is answered finds or makes the membership active. */
  lemma ConfirmedIsActive(r: Registry, uid: Uid, nodeId: byte, nonce: uint32)
    requires Good(true, r) && r.count <= MAX_NODES
    ensures
      var (status, after) := Confirm(r, uid, nodeId, nonce);
      status == Confirmed || status == AlreadyActive ==> Membership(uid, nodeId, nonce) in Actives(after)
  {
    ConfirmGood(true, r, uid, nodeId, nonce);
    hide Good, IdIndexFrom;
    var (status, after) := Confirm(r, uid, nodeId, nonce);
    if status == Confirmed || status == AlreadyActive {
      var i := ById(Live(after), nodeId);
      var c := after.cells[i];
      assert Live(after)[i] == c;
      assert c.state == ACTIVE && c.deviceUid == uid && c.nodeId == nodeId && c.requestNonce == nonce;
    }
  }

  // ---------------------------------------------------------------- gateway steps

  /** One attempted change keeps every loadable registry in order. */
  lemma ChangeOk(
    service: Service, op: Op, w: Surroundings, allowed: set<Registry>,
    provisioned: set<Membership>, committed: set<Membership>)
    requires GatewayOk(service, allowed, provisioned, committed)
    requires Decoded(op) && Slots.Plausible(Slots.Registry, REGISTRY_CODEC, w.env)
    requires op.DoConfirm? ==> Membership(op.uid, op.nodeId, op.nonce) in provisioned
    ensures
      var (status, after) := ChangeAndSave(service, op, w.open, w.env);
      && after.registry.count <= MAX_NODES
      && GatewayOk(
           after, AllowedAfter(service, op, w.open, w.env, allowed), provisioned,
           committed + if status == Ok then Actives(after.registry) else {})
  {
    hide Good, Perform, Slots.Matches, Slots.Plausible, Changes, Commit, Decoded, Actives;
    var r := service.registry;
    assert RegistryOk(r, provisioned);
    ChangeKeeps(true, service, op, w.open, w.env, allowed);
    PerformGood(true, r, op);
    ActivesAfter(r, op);
    assert RegistryOk(Perform(r, op), provisioned);
    LoadedAllowed(service.store, allowed);
  }

  lemma LoadedAllowed(store: Slots.State<Registry>, allowed: set<Registry>)
    requires Slots.Matches(REGISTRY_CODEC, store, allowed)
    ensures store.ram.current in allowed && Slots.LoadedValue(REGISTRY_CODEC, store.flash) in allowed
  {
  }

  lemma BootOk(service: Service, allowed: set<Registry>, provisioned: set<Membership>, committed: set<Membership>)
    requires GatewayOk(service, allowed, provisioned, committed)
    ensures
      var after := Booted(service.store.flash);
      && after.registry.count <= MAX_NODES
      && GatewayOk(after, {after.registry}, provisioned, committed + Actives(after.registry))
  {
    hide Good, Slots.Matches, Actives, Slots.LoadedSlot;
    LoadedAllowed(service.store, allowed);
    var after := Booted(service.store.flash);
    assert RegistryOk(after.registry, provisioned);
    Slots.BootMatches(REGISTRY_CODEC, service.store.flash);
    BootedRam(service.store.flash);
  }

  lemma BootedRam(flash: Slots.Flash)
    ensures Synchronised(Booted(flash))
  {
  }

  /** The registry service after a gateway event is the one its attempted change leaves. */
  lemma ServiceAfter(g: Gateway, e: Event)
    requires g.service.registry.count <= MAX_NODES && !AtNode(e)
    ensures
      GatewayAfter(g, e).service ==
        if e.GatewayBoot? then Booted(g.service.store.flash)
        else if Attempted(g, e).None? then g.service
        else ChangeAndSave(g.service, Attempted(g, e).value, WOf(e).open, WOf(e).env).1
  {
    hide ChangeAndSave, Reserve, Confirm, Booted;
  }

  lemma GatewayStep(s: System, e: Event)
    requires Inv(s) && Enabled(s, e) && !AtNode(e)
    ensures s.gateway.service.registry.count <= MAX_NODES
    ensures
      var s' := Next(s, e);
      GatewayOk(s'.gateway.service, s'.allowed, s'.provisioned, s'.committed)
  {
    hide ChangeAndSave, GatewayOk, NodesOk, OneId, Booted, Actives, GatewayAfter, GatewayFrames, AllowedAfter,
         Slots.Plausible;
    CountOk(s.gateway.service, s.allowed, s.provisioned, s.committed);
    var g := s.gateway;
    ServiceAfter(g, e);
    if e.GatewayBoot? {
      BootOk(g.service, s.allowed, s.provisioned, s.committed);
    } else if Attempted(g, e).Some? {
      ChangeOk(g.service, Attempted(g, e).value, WOf(e), s.allowed, s.provisioned, s.committed);
    } else {
      assert Next(s, e).committed == s.committed;
    }
  }

  lemma CountOk(service: Service, allowed: set<Registry>, provisioned: set<Membership>, committed: set<Membership>)
    requires GatewayOk(service, allowed, provisioned, committed)
    ensures service.registry.count <= MAX_NODES && Good(true, service.registry)
    ensures Actives(service.registry) <= provisioned && Actives(service.registry) <= committed
  {
    hide Good, Slots.Matches, Actives;
    assert RegistryOk(service.registry, provisioned);
  }

  /** What the gateway sends is true: a complete names a membership that is durably
      active, and that its node has stored. */
  lemma GatewayFramesOk(s: System, e: Event)
    requires Inv(s) && Enabled(s, e) && !AtNode(e)
    ensures s.gateway.service.registry.count <= MAX_NODES
    ensures
      var s' := Next(s, e);
      NetOk(s'.net, s'.provisioned, s'.committed)
  {
    hide ChangeAndSave, GatewayOk, NodesOk, OneId, Booted, Actives, GatewayAfter, AllowedAfter, Slots.Plausible,
         Reserve, Confirm, Good;
    CountOk(s.gateway.service, s.allowed, s.provisioned, s.committed);
    var s' := Next(s, e);
    assert s.committed <= s'.committed;
    forall f | f in s'.net
      ensures FrameOk(f, s'.provisioned, s'.committed)
    {
      if f in s.net {
        assert FrameOk(f, s.provisioned, s.committed);
      } else if e.GatewayConfirm? {
        CompleteOk(s, e);
      }
    }
  }

  lemma CompleteOk(s: System, e: Event)
    requires Inv(s) && Enabled(s, e) && e.GatewayConfirm?
    requires s.gateway.service.registry.count <= MAX_NODES
    requires ConfirmArrived(s.gateway, e.senderId, e.confirm, e.w).0.Some?
    ensures
      var m := Membership(e.confirm.deviceUid, e.senderId, e.confirm.requestNonce);
      m in s.provisioned && m in Next(s, e).committed
  {
    hide GatewayOk, NodesOk, OneId, Booted, Actives, AllowedAfter, Slots.Plausible, Good, Confirm, Commit;
    CountOk(s.gateway.service, s.allowed, s.provisioned, s.committed);
    assert FrameOk(ConfirmFrame(e.senderId, e.confirm), s.provisioned, s.committed);
    var r := s.gateway.service.registry;
    ConfirmedIsActive(r, e.confirm.deviceUid, e.senderId, e.confirm.requestNonce);
    ConfirmGood(true, r, e.confirm.deviceUid, e.senderId, e.confirm.requestNonce);
    ServiceAfter(s.gateway, e);
    var op := DoConfirm(e.confirm.deviceUid, e.senderId, e.confirm.requestNonce);
    if ChangeAndSave(s.gateway.service, op, e.w.open, e.w.env).0 == Ok {
      OkIsPerformed(s.gateway.service, op, e.w.open, e.w.env);
    }
  }

  lemma OkIsPerformed(s: Service, op: Op, open: bool, env: Slots.Env)
    requires s.registry.count <= MAX_NODES && ChangeAndSave(s, op, open, env).0 == Ok
    ensures ChangeAndSave(s, op, open, env).1.registry == Perform(s.registry, op)
  {
  }

  // ---------------------------------------------------------------- node steps

  /** The membership an accept window stores carries a nonce nobody stored before. */
  lemma TakeAcceptNode(n: NodeState, e: Event, net: set<Frame>, provisioned: set<Membership>, committed: set<Membership>)
    requires e.TakeAccept? && EnabledAtNode(net, n, e) && NodeOk(e.node, n, provisioned, committed)
    ensures
      var after := NodeAfter(n, e);
      && Config.Disciplined(after.image)
      && (MemberNow(e.node, after.image) <= provisioned ||
          MemberNow(e.node, after.image) == {Membership(e.node, e.accept.assignedNodeId, n.waiting.value)})
      && (Holds(after, Config.Active) ==> ConfigOk(e.node, after.image, provisioned, committed))
  {
    hide Config.Loaded, Config.Step, Config.Disciplined;
    Config.StepIsAtomic(n.image, Config.StoreProvisional(Node.ConfigFrom(e.accept), e.cut));
  }

  lemma TakeAcceptOk(s: System, e: Event)
    requires Inv(s) && Enabled(s, e) && e.TakeAccept? && s.gateway.service.registry.count <= MAX_NODES
    ensures
      var s' := Next(s, e);
      && NodeOk(e.node, s'.nodes[e.node], s'.provisioned, s'.committed) && OneId(s'.provisioned)
      && (forall x :: x in s'.provisioned - s.provisioned ==> x.uid == e.node)
  {
    hide GatewayOk, NetOk, Config.Loaded, Config.Step, Config.Disciplined;
    var n := s.nodes[e.node];
    assert NodeOk(e.node, n, s.provisioned, s.committed);
    TakeAcceptNode(n, e, s.net, s.provisioned, s.committed);
  }

  lemma OtherEventNode(n: NodeState, e: Event, net: set<Frame>, provisioned: set<Membership>, committed: set<Membership>)
    requires AtNode(e) && !e.TakeAccept? && EnabledAtNode(net, n, e) && NodeOk(e.node, n, provisioned, committed)
    requires NetOk(net, provisioned, committed) && OneId(provisioned)
    ensures NodeOk(e.node, NodeAfter(n, e), provisioned, committed)
  {
    hide Config.Loaded, Config.Step, Config.Disciplined;
    match e {
      case TakeComplete(node, receiver, confirm, cut) =>
        Config.StepIsAtomic(n.image, Config.StoreActive(cut));
        assert FrameOk(CompleteFrame(receiver, confirm), provisioned, committed);
        assert MemberOf(node, Config.Loaded(n.image).value) == Membership(node, receiver, confirm.requestNonce);
      case ResetNode(_, cut) => Config.StepIsAtomic(n.image, Config.ResetNetwork(cut));
      case _ =>
    }
  }

  lemma NodeFramesOk(s: System, e: Event)
    requires Inv(s) && Enabled(s, e) && AtNode(e) && s.gateway.service.registry.count <= MAX_NODES
    ensures NetOk(Next(s, e).net, Next(s, e).provisioned, Next(s, e).committed)
  {
    hide GatewayOk, OneId, Config.Loaded, Config.Step, Config.Disciplined;
    var n := s.nodes[e.node];
    assert NodeOk(e.node, n, s.provisioned, s.committed);
    var s' := Next(s, e);
    forall f | f in s'.net
      ensures FrameOk(f, s'.provisioned, s'.committed)
    {
      if f in s.net {
        assert FrameOk(f, s.provisioned, s.committed);
      }
    }
  }

  lemma NodeStep(s: System, e: Event)
    requires Inv(s) && Enabled(s, e) && AtNode(e) && s.gateway.service.registry.count <= MAX_NODES
    ensures Inv(Next(s, e))
  {
    hide GatewayOk, Config.Loaded, Config.Disciplined, Config.Step, NoncesUsed, ConfigOk;
    NodeFramesOk(s, e);
    var s' := Next(s, e);
    var n := s.nodes[e.node];
    assert NodeOk(e.node, n, s.provisioned, s.committed);
    if e.TakeAccept? {
      TakeAcceptOk(s, e);
    } else {
      OtherEventNode(n, e, s.net, s.provisioned, s.committed);
      assert s'.provisioned == s.provisioned;
    }
    hide EnabledAtNode, NodeAfter, NodeFrames, NetOk, OneId, MemberNow;
    MoreProvisioned(s.gateway.service, s.allowed, s.provisioned, s'.provisioned, s.committed);
    forall uid | uid in s'.nodes
      ensures NodeOk(uid, s'.nodes[uid], s'.provisioned, s'.committed)
    {
      if uid != e.node {
        assert NodeOk(uid, s.nodes[uid], s.provisioned, s.committed);
        OthersOk(uid, s.nodes[uid], s.provisioned, s'.provisioned, s.committed);
      }
    }
  }

  lemma OthersOk(
    uid: Uid, n: NodeState, provisioned: set<Membership>, more: set<Membership>, committed: set<Membership>)
    requires NodeOk(uid, n, provisioned, committed) && provisioned <= more
    requires forall x :: x in more - provisioned ==> x.uid != uid
    ensures NodeOk(uid, n, more, committed)
  {
    hide Config.Loaded, Config.Disciplined;
    forall x | x in more && x.uid == uid
      ensures x in provisioned
    {
      assert x !in more - provisioned;
    }
  }

  lemma MoreProvisioned(
    service: Service, allowed: set<Registry>, provisioned: set<Membership>, more: set<Membership>,
    committed: set<Membership>)
    requires GatewayOk(service, allowed, provisioned, committed) && provisioned <= more
    ensures GatewayOk(service, allowed, more, committed)
  {
    hide Good, Slots.Matches, Actives;
    forall r | r in allowed
      ensures RegistryOk(r, more)
    {
      assert RegistryOk(r, provisioned);
    }
  }

  lemma MoreCommitted(nodes: Nodes, provisioned: set<Membership>, committed: set<Membership>, more: set<Membership>)
    requires NodesOk(nodes, provisioned, committed) && committed <= more
    ensures NodesOk(nodes, provisioned, more)
  {
    hide Config.Loaded, Config.Disciplined, NoncesUsed;
    forall uid | uid in nodes
      ensures NodeOk(uid, nodes[uid], provisioned, more)
    {
      assert NodeOk(uid, nodes[uid], provisioned, committed);
    }
  }

  // ---------------------------------------------------------------- all runs

  lemma StepKeepsInv(s: System, e: Event)
    requires Inv(s) && Enabled(s, e)
    ensures s.gateway.service.registry.count <= MAX_NODES && Inv(Next(s, e))
  {
    hide GatewayOk, NodesOk, NetOk, OneId, Enabled, GatewayAfter, GatewayFrames, AllowedNext, Settles, Actives;
    CountOk(s.gateway.service, s.allowed, s.provisioned, s.committed);
    if AtNode(e) {
      NodeStep(s, e);
    } else {
      GatewayStep(s, e);
      GatewayFramesOk(s, e);
      MoreCommitted(s.nodes, s.provisioned, s.committed, Next(s, e).committed);
    }
  }

  /** A run from a first start: no registry in flash, and nodes that hold no membership. */
  predicate Initial(s: System) {
    && s.gateway == Gateway(Booted([None, None]), None, false, 0)
    && s.allowed == {NOTHING} && s.net == {} && s.provisioned == {} && s.committed == {}
    && forall uid :: uid in s.nodes ==>
         && Config.SlotValue(s.nodes[uid].image, 0).None? && Config.SlotValue(s.nodes[uid].image, 1).None?
         && s.nodes[uid].waiting.None?
  }

  lemma InitialInv(s: System)
    requires Initial(s)
    ensures Inv(s)
  {
    hide Config.Decode;
    NothingGood(true);
    Slots.BootMatches(REGISTRY_CODEC, [None, None]);
    assert Actives(NOTHING) == {};
    forall uid | uid in s.nodes
      ensures NodeOk(uid, s.nodes[uid], {}, {})
    {
    }
  }

  /** A run of enabled events, and where it leads. */
  ghost predicate Leads(s: System, events: seq<Event>, t: System)
    decreases |events|
  {
    if events == [] then t == s
    else exists before: System ::
           && Leads(s, events[..|events| - 1], before) && Enabled(before, events[|events| - 1])
           && before.gateway.service.registry.count <= MAX_NODES && t == Next(before, events[|events| - 1])
  }

  lemma {:induction false} RunKeepsInv(s: System, events: seq<Event>, t: System)
    requires Initial(s) && Leads(s, events, t)
    ensures Inv(t)
    decreases |events|
  {
    hide Initial, Inv, Enabled, Next;
    if events == [] {
      InitialInv(s);
    } else {
      var before: System :|
        && Leads(s, events[..|events| - 1], before) && Enabled(before, events[|events| - 1])
        && before.gateway.service.registry.count <= MAX_NODES && t == Next(before, events[|events| - 1]);
      RunKeepsInv(s, events[..|events| - 1], before);
      StepKeepsInv(before, events[|events| - 1]);
    }
  }

  // ---------------------------------------------------------------- the theorems

  /** The history sets mean what they say: a membership enters `provisioned` when its
      own node's EEPROM holds it as provisional, and `committed` when the gateway's
      flash loads a registry in which it is active. */
  lemma HistoryIsHonest(s: System, e: Event)
    requires Inv(s) && Enabled(s, e) && s.gateway.service.registry.count <= MAX_NODES
    ensures
      var s' := Next(s, e);
      && s.provisioned <= s'.provisioned && s.committed <= s'.committed
      && (forall x :: x in s'.provisioned - s.provisioned ==>
            x.uid in s'.nodes && Holds(s'.nodes[x.uid], Config.Provisional) &&
            MemberOf(x.uid, Config.Loaded(s'.nodes[x.uid].image).value) == x)
      && (forall x :: x in s'.committed - s.committed ==>
            && s'.gateway.service.registry.count <= MAX_NODES && x in Actives(s'.gateway.service.registry)
            && Booted(s'.gateway.service.store.flash).registry == s'.gateway.service.registry)
  {
    hide GatewayOk, NetOk, OneId, Config.Loaded, Config.Step, Config.Disciplined, Actives, NoncesUsed, Booted;
    if AtNode(e) {
      if e.TakeAccept? {
        var n := s.nodes[e.node];
        assert NodeOk(e.node, n, s.provisioned, s.committed);
        Config.StepIsAtomic(n.image, Config.StoreProvisional(Node.ConfigFrom(e.accept), e.cut));
      }
    } else {
      SettledIsLoaded(s, e);
    }
  }

  lemma SettledIsLoaded(s: System, e: Event)
    requires Inv(s) && Enabled(s, e) && !AtNode(e) && s.gateway.service.registry.count <= MAX_NODES
    ensures
      var after := GatewayAfter(s.gateway, e).service;
      Settles(s.gateway, e) ==> Booted(after.store.flash).registry == after.registry
  {
    hide NodesOk, NetOk, OneId, ChangeAndSave, Booted, Actives, GatewayAfter, AllowedAfter, Slots.Plausible, Slots.Matches,
         RegistryOk;
    ServiceAfter(s.gateway, e);
    var op := Attempted(s.gateway, e);
    CountOk(s.gateway.service, s.allowed, s.provisioned, s.committed);
    if e.GatewayBoot? {
      BootedTwice(s.gateway.service.store.flash);
    } else if op.Some? {
      if e.GatewayRequest? {
        assert FrameOk(RequestFrame(e.request), s.provisioned, s.committed) by { FrameIn(s, RequestFrame(e.request)); }
      }
      ChangeKeeps(true, s.gateway.service, op.value, WOf(e).open, WOf(e).env, s.allowed);
    }
  }

  lemma FrameIn(s: System, f: Frame)
    requires Inv(s) && f in s.net
    ensures FrameOk(f, s.provisioned, s.committed)
  {
    hide GatewayOk, NodesOk, OneId;
  }

  lemma BootedTwice(flash: Slots.Flash)
    ensures Booted(Booted(flash).store.flash) == Booted(flash)
  {
  }

  /** An accept is sent only for a pending record that is already durable, and carries
      its ID and nonce. */
  lemma AcceptIsDurable(s: System, e: Event)
    requires Inv(s) && Enabled(s, e) && e.GatewayRequest? && s.gateway.service.registry.count <= MAX_NODES
    requires RequestArrived(s.gateway, e.senderId, e.request, e.installation, e.w).0.Some?
    ensures
      var (reply, after) := RequestArrived(s.gateway, e.senderId, e.request, e.installation, e.w);
      var accept := reply.value;
      var booted := Booted(after.service.store.flash).registry;
      && e.installation.Some? && s.gateway.expected == Some(e.request.deviceUid) && e.w.pairing
      && accept == JoinAccept(
           e.request.deviceUid, e.request.requestNonce, accept.assignedNodeId, GATEWAY_NODE_ID,
           e.installation.value.networkId, e.installation.value.key)
      && DecodableAccept(accept)
      && booted.count <= MAX_NODES && Lookup(booted, accept.assignedNodeId).Some?
      && var record := Lookup(booted, accept.assignedNodeId).value;
         record.deviceUid == e.request.deviceUid && record.requestNonce == e.request.requestNonce &&
         record.state == PENDING
  {
    hide NodesOk, NetOk, OneId, Slots.Matches, Slots.Plausible, Good, Reserve, ChangeAndSave, Booted, Lookup, LookupUid, Actives;
    FrameIn(s, RequestFrame(e.request));
    CountOk(s.gateway.service, s.allowed, s.provisioned, s.committed);
    var r := s.gateway.service.registry;
    CountFits(true, r);
    ChangeKeeps(true, s.gateway.service, DoReserve(e.request), e.w.open, e.w.env, s.allowed);
    var (status, nodeId, candidate) := Reserve(r, e.request);
    AskedIsSaved(s.gateway.service, DoReserve(e.request), e.w.open, e.w.env);
    if LookupUid(r, e.request.deviceUid).Some? {
      ReserveKnown(r, e.request, nodeId);
      LookupsAgree(r, e.request.deviceUid);
    } else {
      ReserveNew(r, e.request, nodeId);
    }
    PerformGood(false, r, DoReserve(e.request));
    IdsInRange(candidate, nodeId);
  }

  lemma AskedIsSaved(s: Service, op: Op, open: bool, env: Slots.Env)
    requires s.registry.count <= MAX_NODES && Changes(s.registry, op)
    ensures ChangeAndSave(s, op, open, env).0 != CommitStatus.NoChange
  {
  }

  lemma IdsInRange(r: Registry, nodeId: byte)
    requires Good(false, r)
    ensures r.count <= MAX_NODES && (Lookup(r, nodeId).Some? ==> FIRST_NODE_ID <= nodeId <= LAST_NODE_ID)
  {
    hide ValidDisplayName, IdIndexFrom, Unique;
    var index := ById(Live(r), nodeId);
    if index >= 0 {
      assert GoodRecord(false, r.cells[index]);
    }
  }

  /** The gateway activates a record only after that very device stored a provisional
      configuration with the same node ID and nonce, whichever registry a boot loads. */
  lemma ActiveOnlyIfProvisioned(s: System, events: seq<Event>, t: System, r: Registry, i: nat)
    requires Initial(s) && Leads(s, events, t)
    requires r in t.allowed + {t.gateway.service.registry} && i < r.count <= MAX_NODES && r.cells[i].state == ACTIVE
    ensures Membership(r.cells[i].deviceUid, r.cells[i].nodeId, r.cells[i].requestNonce) in t.provisioned
  {
    RunKeepsInv(s, events, t);
    hide Initial, Leads, Slots.Matches, NodesOk, NetOk, OneId, Good;
    assert RegistryOk(r, t.provisioned);
    assert Membership(r.cells[i].deviceUid, r.cells[i].nodeId, r.cells[i].requestNonce) in Actives(r);
  }

  /** A node is active only after the gateway durably held its record as active, with
      its device UID, node ID and nonce. */
  lemma NodeActiveOnlyIfCommitted(s: System, events: seq<Event>, t: System, uid: Uid)
    requires Initial(s) && Leads(s, events, t)
    requires uid in t.nodes && Holds(t.nodes[uid], Config.Active)
    ensures MemberOf(uid, Config.Loaded(t.nodes[uid].image).value) in t.committed
  {
    RunKeepsInv(s, events, t);
    hide Initial, Leads, Config.Loaded, NetOk, OneId, GatewayOk;
    assert NodeOk(uid, t.nodes[uid], t.provisioned, t.committed);
  }

  // ---------------------------------------------------------------- the installation of a node

  predicate OfInstallation(i: Installation, config: Config.NetworkConfig) {
    config.networkId == i.networkId && config.installationKey == i.key && config.gatewayId == GATEWAY_NODE_ID
  }

  /** Requests are answered for this installation, or while it has no key. */
  predicate Serves(i: Installation, e: Event) {
    e.GatewayRequest? && e.installation.Some? ==> e.installation.value == i
  }

  predicate AcceptsOf(i: Installation, net: set<Frame>) {
    forall f :: f in net && f.AcceptFrame? ==> f.accept.networkId == i.networkId && f.accept.installationKey == i.key
  }

  predicate NodesOf(i: Installation, nodes: Nodes) {
    forall uid :: uid in nodes && Config.Loaded(nodes[uid].image).Some? ==>
      OfInstallation(i, Config.Loaded(nodes[uid].image).value)
  }

  lemma StepServes(i: Installation, s: System, e: Event)
    requires Inv(s) && Enabled(s, e) && Serves(i, e) && AcceptsOf(i, s.net) && NodesOf(i, s.nodes)
    ensures s.gateway.service.registry.count <= MAX_NODES
    ensures AcceptsOf(i, Next(s, e).net) && NodesOf(i, Next(s, e).nodes)
  {
    CountOk(s.gateway.service, s.allowed, s.provisioned, s.committed);
    if AtNode(e) {
      NodeServes(i, s, e);
    } else {
      GatewayServes(i, s, e);
    }
  }

  lemma GatewayServes(i: Installation, s: System, e: Event)
    requires Inv(s) && Enabled(s, e) && !AtNode(e) && Serves(i, e) && AcceptsOf(i, s.net)
    requires s.gateway.service.registry.count <= MAX_NODES
    ensures AcceptsOf(i, Next(s, e).net)
  {
    hide NodesOk, OneId, Slots.Matches, Slots.Plausible, RequestArrived, ConfirmArrived, ChangeAndSave, AllowedNext, Settles,
         Good, GatewayAfter, RequestAnswered;
    if e.GatewayRequest? {
      FrameIn(s, RequestFrame(e.request));
      CountFits(true, s.gateway.service.registry);
      RequestMeaning(s.gateway, e.senderId, e.request, e.installation, e.w);
      AnsweredFields(s.gateway, e);
    }
  }

  lemma AnsweredFields(g: Gateway, e: Event)
    requires e.GatewayRequest? && g.service.registry.count <= MAX_NODES
    requires
      var (accept, after) := RequestArrived(g, e.senderId, e.request, e.installation, e.w);
      after.service.registry.count <= MAX_NODES &&
      RequestAnswered(g, e.senderId, e.request, e.installation, e.w, accept, after)
    ensures
      var accept := RequestArrived(g, e.senderId, e.request, e.installation, e.w).0;
      accept.Some? ==>
        e.installation.Some? && accept.value.networkId == e.installation.value.networkId &&
        accept.value.installationKey == e.installation.value.key
  {
    hide RequestArrived, Lookup, LookupUid;
  }

  lemma NodeServes(i: Installation, s: System, e: Event)
    requires Inv(s) && Enabled(s, e) && AtNode(e) && AcceptsOf(i, s.net) && NodesOf(i, s.nodes)
    requires s.gateway.service.registry.count <= MAX_NODES
    ensures AcceptsOf(i, Next(s, e).net) && NodesOf(i, Next(s, e).nodes)
  {
    hide GatewayOk, NetOk, OneId, Config.Loaded, Config.Step, Config.Disciplined, NoncesUsed, ConfigOk;
    var n := s.nodes[e.node];
    assert NodeOk(e.node, n, s.provisioned, s.committed);
    match e {
      case TakeAccept(_, accept, cut) =>
        Config.StepIsAtomic(n.image, Config.StoreProvisional(Node.ConfigFrom(accept), cut));
        assert AcceptFrame(accept) in s.net;
      case TakeComplete(_, _, _, cut) => Config.StepIsAtomic(n.image, Config.StoreActive(cut));
      case ResetNode(_, cut) => Config.StepIsAtomic(n.image, Config.ResetNetwork(cut));
      case _ =>
    }
  }

  /** Over every run of a gateway of one installation: every membership a node holds,
      active or not, has the network and the key of that installation. */
  lemma {:induction false} NodesHaveInstallation(s: System, events: seq<Event>, t: System, i: Installation)
    requires Initial(s) && Leads(s, events, t) && forall e :: e in events ==> Serves(i, e)
    ensures AcceptsOf(i, t.net) && NodesOf(i, t.nodes)
    decreases |events|
  {
    if events == [] {
      hide Config.Decode;
    } else {
      hide Initial, Inv, Enabled, Next, Serves, AcceptsOf, NodesOf;
      var before: System :|
        && Leads(s, events[..|events| - 1], before) && Enabled(before, events[|events| - 1])
        && before.gateway.service.registry.count <= MAX_NODES && t == Next(before, events[|events| - 1]);
      NodesHaveInstallation(s, events[..|events| - 1], before, i);
      RunKeepsInv(s, events[..|events| - 1], before);
      StepServes(i, before, events[|events| - 1]);
    }
  }

  // ---------------------------------------------------------------- without deletions

  predicate Deletes(e: Event) {
    e.GatewayChange? && (e.op.DoRemove? || e.op.DoClear?)
  }

  predicate HasPair(r: Registry, uid: Uid, nodeId: byte)
    requires r.count <= MAX_NODES
  {
    exists i :: 0 <= i < r.count && r.cells[i].deviceUid == uid && r.cells[i].nodeId == nodeId
  }

  predicate KeepsAll(r: Registry, committed: set<Membership>) {
    r.count <= MAX_NODES && forall x :: x in committed ==> HasPair(r, x.uid, x.nodeId)
  }

  ghost predicate NothingLost(s: System) {
    forall r :: r in s.allowed ==> KeepsAll(r, s.committed)
  }

  lemma PairsKept(r: Registry, op: Op)
    requires Good(true, r) && r.count <= MAX_NODES && !op.DoRemove? && !op.DoClear?
    ensures
      var after := Perform(r, op);
      && r.count <= after.count
      && forall i :: 0 <= i < r.count ==>
           after.cells[i].deviceUid == r.cells[i].deviceUid && after.cells[i].nodeId == r.cells[i].nodeId
  {
    hide Good, IdIndexFrom, UidIndexFrom, FreeIdFrom;
  }

  lemma ChangeKeepsAll(r: Registry, op: Op, committed: set<Membership>)
    requires Good(true, r) && r.count <= MAX_NODES && !op.DoRemove? && !op.DoClear? && KeepsAll(r, committed)
    ensures KeepsAll(Perform(r, op), committed)
  {
    hide Good, Perform;
    var after := Perform(r, op);
    PairsKept(r, op);
    forall x | x in committed
      ensures HasPair(after, x.uid, x.nodeId)
    {
      var i :| 0 <= i < r.count && r.cells[i].deviceUid == x.uid && r.cells[i].nodeId == x.nodeId;
      assert after.cells[i].deviceUid == x.uid && after.cells[i].nodeId == x.nodeId;
    }
  }

  lemma ActivesArePairs(r: Registry, committed: set<Membership>)
    requires KeepsAll(r, committed)
    ensures KeepsAll(r, committed + Actives(r))
  {
  }

  lemma StepLosesNothing(s: System, e: Event)
    requires Inv(s) && Enabled(s, e) && !Deletes(e) && NothingLost(s)
    ensures s.gateway.service.registry.count <= MAX_NODES && NothingLost(Next(s, e))
  {
    hide NodesOk, NetOk, OneId, ChangeAndSave, Booted, Actives, GatewayAfter, GatewayFrames, Slots.Plausible, Slots.Matches,
         RegistryOk, KeepsAll, Perform, Good, Enabled;
    var g := s.gateway;
    CountOk(g.service, s.allowed, s.provisioned, s.committed);
    if AtNode(e) {
    } else {
      ServiceAfter(g, e);
      var s' := Next(s, e);
      var after := s'.gateway.service.registry;
      var op := Attempted(g, e);
      if e.GatewayBoot? {
        LoadedAllowed(g.service.store, s.allowed);
        BootedValue(g.service.store.flash);
        assert KeepsAll(after, s.committed);
        ActivesArePairs(after, s.committed);
      } else if op.None? {
        assert s'.committed == s.committed;
      } else {
        ChangeKeepsAll(g.service.registry, op.value, s.committed);
        if Settles(g, e) {
          OkIsPerformed(g.service, op.value, WOf(e).open, WOf(e).env);
          ActivesArePairs(after, s.committed);
        }
        AllowedCases(g.service, op.value, WOf(e).open, WOf(e).env, s.allowed);
        SettledCommitted(s, e);
      }
    }
  }

  lemma BootedValue(flash: Slots.Flash)
    ensures Booted(flash).registry == Slots.LoadedValue(REGISTRY_CODEC, flash)
  {
  }

  lemma AllowedCases(s: Service, op: Op, open: bool, env: Slots.Env, allowed: set<Registry>)
    requires s.registry.count <= MAX_NODES
    ensures
      var after := AllowedAfter(s, op, open, env, allowed);
      if ChangeAndSave(s, op, open, env).0 == Ok then after == {Perform(s.registry, op)}
      else after <= allowed + {Perform(s.registry, op)}
  {
    hide ChangeAndSave, Perform;
  }

  lemma SettledCommitted(s: System, e: Event)
    requires s.gateway.service.registry.count <= MAX_NODES && !AtNode(e)
    ensures
      var s' := Next(s, e);
      s'.committed == s.committed ||
      (Settles(s.gateway, e) && s'.gateway.service.registry.count <= MAX_NODES &&
       s'.committed == s.committed + Actives(s'.gateway.service.registry))
  {
    hide GatewayAfter, GatewayFrames, AllowedNext, Settles, Actives;
  }

  lemma {:induction false} RunLosesNothing(s: System, events: seq<Event>, t: System)
    requires Initial(s) && Leads(s, events, t) && forall e :: e in events ==> !Deletes(e)
    ensures NothingLost(t)
    decreases |events|
  {
    hide Inv, Enabled, Next, Deletes;
    if events == [] {
      assert t.committed == {} && t.allowed == {NOTHING};
    } else {
      hide Initial, NothingLost;
      var before: System :|
        && Leads(s, events[..|events| - 1], before) && Enabled(before, events[|events| - 1])
        && before.gateway.service.registry.count <= MAX_NODES && t == Next(before, events[|events| - 1]);
      RunLosesNothing(s, events[..|events| - 1], before);
      RunKeepsInv(s, events[..|events| - 1], before);
      StepLosesNothing(before, events[|events| - 1]);
    }
  }

  /** While no record is deleted, no two active nodes share a node ID. */
  lemma ActiveNodesDiffer(s: System, events: seq<Event>, t: System, a: Uid, b: Uid)
    requires Initial(s) && Leads(s, events, t) && forall e :: e in events ==> !Deletes(e)
    requires a in t.nodes && b in t.nodes && a != b
    requires Holds(t.nodes[a], Config.Active) && Holds(t.nodes[b], Config.Active)
    ensures Config.Loaded(t.nodes[a].image).value.nodeId != Config.Loaded(t.nodes[b].image).value.nodeId
  {
    RunKeepsInv(s, events, t);
    RunLosesNothing(s, events, t);
    NodeActiveOnlyIfCommitted(s, events, t, a);
    NodeActiveOnlyIfCommitted(s, events, t, b);
    hide Initial, Leads, Config.Loaded, NetOk, OneId, NodesOk, Slots.Matches, Actives, RegistryOk;
    var r := t.gateway.service.registry;
    CountOk(t.gateway.service, t.allowed, t.provisioned, t.committed);
    assert KeepsAll(r, t.committed);
    var x := MemberOf(a, Config.Loaded(t.nodes[a].image).value);
    var y := MemberOf(b, Config.Loaded(t.nodes[b].image).value);
    assert HasPair(r, x.uid, x.nodeId) && HasPair(r, y.uid, y.nodeId);
    PairsDiffer(r, x.uid, x.nodeId, y.uid, y.nodeId);
  }

  lemma PairsDiffer(r: Registry, a: Uid, idA: byte, b: Uid, idB: byte)
    requires Good(true, r) && r.count <= MAX_NODES && HasPair(r, a, idA) && HasPair(r, b, idB) && a != b
    ensures idA != idB
  {
    hide GoodRecord;
    var i :| 0 <= i < r.count && r.cells[i].deviceUid == a && r.cells[i].nodeId == idA;
    var j :| 0 <= j < r.count && r.cells[j].deviceUid == b && r.cells[j].nodeId == idB;
    var s, low, high := Live(r), if i < j then i else j, if i < j then j else i;
    assert s[i] == r.cells[i] && s[j] == r.cells[j];
    assert s[low].nodeId != s[high].nodeId;
  }
}
