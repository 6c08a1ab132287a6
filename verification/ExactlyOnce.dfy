/** SET_COUNT end to end: the gateway's durable book and deliveries, a radio that
    loses, duplicates and reorders frames, and nodes whose EEPROM writes can be cut
    between any two bytes. A queued command changes its node's count at most once,
    and a book that shows it applied is right. */
module ExactlyOnce {
  import opened Bytes
  import opened Protocol
  import opened Options
  import opened Eeprom
  import opened CommandBook
  import opened CommandBookCodec
  import opened CommandService
  import Slots = DualSlotStore
  import Journal = SetCountJournal
  import Profile = CounterProfile

  // ---------------------------------------------------------------- the system

  /** A frame once sent may arrive never, once or many times. `No command` frames
      only end sessions, which any session may do by itself. `pos` is not on the air:
      it is the issue position of the command a frame is about. */
  datatype Frame =
    | ReadyFrame(node: byte, nonce: uint32)
    | CommandFrame(node: byte, nonce: uint32, id: uint16, commandType: byte, arguments: seq<byte>, pos: nat)
    | ResultFrame(node: byte, nonce: uint32, id: uint16, status: byte, data: seq<byte>, pos: nat)

  /** A command the gateway's book has taken, in issue order. */
  datatype Issue = Issue(node: byte, id: uint16, commandType: byte, arguments: seq<byte>)

  /** A committed effect, and the issue position of the command that had it. */
  datatype Entry = Entry(effect: Profile.Effect, pos: nat)

  /** A node: its EEPROM, the nonce of its open session, the nonces it has used, and
      the history of its committed effects. */
  datatype NodeState = NodeState(
    device: Profile.Node, session: Option<uint32>, used: set<uint32>,
    initial: Journal.Durable, history: seq<Entry>)

  type Nodes = map<byte, NodeState>

  datatype System = System(
    gateway: Service, allowed: set<Book>, nodes: Nodes, identities: map<byte, Identity>, net: set<Frame>, issued: seq<Issue>)

  function IdentityOf(s: System, node: byte): Option<Identity> {
    if node in s.identities then Some(s.identities[node]) else None
  }

  datatype Event =
    | QueueEvent(node: byte, commandType: byte, arguments: seq<byte>, open: bool, now: uint64, env: Slots.Env)
    | CancelEvent(node: byte, open: bool, env: Slots.Env)
    | RemoveEvent(node: byte, open: bool, env: Slots.Env)
    | ClearEvent(open: bool, env: Slots.Env)
    | RegistryEvent(node: byte, identity: Option<Identity>)
    | GatewayBoot(randomId: uint16)
    | AnswerReady(node: byte, nonce: uint32)
    | AcceptResult(
        node: byte, nonce: uint32, id: uint16, status: byte, data: seq<byte>, pos: nat, open: bool, infoStored: bool,
        now: uint64, env: Slots.Env)
    | OpenSession(node: byte, nonce: uint32)
    | CloseSession(node: byte)
    | ReceiveCommand(
        node: byte, nonce: uint32, id: uint16, commandType: byte, arguments: seq<byte>, pos: nat, cut: nat,
        info: seq<byte>)
    | CountPulse(node: byte, cut: nat)
    | NodeBoot(node: byte, cut: nat)

  predicate Enabled(s: System, e: Event) {
    match e
    case QueueEvent(node, _, _, _, _, env) => node < NODE_ID_SLOTS && Slots.Plausible(Slots.Generic, COMMAND_CODEC, env)
    case CancelEvent(_, _, env) => Slots.Plausible(Slots.Generic, COMMAND_CODEC, env)
    case RemoveEvent(_, _, env) => Slots.Plausible(Slots.Generic, COMMAND_CODEC, env)
    case ClearEvent(_, env) => Slots.Plausible(Slots.Generic, COMMAND_CODEC, env)
    case RegistryEvent(node, _) => node in s.nodes
    case GatewayBoot(randomId) => randomId != 0
    case AnswerReady(node, nonce) => node < NODE_ID_SLOTS && ReadyFrame(node, nonce) in s.net
    case AcceptResult(node, nonce, id, status, data, pos, _, _, _, env) =>
      && node < NODE_ID_SLOTS && ResultFrame(node, nonce, id, status, data, pos) in s.net
      && Slots.Plausible(Slots.Generic, COMMAND_CODEC, env)
    case OpenSession(node, nonce) =>
      && node in s.nodes && s.nodes[node].device.running && s.nodes[node].session.None?
      && nonce !in s.nodes[node].used
    case CloseSession(node) => node in s.nodes
    case ReceiveCommand(node, nonce, id, commandType, arguments, pos, _, _) =>
      && node in s.nodes && s.nodes[node].device.running && s.nodes[node].session == Some(nonce)
      && CommandFrame(node, nonce, id, commandType, arguments, pos) in s.net
    case CountPulse(node, _) => node in s.nodes
    case NodeBoot(node, _) => node in s.nodes
  }

  // ---------------------------------------------------------------- gateway events

  /** The registry may disable a node, enable it again, or take another profile from it. */
  function IdentitiesAfter(s: System, e: Event): map<byte, Identity> {
    if !e.RegistryEvent? then s.identities
    else if e.identity.Some? then s.identities[e.node := e.identity.value]
    else s.identities - {e.node}
  }

  /** The book change an event tries to commit, if any. */
  function Attempted(s: System, e: Event): Option<Op> {
    match e
    case QueueEvent(node, commandType, arguments, open, now, _) =>
      var identity := IdentityOf(s, node);
      if identity.Some? && ProfileSupports(identity.value.profileId, commandType) && open &&
         Queue(s.gateway.book, identity.value.deviceUid, node, commandType, arguments, now).0 == CommandBook.Queued
      then Some(DoQueue(identity.value.deviceUid, node, commandType, arguments, now)) else None
    case CancelEvent(node, open, _) => if open && Cancel(s.gateway.book, node).0 then Some(DoCancel(node)) else None
    case RemoveEvent(node, open, _) => if open && RemoveNode(s.gateway.book, node).0 then Some(DoRemove(node)) else None
    case ClearEvent(open, _) => if open && s.gateway.book.records != [] then Some(DoClear) else None
    case AcceptResult(node, nonce, id, status, data, _, open, infoStored, now, _) =>
      var identity := IdentityOf(s, node);
      if node < NODE_ID_SLOTS && open && identity.Some? && s.gateway.deliveries[node] == Delivery(nonce, id) &&
         (ReportsInfo(s.gateway.book, node, id, status) ==> infoStored) &&
         Complete(s.gateway.book, identity.value.deviceUid, node, id, status, data, now).0 == Completed
      then Some(DoComplete(identity.value.deviceUid, node, id, status, data, now)) else None
    case _ => None
  }

  function EnvOf(e: Event): Slots.Env {
    match e
    case QueueEvent(_, _, _, _, _, env) => env
    case CancelEvent(_, _, env) => env
    case RemoveEvent(_, _, env) => env
    case ClearEvent(_, env) => env
    case AcceptResult(_, _, _, _, _, _, _, _, _, env) => env
    case _ => Slots.Env(Slots.Kept, false, false)
  }

  function GatewayAfter(s: System, e: Event): Service {
    match e
    case QueueEvent(node, commandType, arguments, open, now, env) =>
      if node < NODE_ID_SLOTS
      then QueueCommand(s.gateway, IdentityOf(s, node), node, commandType, arguments, open, now, env).1 else s.gateway
    case CancelEvent(node, open, env) => CancelCommand(s.gateway, node, open, env).1
    case RemoveEvent(node, open, env) => RemoveNodeCommand(s.gateway, node, open, env).1
    case ClearEvent(open, env) => ClearCommands(s.gateway, open, env).1
    case GatewayBoot(randomId) => Booted(s.gateway.store.flash, randomId)
    case AnswerReady(node, nonce) =>
      if node < NODE_ID_SLOTS then Ready(s.gateway, IdentityOf(s, node), node, nonce).1 else s.gateway
    case AcceptResult(node, nonce, id, status, data, _, open, infoStored, now, env) =>
      if node < NODE_ID_SLOTS
      then ResultArrived(
             s.gateway, IdentityOf(s, node), node, nonce, id, status, data, open, infoStored, now, env)
      else s.gateway
    case _ => s.gateway
  }

  /** The values a later boot may load, after one more save attempt. */
  function AllowedAfter(s: System, e: Event): set<Book> {
    if e.GatewayBoot? then {Slots.LoadedValue(COMMAND_CODEC, s.gateway.store.flash)}
    else
      var op := Attempted(s, e);
      if op.None? then s.allowed
      else
        var candidate := Perform(s.gateway.book, op.value);
        var store := s.gateway.store;
        if Slots.Skips(Slots.Generic, store.ram, candidate) then s.allowed
        else if Slots.Save(Slots.Generic, COMMAND_CODEC, store.flash, store.ram, candidate, EnvOf(e)).verified
        then {candidate}
        else s.allowed + {candidate}
  }

  function IssueOf(r: CommandRecord): Issue {
    Issue(r.nodeId, r.commandId, r.commandType, if r.argumentSize <= 8 then r.arguments[..r.argumentSize] else [])
  }

  /** A command is issued when its record enters the book in memory: by a queue
      that saved, or by a boot that finds a save which had reported failure. */
  function IssuedAfter(issued: seq<Issue>, before: Book, after: Book): seq<Issue> {
    if after.records != [] && after.nextCommandId == NextId(before.nextCommandId)
    then issued + [IssueOf(after.records[|after.records| - 1])]
    else issued
  }

  /** The last command issued to a node, -1 if there is none. */
  function LatestPos(issued: seq<Issue>, node: byte): (p: int)
    ensures -1 <= p < |issued|
    ensures p >= 0 ==> issued[p].node == node
    ensures forall k :: p < k < |issued| ==> issued[k].node != node
  {
    if issued == [] then -1
    else if issued[|issued| - 1].node == node then |issued| - 1
    else LatestPos(issued[..|issued| - 1], node)
  }

  /** A node's record is always its latest command. */
  function Reply(s: System, e: Event): set<Frame> {
    if e.AnswerReady? && e.node < NODE_ID_SLOTS then
      var reply := Ready(s.gateway, IdentityOf(s, e.node), e.node, e.nonce).0;
      var pos := LatestPos(s.issued, e.node);
      if reply.Deliver? && pos >= 0
      then {CommandFrame(e.node, e.nonce, reply.commandId, reply.commandType, reply.arguments, pos)} else {}
    else {}
  }

  // ---------------------------------------------------------------- node events

  function DeviceEvent(e: Event): Option<Profile.Event> {
    match e
    case ReceiveCommand(_, _, id, commandType, arguments, _, cut, _) =>
      if commandType == SET_COUNT && |arguments| == 4 then Some(Profile.SetCount(id, Read32(arguments), cut)) else None
    case CountPulse(_, cut) => Some(Profile.Pulse(cut))
    case NodeBoot(_, cut) => Some(Profile.Boot(cut))
    case _ => None
  }

  function StepDevice(n: NodeState, e: Profile.Event, pos: nat): NodeState {
    n.(device := Profile.Step(n.device, e), history := n.history + [Entry(Profile.Committed(n.device, e), pos)])
  }

  function NodeAfter(n: NodeState, e: Event): NodeState {
    match e
    case OpenSession(_, nonce) => n.(session := Some(nonce), used := n.used + {nonce})
    case CloseSession(_) => n.(session := None)
    case ReceiveCommand(_, _, _, _, _, pos, _, _) =>
      var closed := n.(session := None);
      if DeviceEvent(e).Some? then StepDevice(closed, DeviceEvent(e).value, pos) else closed
    case CountPulse(_, _) => StepDevice(n, DeviceEvent(e).value, 0)
    case NodeBoot(_, _) => StepDevice(n.(session := None), DeviceEvent(e).value, 0)
    case _ => n
  }

  function CountData(r: Journal.AppliedRecord): seq<byte> {
    Write32(r.oldCount) + Write32(r.appliedCount)
  }

  /** The answer a node sends once the command has been carried out. */
  function Answer(n: NodeState, e: Event): set<Frame> {
    if !e.ReceiveCommand? then {}
    else
      var after := NodeAfter(n, e);
      if e.commandType == READ_INFO && |e.arguments| == 0 then {ResultFrame(e.node, e.nonce, e.id, APPLIED, e.info, e.pos)}
      else if DeviceEvent(e).None? then
        {ResultFrame(
          e.node, e.nonce, e.id, if e.commandType == SET_COUNT || e.commandType == READ_INFO then INVALID_ARGUMENT else UNSUPPORTED, [],
          e.pos)}
      else if after.device.running && Journal.Meaning(after.device.image).last.Some? then
        {ResultFrame(
          e.node, e.nonce, e.id, APPLIED, CountData(Journal.Meaning(after.device.image).last.value), e.pos)}
      else {}
  }

  predicate AtNode(e: Event) {
    e.OpenSession? || e.CloseSession? || e.ReceiveCommand? || e.CountPulse? || e.NodeBoot?
  }

  function Next(s: System, e: Event): System {
    if AtNode(e) then
      if e.node in s.nodes then
        s.(nodes := s.nodes[e.node := NodeAfter(s.nodes[e.node], e)],
           net := s.net + Answer(s.nodes[e.node], e) + if e.OpenSession? then {ReadyFrame(e.node, e.nonce)} else {})
      else s
    else
      var gateway := GatewayAfter(s, e);
      s.(gateway := gateway, allowed := AllowedAfter(s, e), net := s.net + Reply(s, e),
         identities := IdentitiesAfter(s, e), issued := IssuedAfter(s.issued, s.gateway.book, gateway.book))
  }

  // ---------------------------------------------------------------- the two hypotheses

  /** Fewer than 65535 issues lie between two positions. */
  predicate Near(earlier: int, later: int) {
    later - earlier < 0xFFFF
  }

  /** A SET_COUNT reaches a node fewer than 65535 issues after the one it applied last;
      the first one does not carry the ID the node had on record from the start. */
  predicate RecentEvent(s: System, e: Event) {
    e.ReceiveCommand? && e.node in s.nodes && e.commandType == SET_COUNT ==>
      Distinguished(s.nodes[e.node], e.id, e.pos)
  }

  predicate Distinguished(n: NodeState, id: uint16, pos: nat) {
    var last := LastPos(n.history);
    if last >= 0 then Near(last, pos) else !Records(n.initial, id)
  }

  /** The ID is the one on record. */
  predicate Records(d: Journal.Durable, id: uint16) {
    d.last.Some? && d.last.value.commandId == id
  }

  /** No session is answered with commands that lie 65535 or more issues apart. */
  predicate FreshEvent(s: System, e: Event) {
    e.AnswerReady? ==>
      forall f :: f in s.net && f.CommandFrame? && f.node == e.node && f.nonce == e.nonce ==>
        Near(f.pos, LatestPos(s.issued, e.node))
  }

  predicate Recent(s: System, events: seq<Event>) {
    events == [] ||
    (Recent(s, events[..|events| - 1]) && RecentEvent(Run(s, events[..|events| - 1]), events[|events| - 1]))
  }

  predicate Fresh(s: System, events: seq<Event>) {
    events == [] ||
    (Fresh(s, events[..|events| - 1]) && FreshEvent(Run(s, events[..|events| - 1]), events[|events| - 1]))
  }

  lemma LatestAppend(issued: seq<Issue>, x: Issue, node: byte)
    ensures LatestPos(issued + [x], node) == if x.node == node then |issued| else LatestPos(issued, node)
  {
    assert (issued + [x])[..|issued|] == issued;
  }

  // ---------------------------------------------------------------- node histories

  function Replay(initial: Journal.Durable, history: seq<Entry>): Journal.Durable {
    if history == [] then initial
    else Profile.Perform(Replay(initial, history[..|history| - 1]), history[|history| - 1].effect)
  }

  /** The issue position of the last command in a history, -1 if there is none. */
  function LastPos(history: seq<Entry>): (p: int)
    ensures -1 <= p
  {
    if history == [] then -1
    else if history[|history| - 1].effect.Set? then history[|history| - 1].pos
    else LastPos(history[..|history| - 1])
  }

  /** A record is what applying the command issued at `pos` leaves. */
  predicate AppliedAs(node: byte, record: Journal.AppliedRecord, issued: seq<Issue>, pos: nat) {
    && pos < |issued|
    && |issued[pos].arguments| == 4 && Read32(issued[pos].arguments) == record.appliedCount
    && issued[pos] == Issue(node, record.commandId, SET_COUNT, issued[pos].arguments)
  }

  /** Every SET_COUNT in a history was issued to this node with that argument, later
      than the ones before it, and records the count just before it. */
  predicate HistoryOk(node: byte, initial: Journal.Durable, history: seq<Entry>, issued: seq<Issue>) {
    history == [] ||
    (var front, last := history[..|history| - 1], history[|history| - 1];
     && HistoryOk(node, initial, front, issued)
     && !last.effect.Forgotten?
     && (last.effect.Set? ==>
           && last.pos > LastPos(front) && AppliedAs(node, last.effect.record, issued, last.pos)
           && last.effect.record.oldCount == Replay(initial, front).count))
  }

  /** The node applied the command issued at `pos` and reported `data`. */
  predicate Reported(history: seq<Entry>, pos: nat, data: seq<byte>) {
    exists i :: 0 <= i < |history| && history[i].effect.Set? && history[i].pos == pos &&
                CountData(history[i].effect.record) == data
  }

  ghost predicate NodeOk(node: byte, n: NodeState, issued: seq<Issue>) {
    && Profile.Good(n.device)
    && Journal.Meaning(n.device.image) == Replay(n.initial, n.history)
    && HistoryOk(node, n.initial, n.history, issued)
    && (n.session.Some? ==> n.session.value in n.used)
  }

  // ---------------------------------------------------------------- the invariant

  ghost predicate NodesOk(nodes: Nodes, issued: seq<Issue>) {
    forall n :: n in nodes ==> NodeOk(n, nodes[n], issued)
  }

  function CommandAt(issued: seq<Issue>, pos: nat, nonce: uint32): Frame
    requires pos < |issued|
  {
    var x := issued[pos];
    CommandFrame(x.node, nonce, x.id, x.commandType, x.arguments, pos)
  }

  /** A frame on the air tells the truth: a command was issued, a result answers a
      command of its session and was reported. */
  predicate FrameOk(f: Frame, net: set<Frame>, nodes: Nodes, issued: seq<Issue>) {
    f.node in nodes &&
    match f
    case ReadyFrame(node, nonce) => nonce in nodes[node].used
    case CommandFrame(node, nonce, id, commandType, arguments, pos) =>
      && nonce in nodes[node].used && pos < |issued| && issued[pos] == Issue(node, id, commandType, arguments) && id != 0
      && (nodes[node].session == Some(nonce) ==> pos >= LastPos(nodes[node].history))
    case ResultFrame(node, nonce, id, status, data, pos) =>
      && pos < |issued| && issued[pos].node == node && issued[pos].id == id && CommandAt(issued, pos, nonce) in net
      && (issued[pos].commandType == SET_COUNT && status == APPLIED ==> Reported(nodes[node].history, pos, data))
  }

  predicate NetOk(net: set<Frame>, nodes: Nodes, issued: seq<Issue>) {
    forall f :: f in net ==> FrameOk(f, net, nodes, issued)
  }

  /** A record of the book is its node's latest command; with `full` knowledge of the
      results, an applied one has exactly what its node reported for it. */
  predicate RecordOk(full: bool, r: CommandRecord, nodes: Nodes, issued: seq<Issue>) {
    var p := LatestPos(issued, r.nodeId);
    && p >= 0 && issued[p] == IssueOf(r)
    && (full && r.state == COMPLETED && r.commandType == SET_COUNT && r.status == APPLIED ==>
          r.nodeId in nodes && Reported(nodes[r.nodeId].history, p, r.result))
  }

  predicate RecordsOk(full: bool, book: Book, nodes: Nodes, issued: seq<Issue>) {
    forall r :: r in book.records ==> RecordOk(full, r, nodes, issued)
  }

  /** Changes of the book that the rest of the system can justify: a completion by a
      result of the node's latest command. */
  ghost predicate Permitted(full: bool, net: set<Frame>, issued: seq<Issue>, op: Op) {
    full && op.DoComplete? ==>
      var p := LatestPos(issued, op.nodeId);
      p >= 0 && exists nonce :: ResultFrame(op.nodeId, nonce, op.commandId, op.status, op.data, p) in net
  }

  /** A book that a boot may load is one change away from the book in memory. */
  ghost predicate AllowedOk(full: bool, allowed: set<Book>, gateway: Service, net: set<Frame>, issued: seq<Issue>) {
    forall b :: b in allowed ==>
                  (!gateway.store.ram.loaded && b == EMPTY_BOOK) ||
                  exists op :: Permitted(full, net, issued, op) && b == Perform(gateway.book, op)
  }

  predicate GatewayOk(gateway: Service, allowed: set<Book>) {
    && Slots.Matches(COMMAND_CODEC, gateway.store, allowed)
    && ValidBook(gateway.book)
    && (gateway.store.ram.loaded ==> gateway.book == gateway.store.ram.current)
    && (!gateway.store.ram.loaded ==> gateway.book.records == [])
  }

  /** A remembered delivery is of the node's latest command. */
  predicate DeliveriesOk(deliveries: Deliveries, net: set<Frame>, issued: seq<Issue>) {
    forall n: byte :: n < NODE_ID_SLOTS && deliveries[n].commandId != 0 ==>
      var p := LatestPos(issued, n);
      p >= 0 && issued[p].id == deliveries[n].commandId && CommandAt(issued, p, deliveries[n].sessionNonce) in net
  }

  /** Commands delivered under one nonce lie close together. */
  predicate SessionsOk(net: set<Frame>) {
    forall f, g :: f in net && g in net && f.CommandFrame? && g.CommandFrame? && f.node == g.node && f.nonce == g.nonce ==>
      Near(f.pos, g.pos)
  }

  ghost predicate Inv(full: bool, s: System) {
    && s.identities.Keys <= s.nodes.Keys
    && NodesOk(s.nodes, s.issued)
    && NetOk(s.net, s.nodes, s.issued)
    && RecordsOk(full, s.gateway.book, s.nodes, s.issued)
    && GatewayOk(s.gateway, s.allowed)
    && AllowedOk(full, s.allowed, s.gateway, s.net, s.issued)
    && DeliveriesOk(s.gateway.deliveries, s.net, s.issued)
    && (full ==> SessionsOk(s.net))
  }

  predicate IdsFrom(first: uint16, issued: seq<Issue>) {
    first != 0 && forall k :: 0 <= k < |issued| ==> issued[k].id == IdAt(first, k)
  }

  /** IDs follow the issue order from some first one. */
  ghost predicate IdsInTurn(issued: seq<Issue>) {
    exists first: uint16 :: IdsFrom(first, issued)
  }

  /** Then commands of one ID that lie near each other are one command. */
  lemma SameIdSamePlace(issued: seq<Issue>, i: nat, j: nat)
    requires IdsInTurn(issued) && i <= j < |issued| && Near(i, j) && issued[i].id == issued[j].id
    ensures i == j
  {
    hide IdAt;
    var first: uint16 :| IdsFrom(first, issued);
    if i < j {
      IdsDiffer(first, i, j);
    }
  }

  // ---------------------------------------------------------------- more issues disturb nothing

  lemma {:induction false} LastPosIssued(node: byte, initial: Journal.Durable, history: seq<Entry>, issued: seq<Issue>)
    requires HistoryOk(node, initial, history, issued)
    ensures LastPos(history) < |issued| && (LastPos(history) >= 0 ==> issued[LastPos(history)].node == node)
    ensures LastPos(history) <= LatestPos(issued, node)
  {
    hide Replay;
    if history != [] && !history[|history| - 1].effect.Set? {
      LastPosIssued(node, initial, history[..|history| - 1], issued);
    }
  }

  lemma {:induction false} HistoryAppend(node: byte, initial: Journal.Durable, history: seq<Entry>, issued: seq<Issue>, x: Issue)
    requires HistoryOk(node, initial, history, issued)
    ensures HistoryOk(node, initial, history, issued + [x])
  {
    hide Replay, LastPos, Read32;
    if history != [] {
      HistoryAppend(node, initial, history[..|history| - 1], issued, x);
    }
  }

  lemma IssueKeepsNodes(nodes: Nodes, issued: seq<Issue>, x: Issue)
    requires NodesOk(nodes, issued)
    ensures NodesOk(nodes, issued + [x])
  {
    hide HistoryOk, Replay, Profile.Good, Journal.Meaning;
    forall n | n in nodes
      ensures NodeOk(n, nodes[n], issued + [x])
    {
      assert NodeOk(n, nodes[n], issued);
      HistoryAppend(n, nodes[n].initial, nodes[n].history, issued, x);
    }
  }

  lemma IssueKeepsNet(net: set<Frame>, nodes: Nodes, issued: seq<Issue>, x: Issue)
    requires NetOk(net, nodes, issued)
    ensures NetOk(net, nodes, issued + [x])
  {
    hide LastPos, Reported;
    forall f | f in net
      ensures FrameOk(f, net, nodes, issued + [x])
    {
      assert FrameOk(f, net, nodes, issued);
    }
  }

  /** A record keeps its standing when a command for another node is issued. */
  lemma IssueKeepsRecord(full: bool, r: CommandRecord, nodes: Nodes, issued: seq<Issue>, x: Issue)
    requires RecordOk(full, r, nodes, issued) && x.node != r.nodeId
    ensures RecordOk(full, r, nodes, issued + [x])
  {
    hide LatestPos, Reported;
    LatestAppend(issued, x, r.nodeId);
  }

  // ---------------------------------------------------------------- changes of the book

  /** What a queued command leaves: the new record, and old records of other nodes. */
  lemma QueuedRecords(b: Book, op: Op)
    requires ValidBook(b) && op.DoQueue?
    requires Queue(b, op.deviceUid, op.nodeId, op.commandType, op.arguments, op.nowUnixMs).0 == CommandBook.Queued
    ensures
      var after := Perform(b, op);
      && after.records != [] && after.nextCommandId == NextId(b.nextCommandId)
      && var new_ := after.records[|after.records| - 1];
         && new_.state == PENDING && new_.nodeId == op.nodeId && new_.commandId == b.nextCommandId
         && (forall r :: r in after.records ==> r == new_ || (r in b.records && r.nodeId != op.nodeId))
  {
    hide ValidBook, Append, MakeRoom, WithoutNode, NewRecord, ValidCommandArguments;
    var cleared := WithoutNode(b, op.nodeId);
    WithoutNodeValid(b, op.nodeId);
    MakeRoomValid(cleared, op.nodeId);
    var roomy := MakeRoom(cleared).value;
    AppendFields(roomy, op.deviceUid, op.nodeId, op.commandType, op.arguments, op.nowUnixMs);
    NewRecordNode(roomy, op.deviceUid, op.nodeId, op.commandType, op.arguments, op.nowUnixMs);
    AppendedRecords(roomy, op);
  }

  lemma AppendedRecords(b: Book, op: Op)
    requires op.DoQueue? && |op.arguments| <= 8
    ensures
      var new_ := NewRecord(b, op.deviceUid, op.nodeId, op.commandType, op.arguments, op.nowUnixMs);
      Append(b, op.deviceUid, op.nodeId, op.commandType, op.arguments, op.nowUnixMs).records == b.records + [new_]
  {
  }

  lemma NextIdDiffers(id: uint16)
    ensures NextId(id) != id
  {
  }

  lemma OthersKeepNextId(b: Book, op: Op)
    requires ValidBook(b)
    requires op.DoQueue? ==>
               Queue(b, op.deviceUid, op.nodeId, op.commandType, op.arguments, op.nowUnixMs).0 != CommandBook.Queued
    ensures Perform(b, op).nextCommandId == b.nextCommandId
  {
    hide ValidBook, Queue;
    if op.DoQueue? {
      QueueValid(b, op.deviceUid, op.nodeId, op.commandType, op.arguments, op.nowUnixMs);
    }
  }

  /** Every other change keeps records or completes one as a result frame says. */
  lemma OtherRecords(b: Book, op: Op, r: CommandRecord)
    requires ValidBook(b) && !op.DoQueue? && r in Perform(b, op).records
    ensures r in b.records ||
            (&& op.DoComplete? && Find(b, op.nodeId).Some?
             && var old_ := Find(b, op.nodeId).value;
                && old_ in b.records && old_.state == PENDING && old_.commandId == op.commandId && old_.nodeId == op.nodeId
                && |op.data| == ResultDataSize(old_.commandType, op.status) && op.status != STORAGE_FAILURE
                && r == CompletedRecord(old_, op.status, op.data, op.nowUnixMs))
  {
    hide ValidBook, IndexFrom;
  }

  lemma CompletedRecordOk(
    full: bool, old_: CommandRecord, op: Op, net: set<Frame>, nodes: Nodes, issued: seq<Issue>)
    requires op.DoComplete? && Permitted(full, net, issued, op) && NetOk(net, nodes, issued)
    requires old_.nodeId == op.nodeId && old_.commandId == op.commandId && RecordOk(full, old_, nodes, issued)
    requires |op.data| == ResultDataSize(old_.commandType, op.status)
    ensures RecordOk(full, CompletedRecord(old_, op.status, op.data, op.nowUnixMs), nodes, issued)
  {
    hide LatestPos, Reported, LastPos;
    if full {
      var p := LatestPos(issued, op.nodeId);
      var nonce :| ResultFrame(op.nodeId, nonce, op.commandId, op.status, op.data, p) in net;
      assert FrameOk(ResultFrame(op.nodeId, nonce, op.commandId, op.status, op.data, p), net, nodes, issued);
      var r := CompletedRecord(old_, op.status, op.data, op.nowUnixMs);
      if r.commandType == SET_COUNT && r.status == APPLIED {
        assert r.result == op.data + old_.result[8..] == op.data;
      }
    }
  }

  /** A permitted change of the book, with the issue it makes, keeps the records right. */
  lemma ChangeKeepsRecords(
    full: bool, book: Book, op: Op, net: set<Frame>, nodes: Nodes, issued: seq<Issue>)
    requires ValidBook(book) && RecordsOk(full, book, nodes, issued) && NetOk(net, nodes, issued)
    requires Permitted(full, net, issued, op)
    ensures RecordsOk(full, Perform(book, op), nodes, IssuedAfter(issued, book, Perform(book, op)))
  {
    hide ValidBook, RecordOk, Queue, Perform, LatestPos, NetOk, Permitted;
    var after := Perform(book, op);
    NextIdDiffers(book.nextCommandId);
    if op.DoQueue? &&
       Queue(book, op.deviceUid, op.nodeId, op.commandType, op.arguments, op.nowUnixMs).0 == CommandBook.Queued {
      QueuedRecords(book, op);
      var new_ := after.records[|after.records| - 1];
      var x := IssueOf(new_);
      forall r | r in after.records
        ensures RecordOk(full, r, nodes, issued + [x])
      {
        if r == new_ {
          NewRecordOk(full, new_, nodes, issued);
        } else {
          IssueKeepsRecord(full, r, nodes, issued, x);
        }
      }
    } else {
      OthersKeepNextId(book, op);
      forall r | r in after.records
        ensures RecordOk(full, r, nodes, issued)
      {
        if op.DoQueue? {
          QueueValid(book, op.deviceUid, op.nodeId, op.commandType, op.arguments, op.nowUnixMs);
          assert after == book by { RefusedIsSame(book, op); }
        } else {
          OtherRecords(book, op, r);
          if r !in book.records {
            CompletedRecordOk(full, Find(book, op.nodeId).value, op, net, nodes, issued);
          }
        }
      }
    }
  }

  lemma RefusedIsSame(b: Book, op: Op)
    requires ValidBook(b) && op.DoQueue?
    requires Queue(b, op.deviceUid, op.nodeId, op.commandType, op.arguments, op.nowUnixMs).0 != CommandBook.Queued
    ensures Perform(b, op) == b
  {
    hide ValidBook, Queue;
    QueueValid(b, op.deviceUid, op.nodeId, op.commandType, op.arguments, op.nowUnixMs);
  }

  lemma NewRecordOk(full: bool, r: CommandRecord, nodes: Nodes, issued: seq<Issue>)
    requires r.state == PENDING
    ensures RecordOk(full, r, nodes, issued + [IssueOf(r)])
  {
    LatestAppend(issued, IssueOf(r), r.nodeId);
  }

  // ---------------------------------------------------------------- gateway steps

  lemma AttemptCommits(s: System, e: Event)
    requires Enabled(s, e) && !AtNode(e) && !e.GatewayBoot?
    ensures
      var gateway, op := GatewayAfter(s, e), Attempted(s, e);
      && (op.None? ==> gateway.book == s.gateway.book && gateway.store == s.gateway.store)
      && (op.Some? ==>
            && Slots.Plausible(Slots.Generic, COMMAND_CODEC, EnvOf(e))
            && var done := Commit(s.gateway, Perform(s.gateway.book, op.value), EnvOf(e)).1;
               gateway.book == done.book && gateway.store == done.store)
  {
    hide Queue, Complete, Cancel, RemoveNode, Clear, Slots.Save, Encode, Decode;
  }

  /** A result the gateway accepts answers the node's latest command: it matches the
      remembered delivery, and in one session an ID names one command. */
  lemma AttemptPermitted(full: bool, s: System, e: Event)
    requires Inv(full, s) && IdsInTurn(s.issued) && Enabled(s, e) && !AtNode(e) && !e.GatewayBoot?
    requires Attempted(s, e).Some?
    ensures Permitted(full, s.net, s.issued, Attempted(s, e).value)
  {
    hide NodesOk, RecordsOk, GatewayOk, AllowedOk, Queue, Cancel, RemoveNode, Complete, IdsInTurn, LatestPos, LastPos,
         Reported;
    if full && e.AcceptResult? {
      var f := ResultFrame(e.node, e.nonce, e.id, e.status, e.data, e.pos);
      assert FrameOk(f, s.net, s.nodes, s.issued);
      var answered := CommandAt(s.issued, e.pos, e.nonce);
      assert FrameOk(answered, s.net, s.nodes, s.issued);
      var p := LatestPos(s.issued, e.node);
      assert s.gateway.deliveries[e.node] == Delivery(e.nonce, e.id);
      var delivered := CommandAt(s.issued, p, e.nonce);
      assert answered in s.net && delivered in s.net;
      assert Near(answered.pos, delivered.pos);
      SameIdSamePlace(s.issued, e.pos, p);
    }
  }

  lemma Unchanged(b: Book)
    requires ValidBook(b)
    ensures Perform(b, DoCancel(0)) == b
  {
    assert forall i :: 0 <= i < |b.records| ==> ValidRecord(b.records[i]);
  }

  lemma OnlyItself(full: bool, b: Book, gateway: Service, net: set<Frame>, issued: seq<Issue>)
    requires ValidBook(b) && gateway.book == b
    ensures AllowedOk(full, {b}, gateway, net, issued)
  {
    hide ValidBook, Perform, LatestPos;
    Unchanged(b);
    assert Permitted(full, net, issued, DoCancel(0));
  }

  lemma CommitOk(full: bool, s: System, op: Op, env: Slots.Env, allowed: set<Book>)
    requires GatewayOk(s.gateway, s.allowed) && AllowedOk(full, s.allowed, s.gateway, s.net, s.issued)
    requires Permitted(full, s.net, s.issued, op) && Slots.Plausible(Slots.Generic, COMMAND_CODEC, env)
    requires
      var candidate, store := Perform(s.gateway.book, op), s.gateway.store;
      allowed == if Slots.Skips(Slots.Generic, store.ram, candidate) then s.allowed
                 else if Slots.Save(Slots.Generic, COMMAND_CODEC, store.flash, store.ram, candidate, env).verified
                 then {candidate} else s.allowed + {candidate}
    ensures
      var after := Commit(s.gateway, Perform(s.gateway.book, op), env).1;
      GatewayOk(after, allowed) &&
      AllowedOk(full, allowed, after, s.net, IssuedAfter(s.issued, s.gateway.book, after.book))
  {
    hide Perform, Encode, Decode, Slots.Matches, ValidBook, Permitted, IssuedAfter;
    var candidate, store := Perform(s.gateway.book, op), s.gateway.store;
    var after := Commit(s.gateway, candidate, env).1;
    PerformValid(s.gateway.book, op);
    CommandCodecIsFaithful();
    SameIssues(s.issued, s.gateway.book);
    if !Slots.Skips(Slots.Generic, store.ram, candidate) {
      Slots.SaveMatches(Slots.Generic, COMMAND_CODEC, store, s.allowed, candidate, env);
      SaveOutcome(store, candidate, env);
      if Slots.Save(Slots.Generic, COMMAND_CODEC, store.flash, store.ram, candidate, env).verified {
        OnlyItself(full, candidate, after, s.net, IssuedAfter(s.issued, s.gateway.book, after.book));
      }
    }
  }

  lemma SaveOutcome(store: Slots.State<Book>, candidate: Book, env: Slots.Env)
    requires !Slots.Skips(Slots.Generic, store.ram, candidate)
    ensures
      var saved := Slots.Save(Slots.Generic, COMMAND_CODEC, store.flash, store.ram, candidate, env);
      && saved.ok == saved.verified
      && (saved.verified ==> saved.ram.loaded && saved.ram.current == candidate)
      && (!saved.verified ==> saved.ram == store.ram)
  {
    hide Encode, Decode;
  }

  /** A commit, with the issue it makes, keeps the whole invariant. */
  lemma GatewayStep(full: bool, s: System, e: Event)
    requires Inv(full, s) && IdsInTurn(s.issued)
    requires Enabled(s, e) && !AtNode(e) && !e.GatewayBoot? && !e.AnswerReady?
    ensures Inv(full, Next(s, e))
  {
    DeliveriesStep(full, s, e);
    CommitStep(full, s, e);
    hide NodesOk, NetOk, RecordsOk, GatewayOk, AllowedOk, DeliveriesOk, SessionsOk, IdsInTurn, GatewayAfter, AllowedAfter, IssuedAfter;
    assert Next(s, e).net == s.net;
  }

  lemma CommitStep(full: bool, s: System, e: Event)
    requires Inv(full, s) && IdsInTurn(s.issued)
    requires Enabled(s, e) && !AtNode(e) && !e.GatewayBoot? && !e.AnswerReady?
    ensures
      var s' := Next(s, e);
      && NodesOk(s.nodes, s'.issued) && NetOk(s.net, s.nodes, s'.issued)
      && RecordsOk(full, s'.gateway.book, s.nodes, s'.issued)
      && GatewayOk(s'.gateway, s'.allowed) && AllowedOk(full, s'.allowed, s'.gateway, s.net, s'.issued)
  {
    hide NodesOk, NetOk, RecordsOk, GatewayOk, IdsInTurn, Slots.Save, Perform, GatewayAfter, Attempted, Permitted,
         DeliveriesOk, SessionsOk, AllowedOk, IssuedAfter, Enabled, EnvOf;
    var s', op := Next(s, e), Attempted(s, e);
    AttemptCommits(s, e);
    if op.None? {
      SameIssues(s.issued, s.gateway.book);
      SameGateway(full, s.gateway, s'.gateway, s.allowed, s.net, s.issued);
    } else {
      AttemptPermitted(full, s, e);
      var done := Commit(s.gateway, Perform(s.gateway.book, op.value), EnvOf(e)).1;
      CommitOk(full, s, op.value, EnvOf(e), s'.allowed);
      SameGateway(full, done, s'.gateway, s'.allowed, s.net, s'.issued);
      BookValid(s.gateway, s.allowed);
      IssuesKeepRest(s, s'.gateway.book);
      if s'.gateway.book == s.gateway.book {
        SameIssues(s.issued, s.gateway.book);
      } else {
        assert s'.gateway.book == Perform(s.gateway.book, op.value);
        ChangeKeepsRecords(full, s.gateway.book, op.value, s.net, s.nodes, s.issued);
      }
    }
  }

  lemma BookValid(gateway: Service, allowed: set<Book>)
    requires GatewayOk(gateway, allowed)
    ensures ValidBook(gateway.book)
  {
  }

  lemma SameIssues(issued: seq<Issue>, b: Book)
    ensures IssuedAfter(issued, b, b) == issued
  {
    NextIdDiffers(b.nextCommandId);
  }

  /** Deliveries are not part of these. */
  lemma SameGateway(
    full: bool, gateway: Service, gateway': Service, allowed: set<Book>, net: set<Frame>, issued: seq<Issue>)
    requires gateway.book == gateway'.book && gateway.store == gateway'.store
    requires GatewayOk(gateway, allowed) && AllowedOk(full, allowed, gateway, net, issued)
    ensures GatewayOk(gateway', allowed) && AllowedOk(full, allowed, gateway', net, issued)
  {
    hide Perform, Slots.Matches, ValidBook, Permitted;
  }

  lemma IssuesKeepRest(s: System, after: Book)
    requires NodesOk(s.nodes, s.issued) && NetOk(s.net, s.nodes, s.issued)
    ensures
      var issued := IssuedAfter(s.issued, s.gateway.book, after);
      NodesOk(s.nodes, issued) && NetOk(s.net, s.nodes, issued)
  {
    hide NodesOk, NetOk;
    if after.records != [] && after.nextCommandId == NextId(s.gateway.book.nextCommandId) {
      var x := IssueOf(after.records[|after.records| - 1]);
      IssueKeepsNodes(s.nodes, s.issued, x);
      IssueKeepsNet(s.net, s.nodes, s.issued, x);
    }
  }

  /** A commit issues a command only by queueing it, and that forgets the delivery of
      its node. */
  lemma CommitIssues(s: System, e: Event)
    requires GatewayOk(s.gateway, s.allowed) && Enabled(s, e) && !AtNode(e) && !e.GatewayBoot? && !e.AnswerReady?
    ensures
      var s' := Next(s, e);
      || s'.issued == s.issued
      || (e.QueueEvent? && s'.gateway.deliveries[e.node] == NO_DELIVERY &&
          exists x: Issue :: x.node == e.node && s'.issued == s.issued + [x])
  {
    hide Slots.Save, Encode, Decode, ValidCommandArguments, Append, MakeRoom, WithoutNode, Complete, Cancel, RemoveNode, Clear,
         Slots.Matches, Queue, AllowedAfter;
    BookValid(s.gateway, s.allowed);
    AttemptCommits(s, e);
    var s', op := Next(s, e), Attempted(s, e);
    SameIssues(s.issued, s.gateway.book);
    if op.Some? && s'.gateway.book != s.gateway.book {
      hide ValidBook;
      assert s'.gateway.book == Perform(s.gateway.book, op.value);
      if op.value.DoQueue? {
        QueuedRecords(s.gateway.book, op.value);
        assert IssueOf(s'.gateway.book.records[|s'.gateway.book.records| - 1]).node == e.node;
      } else {
        OthersKeepNextId(s.gateway.book, op.value);
        NextIdDiffers(s.gateway.book.nextCommandId);
      }
    }
  }

  lemma DeliveriesChange(s: System, e: Event)
    requires Enabled(s, e) && !AtNode(e) && !e.GatewayBoot? && !e.AnswerReady?
    ensures forall n: byte :: n < NODE_ID_SLOTS ==>
              GatewayAfter(s, e).deliveries[n] == s.gateway.deliveries[n] || GatewayAfter(s, e).deliveries[n] == NO_DELIVERY
  {
    hide Slots.Save, Encode, Decode, Queue, Complete, Cancel, RemoveNode, Clear;
  }

  lemma DeliveriesKept(
    before: Deliveries, after: Deliveries, net: set<Frame>, issued: seq<Issue>, x: Issue)
    requires DeliveriesOk(before, net, issued)
    requires forall n: byte :: n < NODE_ID_SLOTS ==> after[n] == before[n] || after[n] == NO_DELIVERY
    ensures DeliveriesOk(after, net, issued)
    ensures x.node < NODE_ID_SLOTS && after[x.node] == NO_DELIVERY ==> DeliveriesOk(after, net, issued + [x])
  {
    hide LatestPos;
    forall n: byte | n < NODE_ID_SLOTS && n != x.node
      ensures LatestPos(issued + [x], n) == LatestPos(issued, n)
    {
      LatestAppend(issued, x, n);
    }
  }

  lemma DeliveriesStep(full: bool, s: System, e: Event)
    requires Inv(full, s) && Enabled(s, e) && !AtNode(e) && !e.GatewayBoot? && !e.AnswerReady?
    ensures DeliveriesOk(Next(s, e).gateway.deliveries, Next(s, e).net, Next(s, e).issued)
  {
    CommitIssues(s, e);
    DeliveriesChange(s, e);
    hide NodesOk, NetOk, RecordsOk, GatewayOk, AllowedOk, DeliveriesOk, SessionsOk, GatewayAfter, IssuedAfter, AllowedAfter;
    var s' := Next(s, e);
    assert s'.net == s.net;
    if s'.issued == s.issued {
      DeliveriesKept(s.gateway.deliveries, s'.gateway.deliveries, s.net, s.issued, Issue(0, 0, 0, []));
    } else {
      var x: Issue :| x.node == e.node && s'.issued == s.issued + [x];
      DeliveriesKept(s.gateway.deliveries, s'.gateway.deliveries, s.net, s.issued, x);
    }
  }

  lemma BootStep(full: bool, s: System, e: Event)
    requires Inv(full, s) && Enabled(s, e) && e.GatewayBoot?
    ensures Inv(full, Next(s, e))
  {
    hide NodesOk, NetOk, RecordOk, Perform, Encode, Decode, Slots.Matches, ValidBook, LatestPos, Permitted, SessionsOk;
    var flash := s.gateway.store.flash;
    var s' := Next(s, e);
    assert s'.net == s.net;
    assert DeliveriesOk(s'.gateway.deliveries, s'.net, s'.issued);
    var value := Slots.LoadedValue(COMMAND_CODEC, flash);
    Slots.BootMatches(COMMAND_CODEC, flash);
    LoadedIsAllowed(s.gateway.store, s.allowed);
    IssuesKeepRest(s, s'.gateway.book);
    if s'.gateway.store.ram.loaded {
      LoadedIsValid(flash);
      OnlyItself(full, value, s'.gateway, s.net, s'.issued);
      if !(value == EMPTY_BOOK && !s.gateway.store.ram.loaded) {
        var op :| Permitted(full, s.net, s.issued, op) && value == Perform(s.gateway.book, op);
        ChangeKeepsRecords(full, s.gateway.book, op, s.net, s.nodes, s.issued);
      } else {
        assert s'.gateway.book == EMPTY_BOOK;
      }
    } else {
      EmptyIsValid(e.randomId);
    }
  }

  lemma LoadedIsAllowed(store: Slots.State<Book>, allowed: set<Book>)
    requires Slots.Matches(COMMAND_CODEC, store, allowed)
    ensures Slots.LoadedValue(COMMAND_CODEC, store.flash) in allowed
  {
  }

  /** A delivered command is the node's latest, so none the node applied is later. */
  lemma ReadyStep(full: bool, s: System, e: Event)
    requires Inv(full, s) && Enabled(s, e) && e.AnswerReady? && (full ==> FreshEvent(s, e))
    ensures Inv(full, Next(s, e))
  {
    ReadyFrames(full, s, e);
    ReadyDelivery(full, s, e);
    hide NodesOk, GatewayOk, LatestPos, NetOk, DeliveriesOk, SessionsOk, RecordsOk;
    var s' := Next(s, e);
    SameIssues(s.issued, s.gateway.book);
    AttemptCommits(s, e);
    SameGateway(full, s.gateway, s'.gateway, s.allowed, s.net, s.issued);
    MoreFrames(full, s.allowed, s'.gateway, s.net, s'.net, s.issued);
  }

  /** What a delivery is: the record of the node, under the position it was issued at. */
  lemma ReadyReply(full: bool, s: System, e: Event)
    requires Inv(full, s) && Enabled(s, e) && e.AnswerReady?
    ensures
      var (reply, after) := Ready(s.gateway, IdentityOf(s, e.node), e.node, e.nonce);
      var p := LatestPos(s.issued, e.node);
      && (reply.Deliver? ==>
            && p >= 0 && reply.commandId == s.issued[p].id != 0
            && Reply(s, e) == {CommandAt(s.issued, p, e.nonce)}
            && after.deliveries == s.gateway.deliveries[e.node := Delivery(e.nonce, reply.commandId)])
      && (!reply.Deliver? ==> Reply(s, e) == {} && after.deliveries == s.gateway.deliveries)
  {
    hide NodesOk, NetOk, GatewayOk, AllowedOk, LatestPos, IndexFrom, DeliveriesOk, SessionsOk;
    var (reply, _) := Ready(s.gateway, IdentityOf(s, e.node), e.node, e.nonce);
    if reply.Deliver? {
      var r := Find(s.gateway.book, e.node).value;
      assert r in s.gateway.book.records && RecordOk(full, r, s.nodes, s.issued);
      RecordIdNonzero(s.gateway, s.allowed, r);
    }
  }

  lemma ReadyDelivery(full: bool, s: System, e: Event)
    requires Inv(full, s) && Enabled(s, e) && e.AnswerReady?
    ensures DeliveriesOk(Next(s, e).gateway.deliveries, Next(s, e).net, Next(s, e).issued)
  {
    ReadyReply(full, s, e);
    SameIssues(s.issued, s.gateway.book);
    AttemptCommits(s, e);
    hide NodesOk, NetOk, GatewayOk, AllowedOk, LatestPos, SessionsOk, RecordsOk, Ready, Reply, IssuedAfter, IdentitiesAfter,
         AllowedAfter, Attempted;
  }

  lemma ReadyUnchanged(s: System, e: Event)
    requires Enabled(s, e) && e.AnswerReady?
    ensures
      var s' := Next(s, e);
      && s'.issued == s.issued && s'.gateway.book == s.gateway.book && s'.nodes == s.nodes && s'.net == s.net + Reply(s, e)
  {
    SameIssues(s.issued, s.gateway.book);
    AttemptCommits(s, e);
    hide Reply, IssuedAfter, GatewayAfter, AllowedAfter;
  }

  lemma ReadyFrames(full: bool, s: System, e: Event)
    requires Inv(full, s) && Enabled(s, e) && e.AnswerReady? && (full ==> FreshEvent(s, e))
    ensures
      var s' := Next(s, e);
      && s'.issued == s.issued && s'.gateway.book == s.gateway.book
      && NetOk(s'.net, s.nodes, s.issued) && (full ==> SessionsOk(s'.net))
  {
    ReadyReply(full, s, e);
    ReadyUnchanged(s, e);
    hide GatewayOk, AllowedOk, LatestPos, LastPos, Reported, RecordsOk, Ready, Reply, DeliveriesOk, HistoryOk, Next, SessionsOk,
         Profile.Good, Journal.Meaning, Replay;
    assert FrameOk(ReadyFrame(e.node, e.nonce), s.net, s.nodes, s.issued);
    var n := s.nodes[e.node];
    assert NodeOk(e.node, n, s.issued);
    LastPosIssued(e.node, n.initial, n.history, s.issued);
    var p := LatestPos(s.issued, e.node);
    if Reply(s, e) == {} {
      assert s.net + {} == s.net;
    } else {
      DeliveredFrame(s.net, p, e.nonce, s.nodes, s.issued);
      if full {
        DeliveredSession(s.net, CommandAt(s.issued, p, e.nonce), s.nodes, s.issued);
      }
    }
  }

  lemma DeliveredFrame(net: set<Frame>, p: nat, nonce: uint32, nodes: Nodes, issued: seq<Issue>)
    requires NetOk(net, nodes, issued) && p < |issued| && issued[p].id != 0 && issued[p].node in nodes
    requires nonce in nodes[issued[p].node].used && LastPos(nodes[issued[p].node].history) <= p
    ensures NetOk(net + {CommandAt(issued, p, nonce)}, nodes, issued)
  {
    hide LastPos, Reported;
    var more := net + {CommandAt(issued, p, nonce)};
    forall f | f in more
      ensures FrameOk(f, more, nodes, issued)
    {
      if f in net {
        assert FrameOk(f, net, nodes, issued);
      }
    }
  }

  lemma DeliveredSession(net: set<Frame>, x: Frame, nodes: Nodes, issued: seq<Issue>)
    requires NetOk(net, nodes, issued) && SessionsOk(net) && x.CommandFrame? && x.pos == LatestPos(issued, x.node)
    requires forall f :: f in net && f.CommandFrame? && f.node == x.node && f.nonce == x.nonce ==> Near(f.pos, x.pos)
    ensures SessionsOk(net + {x})
  {
    hide LatestPos, LastPos, Reported;
    forall f | f in net && f.CommandFrame? && f.node == x.node
      ensures Near(x.pos, f.pos)
    {
      assert FrameOk(f, net, nodes, issued);
    }
  }

  lemma RecordIdNonzero(gateway: Service, allowed: set<Book>, r: CommandRecord)
    requires GatewayOk(gateway, allowed) && r in gateway.book.records
    ensures r.commandId != 0
  {
    var i :| 0 <= i < |gateway.book.records| && gateway.book.records[i] == r;
    assert ValidRecord(gateway.book.records[i]);
  }

  lemma MoreFrames(
    full: bool, allowed: set<Book>, gateway: Service, net: set<Frame>, net': set<Frame>, issued: seq<Issue>)
    requires net <= net' && AllowedOk(full, allowed, gateway, net, issued)
    ensures AllowedOk(full, allowed, gateway, net', issued)
  {
    hide Perform, LatestPos;
    forall b | b in allowed && !(!gateway.store.ram.loaded && b == EMPTY_BOOK)
      ensures exists op :: Permitted(full, net', issued, op) && b == Perform(gateway.book, op)
    {
      var op :| Permitted(full, net, issued, op) && b == Perform(gateway.book, op);
      if full && op.DoComplete? {
        var p := LatestPos(issued, op.nodeId);
        var nonce :| ResultFrame(op.nodeId, nonce, op.commandId, op.status, op.data, p) in net;
        assert ResultFrame(op.nodeId, nonce, op.commandId, op.status, op.data, p) in net';
      }
      assert Permitted(full, net', issued, op);
    }
  }

  // ---------------------------------------------------------------- node steps

  lemma {:induction false} ReportedLast(node: byte, initial: Journal.Durable, history: seq<Entry>, issued: seq<Issue>)
    requires HistoryOk(node, initial, history, issued)
    ensures LastPos(history) < |issued|
    ensures
      var last, p := Replay(initial, history).last, LastPos(history);
      if p == -1 then last == initial.last
      else last.Some? && last.value.commandId == issued[p].id && Reported(history, p, CountData(last.value))
  {
    hide CountData, Read32;
    if history != [] {
      var front, last := history[..|history| - 1], history[|history| - 1];
      ReportedLast(node, initial, front, issued);
      if last.effect.Set? {
        assert history[|history| - 1].effect.Set?;
      } else if LastPos(front) != -1 {
        ReportedMore(front, last, LastPos(front), CountData(Replay(initial, front).last.value));
        assert history == front + [last];
      }
    }
  }

  lemma ReportedMore(history: seq<Entry>, entry: Entry, pos: nat, data: seq<byte>)
    requires Reported(history, pos, data)
    ensures Reported(history + [entry], pos, data)
  {
    var i :| 0 <= i < |history| && history[i].effect.Set? && history[i].pos == pos &&
             CountData(history[i].effect.record) == data;
    assert (history + [entry])[i] == history[i];
  }

  /** What a carried-out SET_COUNT leaves, redelivered or new. */
  lemma CommandOutcome(device: Profile.Node, id: uint16, requested: uint32, cut: nat)
    requires Profile.Good(device) && device.running && id != 0
    ensures
      var e := Profile.SetCount(id, requested, cut);
      var before, effect := Journal.Meaning(device.image), Profile.Committed(device, e);
      var again := before.last.Some? && before.last.value.commandId == id;
      && (again ==> effect == Profile.Nothing)
      && (effect == Profile.Nothing || effect == Profile.Set(Journal.AppliedRecord(id, before.count, requested)))
      && (Profile.Step(device, e).running && !again ==> effect.Set?)
  {
    hide Journal.RecoverWrites, Journal.GoodRing, Journal.Settled;
    Journal.ApplyIsAtomic(device.image, id, requested, 0);
    LastIsRedelivered(device.image, id);
  }

  lemma LastIsRedelivered(image: Image, id: uint16)
    requires id != 0
    ensures Journal.Redelivered(image, id) <==>
            Journal.Meaning(image).last.Some? && Journal.Meaning(image).last.value.commandId == id
  {
  }

  /** One committed effect of a node's own: its count, a boot, or a command not
      earlier than the last and near it. */
  lemma DeviceStep(node: byte, n: NodeState, e: Profile.Event, pos: nat, issued: seq<Issue>)
    requires NodeOk(node, n, issued) && IdsInTurn(issued) && !e.Commissioned?
    requires e.SetCount? ==>
               && n.device.running && e.commandId != 0 && pos >= LastPos(n.history)
               && Distinguished(n, e.commandId, pos)
               && AppliedAs(node, Journal.AppliedRecord(e.commandId, 0, e.requested), issued, pos)
    ensures
      var after := StepDevice(n, e, pos);
      && NodeOk(node, after, issued)
      && (!e.SetCount? ==> LastPos(after.history) == LastPos(n.history))
      && (e.SetCount? && after.device.running ==>
            && Journal.Meaning(after.device.image).last.Some?
            && Reported(after.history, pos, CountData(Journal.Meaning(after.device.image).last.value)))
  {
    hide Journal.Meaning, Profile.Step, Profile.Committed, Profile.Good, CountData, IdsInTurn, Read32;
    Profile.StepIsAtomic(n.device, e);
    ReportedLast(node, n.initial, n.history, issued);
    EffectKinds(n.device, e);
    var after := StepDevice(n, e, pos);
    assert after.history[..|n.history|] == n.history;
    if e.SetCount? {
      CommandOutcome(n.device, e.commandId, e.requested, e.cut);
      var last := LastPos(n.history);
      if 0 <= last < pos && issued[last].id == issued[pos].id {
        SameIdSamePlace(issued, last, pos);
      }
    }
    if HistoryOk(node, n.initial, after.history, issued) {
      ReportedLast(node, n.initial, after.history, issued);
    }
  }

  lemma EffectKinds(device: Profile.Node, e: Profile.Event)
    ensures Profile.Committed(device, e).Forgotten? ==> e.Commissioned?
    ensures Profile.Committed(device, e).Set? ==> e.SetCount?
  {
  }

  /** `after` continues `before`: more nonces, a longer history, and an open session
      only as far as no later command was applied. */
  predicate Continues(before: NodeState, after: NodeState) {
    && before.used <= after.used
    && (after.history == before.history || (|after.history| == |before.history| + 1 &&
                                            after.history[..|before.history|] == before.history))
    && (after.session.Some? ==>
          || after.session.value !in before.used
          || (after.session == before.session && LastPos(after.history) == LastPos(before.history)))
  }

  lemma ReportedContinues(before: NodeState, after: NodeState, pos: nat, data: seq<byte>)
    requires Continues(before, after) && Reported(before.history, pos, data)
    ensures Reported(after.history, pos, data)
  {
    hide CountData, LastPos;
    if after.history != before.history {
      ReportedMore(before.history, after.history[|before.history|], pos, data);
      assert after.history == before.history + [after.history[|before.history|]];
    }
  }

  lemma OldFrameOk(f: Frame, net: set<Frame>, net': set<Frame>, nodes: Nodes, node: byte, after: NodeState, issued: seq<Issue>)
    requires node in nodes && FrameOk(f, net, nodes, issued) && Continues(nodes[node], after) && net <= net'
    ensures FrameOk(f, net', nodes[node := after], issued)
  {
    hide LastPos, Reported;
    if f.node == node && f.ResultFrame? && Reported(nodes[node].history, f.pos, f.data) {
      ReportedContinues(nodes[node], after, f.pos, f.data);
    }
  }

  lemma OldRecordsOk(full: bool, book: Book, nodes: Nodes, node: byte, after: NodeState, issued: seq<Issue>)
    requires node in nodes && RecordsOk(full, book, nodes, issued) && Continues(nodes[node], after)
    ensures RecordsOk(full, book, nodes[node := after], issued)
  {
    hide LatestPos, LastPos, Reported;
    forall r | r in book.records
      ensures RecordOk(full, r, nodes[node := after], issued)
    {
      assert RecordOk(full, r, nodes, issued);
      var p := LatestPos(issued, r.nodeId);
      if r.nodeId == node && Reported(nodes[node].history, p, r.result) {
        ReportedContinues(nodes[node], after, p, r.result);
      }
    }
  }

  /** A node's step on itself and the frames it sends. */
  lemma NodeAfterOk(full: bool, s: System, e: Event)
    requires Inv(full, s) && IdsInTurn(s.issued) && Enabled(s, e) && AtNode(e) && RecentEvent(s, e)
    ensures
      var before := s.nodes[e.node];
      var after := NodeAfter(before, e);
      && NodeOk(e.node, after, s.issued) && Continues(before, after)
      && (forall f :: f in Answer(before, e) ==> f.ResultFrame? && FrameOk(f, s.net, s.nodes[e.node := after], s.issued))
  {
    hide RecordsOk, GatewayOk, AllowedOk, Profile.Good, HistoryOk, Replay, LastPos, Reported, CountData, IdsInTurn,
         DeliveriesOk, SessionsOk, Read32;
    hide Profile.Step, Profile.Committed, Journal.Meaning;
    var before := s.nodes[e.node];
    assert NodeOk(e.node, before, s.issued);
    match e {
      case OpenSession(_, _) =>
      case CloseSession(_) =>
      case CountPulse(_, _) =>
        DeviceStep(e.node, before, DeviceEvent(e).value, 0, s.issued);
      case NodeBoot(_, _) =>
        DeviceStep(e.node, before.(session := None), DeviceEvent(e).value, 0, s.issued);
      case ReceiveCommand(node, nonce, id, commandType, arguments, pos, _, _) =>
        assert FrameOk(CommandFrame(node, nonce, id, commandType, arguments, pos), s.net, s.nodes, s.issued);
        assert CommandAt(s.issued, pos, nonce) == CommandFrame(node, nonce, id, commandType, arguments, pos);
        if DeviceEvent(e).Some? {
          DeviceStep(e.node, before.(session := None), DeviceEvent(e).value, pos, s.issued);
        }
    }
  }

  lemma NodeStep(full: bool, s: System, e: Event)
    requires Inv(full, s) && IdsInTurn(s.issued) && Enabled(s, e) && AtNode(e) && RecentEvent(s, e)
    ensures Inv(full, Next(s, e))
  {
    hide RecordsOk, GatewayOk, AllowedOk, NodeOk, FrameOk, NodeAfter, Answer, Continues, LatestPos, IdsInTurn;
    var s', after := Next(s, e), NodeAfter(s.nodes[e.node], e);
    NodeAfterOk(full, s, e);
    OldRecordsOk(full, s.gateway.book, s.nodes, e.node, after, s.issued);
    MoreFrames(full, s.allowed, s.gateway, s.net, s'.net, s.issued);
    forall f | f in s'.net
      ensures FrameOk(f, s'.net, s'.nodes, s.issued)
      ensures f.CommandFrame? ==> f in s.net
    {
      if f in s.net {
        OldFrameOk(f, s.net, s'.net, s.nodes, e.node, after, s.issued);
      } else if f in Answer(s.nodes[e.node], e) {
        AnswerFrame(f, s.net, s'.net, s'.nodes, s.issued);
      } else {
        OpenedFrame(s.nodes, e, s'.net, s.issued);
      }
    }
  }

  lemma AnswerFrame(f: Frame, net: set<Frame>, net': set<Frame>, nodes: Nodes, issued: seq<Issue>)
    requires FrameOk(f, net, nodes, issued) && net <= net'
    ensures FrameOk(f, net', nodes, issued)
  {
    hide LastPos, Reported;
  }

  lemma OpenedFrame(nodes: Nodes, e: Event, net: set<Frame>, issued: seq<Issue>)
    requires e.OpenSession? && e.node in nodes
    ensures FrameOk(ReadyFrame(e.node, e.nonce), net, nodes[e.node := NodeAfter(nodes[e.node], e)], issued)
  {
  }

  // ---------------------------------------------------------------- all runs

  function Run(s: System, events: seq<Event>): System {
    if events == [] then s else Next(Run(s, events[..|events| - 1]), events[|events| - 1])
  }

  predicate Possible(s: System, events: seq<Event>) {
    events == [] ||
    (Possible(s, events[..|events| - 1]) && Enabled(Run(s, events[..|events| - 1]), events[|events| - 1]))
  }

  lemma StepKeepsInv(full: bool, s: System, e: Event)
    requires Inv(full, s) && IdsInTurn(s.issued) && Enabled(s, e)
    requires RecentEvent(s, e) && (full ==> FreshEvent(s, e))
    ensures Inv(full, Next(s, e))
  {
    hide Inv, Enabled, Next, IdsInTurn, RecentEvent, FreshEvent;
    if AtNode(e) {
      NodeStep(full, s, e);
    } else if e.GatewayBoot? {
      BootStep(full, s, e);
    } else if e.AnswerReady? {
      ReadyStep(full, s, e);
    } else {
      GatewayStep(full, s, e);
    }
  }

  /** The gateway starts with an empty book and no deliveries, and nothing on the air,
      as a new one does or one restored from a backup. A node may have any command ID
      on record, from before the restore or from an interrupted change of membership. */
  ghost predicate Initial(s: System) {
    && s.identities.Keys <= s.nodes.Keys
    && s.net == {} && s.issued == []
    && (exists randomId :: randomId != 0 && s.gateway == Booted(s.gateway.store.flash, randomId))
    && s.gateway.book.records == []
    && s.allowed == {Slots.LoadedValue(COMMAND_CODEC, s.gateway.store.flash)}
    && (!s.gateway.store.ram.loaded ==> Slots.LoadedValue(COMMAND_CODEC, s.gateway.store.flash) == EMPTY_BOOK)
    && forall n :: n in s.nodes ==>
                     && Profile.Good(s.nodes[n].device) && s.nodes[n].session == None && s.nodes[n].history == []
                     && s.nodes[n].initial == Journal.Meaning(s.nodes[n].device.image)
  }

  lemma InitialInv(full: bool, s: System)
    requires Initial(s)
    ensures Inv(full, s)
  {
    hide Encode, Decode, Profile.Good, Journal.Meaning, Perform, Slots.LoadedSlot;
    var randomId :| randomId != 0 && s.gateway == Booted(s.gateway.store.flash, randomId);
    var flash := s.gateway.store.flash;
    Slots.BootMatches(COMMAND_CODEC, flash);
    if s.gateway.store.ram.loaded {
      LoadedSlotFound(flash);
      LoadedIsValid(flash);
      OnlyItself(full, s.gateway.book, s.gateway, s.net, s.issued);
    } else {
      EmptyIsValid(randomId);
    }
  }

  lemma LoadedSlotFound(flash: Slots.Flash)
    requires Slots.LoadedRam(COMMAND_CODEC, flash).loaded
    ensures Slots.LoadedSlot(COMMAND_CODEC, flash) >= 0
  {
  }

  /** `full` adds what the book knows of results, under the second hypothesis. */
  lemma {:induction false} RunKeepsInv(full: bool, s: System, events: seq<Event>)
    requires Initial(s) && Possible(s, events) && Recent(s, events) && (full ==> Fresh(s, events))
    ensures Inv(full, Run(s, events)) && IdsInTurn(Run(s, events).issued)
  {
    RunInTurn(s, events);
    TurnOf(Run(s, events));
    hide Inv, Initial, Enabled, Next, IdsInTurn, RecentEvent, FreshEvent, GatewayInv;
    if events == [] {
      InitialInv(full, s);
    } else {
      var before, last := Run(s, events[..|events| - 1]), events[|events| - 1];
      RunKeepsInv(full, s, events[..|events| - 1]);
      StepKeepsInv(full, before, last);
    }
  }

  lemma TurnOf(s: System)
    requires GatewayInv(s)
    ensures IdsInTurn(s.issued)
  {
    hide GatewayOk, AllowedOk, IdAt;
    var first: uint16 :| first != 0 && s.gateway.book.nextCommandId == IdAt(first, |s.issued|) &&
                         forall k :: 0 <= k < |s.issued| ==> s.issued[k].id == IdAt(first, k);
    assert IdsFrom(first, s.issued);
  }

  // ---------------------------------------------------------------- the theorems

  /** How often a history applies the command issued at `pos`. */
  function Applications(history: seq<Entry>, pos: nat): nat {
    if history == [] then 0
    else
      Applications(history[..|history| - 1], pos) +
      if history[|history| - 1].effect.Set? && history[|history| - 1].pos == pos then 1 else 0
  }

  lemma {:induction false} AppliedOnce(node: byte, initial: Journal.Durable, history: seq<Entry>, issued: seq<Issue>, pos: nat)
    requires HistoryOk(node, initial, history, issued)
    ensures Applications(history, pos) <= 1
    ensures Applications(history, pos) == 1 ==> pos <= LastPos(history)
  {
    hide Replay, AppliedAs;
    if history != [] {
      AppliedOnce(node, initial, history[..|history| - 1], issued, pos);
    }
  }

  lemma {:induction false} AppliedWhere(history: seq<Entry>, pos: nat, i: nat)
    requires i < |history| && history[i].effect.Set? && history[i].pos == pos
    ensures Applications(history, pos) >= 1
  {
    if i < |history| - 1 {
      AppliedWhere(history[..|history| - 1], pos, i);
    }
  }

  /** The effect at `i` of a good history: issued there, with its argument, and
      recording the count just before it. */
  lemma {:induction false} AppliedFaithfully(node: byte, initial: Journal.Durable, history: seq<Entry>, issued: seq<Issue>, i: nat)
    requires HistoryOk(node, initial, history, issued) && i < |history| && history[i].effect.Set?
    ensures AppliedAs(node, history[i].effect.record, issued, history[i].pos)
    ensures history[i].effect.record.oldCount == Replay(initial, history[..i]).count
  {
    hide AppliedAs, LastPos;
    var n := |history| - 1;
    if i < n {
      AppliedFaithfully(node, initial, history[..n], issued, i);
      assert history[..n][..i] == history[..i];
    }
  }

  /** Positions along a good history only grow. */
  lemma {:induction false} PositionsGrow(
    node: byte, initial: Journal.Durable, history: seq<Entry>, issued: seq<Issue>, i: nat, j: nat)
    requires HistoryOk(node, initial, history, issued) && i < j < |history|
    requires history[i].effect.Set? && history[j].effect.Set?
    ensures history[i].pos < history[j].pos
  {
    hide Replay, AppliedAs;
    var front := history[..|history| - 1];
    if j < |front| {
      PositionsGrow(node, initial, front, issued, i, j);
    } else {
      UpToLast(node, initial, front, issued, i);
    }
  }

  lemma {:induction false} UpToLast(node: byte, initial: Journal.Durable, history: seq<Entry>, issued: seq<Issue>, i: nat)
    requires HistoryOk(node, initial, history, issued) && i < |history| && history[i].effect.Set?
    ensures history[i].pos <= LastPos(history)
  {
    hide Replay, AppliedAs;
    if i < |history| - 1 {
      UpToLast(node, initial, history[..|history| - 1], issued, i);
    }
  }

  /** In every run, however long, in which each SET_COUNT reaches its node fewer than
      65535 issues after the one the node applied last, and the first one not with the ID
      on record: a node's EEPROM means exactly its history; no issued command is in it
      twice, and they stand in issue order; every one that is was issued to this node
      there, with that argument, and records the count just before it. */
  lemma ExactlyOnceTheorem(s: System, events: seq<Event>)
    requires Initial(s) && Possible(s, events) && Recent(s, events)
    ensures
      var after := Run(s, events);
      forall n :: n in after.nodes ==>
                    var state := after.nodes[n];
                    && Journal.Meaning(state.device.image) == Replay(state.initial, state.history)
                    && (forall pos :: 0 <= pos < |after.issued| ==> Applications(state.history, pos) <= 1)
                    && (forall i :: 0 <= i < |state.history| && state.history[i].effect.Set? ==>
                                      var Entry(effect, pos) := state.history[i];
                                      && AppliedAs(n, effect.record, after.issued, pos)
                                      && effect.record.oldCount == Replay(state.initial, state.history[..i]).count)
                    && (forall i, j :: 0 <= i < j < |state.history| && state.history[i].effect.Set? && state.history[j].effect.Set? ==>
                                         state.history[i].pos < state.history[j].pos)
  {
    var after := Run(s, events);
    RunKeepsInv(false, s, events);
    hide Initial, Possible, Run, Recent, Journal.Meaning, Profile.Good, GatewayOk, AllowedOk, NetOk, Replay, AppliedAs, IdsInTurn,
         RecordsOk, DeliveriesOk, LastPos;
    forall n | n in after.nodes
      ensures HistoryOk(n, after.nodes[n].initial, after.nodes[n].history, after.issued)
      ensures Journal.Meaning(after.nodes[n].device.image) == Replay(after.nodes[n].initial, after.nodes[n].history)
      ensures forall pos :: 0 <= pos < |after.issued| ==> Applications(after.nodes[n].history, pos) <= 1
    {
      assert NodeOk(n, after.nodes[n], after.issued);
      forall pos | 0 <= pos < |after.issued|
        ensures Applications(after.nodes[n].history, pos) <= 1
      {
        AppliedOnce(n, after.nodes[n].initial, after.nodes[n].history, after.issued, pos);
      }
    }
    forall n, i | n in after.nodes && 0 <= i < |after.nodes[n].history| && after.nodes[n].history[i].effect.Set?
      ensures AppliedAs(n, after.nodes[n].history[i].effect.record, after.issued, after.nodes[n].history[i].pos)
      ensures after.nodes[n].history[i].effect.record.oldCount ==
              Replay(after.nodes[n].initial, after.nodes[n].history[..i]).count
    {
      AppliedFaithfully(n, after.nodes[n].initial, after.nodes[n].history, after.issued, i);
    }
    forall n, i, j | n in after.nodes && 0 <= i < j < |after.nodes[n].history| &&
                     after.nodes[n].history[i].effect.Set? && after.nodes[n].history[j].effect.Set?
      ensures after.nodes[n].history[i].pos < after.nodes[n].history[j].pos
    {
      PositionsGrow(n, after.nodes[n].initial, after.nodes[n].history, after.issued, i, j);
    }
  }

  /** If moreover no session is answered with commands 65535 or more issues apart, a
      record of the book is its node's latest command, and one shown completed and
      applied has exactly the result of the one application of that very command. */
  lemma CompletedMeansApplied(s: System, events: seq<Event>, r: CommandRecord)
    requires Initial(s) && Possible(s, events) && Recent(s, events) && Fresh(s, events)
    requires r in Run(s, events).gateway.book.records
    ensures
      var after := Run(s, events);
      var pos := LatestPos(after.issued, r.nodeId);
      && pos >= 0 && after.issued[pos] == IssueOf(r)
      && (r.state == COMPLETED && r.commandType == SET_COUNT && r.status == APPLIED ==>
            && r.nodeId in after.nodes && Applications(after.nodes[r.nodeId].history, pos) == 1
            && Reported(after.nodes[r.nodeId].history, pos, r.result))
  {
    var after := Run(s, events);
    RunKeepsInv(true, s, events);
    ExactlyOnceTheorem(s, events);
    hide Initial, Possible, Run, Recent, Fresh, Journal.Meaning, GatewayOk, AllowedOk, NetOk, Replay, AppliedAs, IdsInTurn,
         NodesOk, DeliveriesOk, LastPos, LatestPos;
    assert RecordOk(true, r, after.nodes, after.issued);
    if r.state == COMPLETED && r.commandType == SET_COUNT && r.status == APPLIED {
      var history, pos := after.nodes[r.nodeId].history, LatestPos(after.issued, r.nodeId);
      var i :| 0 <= i < |history| && history[i].effect.Set? && history[i].pos == pos &&
               CountData(history[i].effect.record) == r.result;
      AppliedWhere(history, pos, i);
    }
  }

  // ---------------------------------------------------------------- where different IDs come from

  /** IDs are handed out in turn from some first one; before anything is stored a
      reboot may still choose another. */
  ghost predicate InTurn(s: System) {
    && (!s.gateway.store.ram.loaded ==> s.issued == [])
    && exists first: uint16 ::
         && first != 0 && s.gateway.book.nextCommandId == IdAt(first, |s.issued|)
         && forall k :: 0 <= k < |s.issued| ==> s.issued[k].id == IdAt(first, k)
  }

  /** A change of the book issues the next ID or none. */
  lemma ChangeInTurn(book: Book, op: Op, issued: seq<Issue>, first: uint16)
    requires ValidBook(book) && first != 0 && book.nextCommandId == IdAt(first, |issued|)
    requires forall k :: 0 <= k < |issued| ==> issued[k].id == IdAt(first, k)
    ensures
      var after := Perform(book, op);
      var issued' := IssuedAfter(issued, book, after);
      && after.nextCommandId == IdAt(first, |issued'|)
      && forall k :: 0 <= k < |issued'| ==> issued'[k].id == IdAt(first, k)
  {
    hide IdAt, Perform, Queue, ValidBook;
    NextIdDiffers(book.nextCommandId);
    IdAtNext(first, |issued|);
    if op.DoQueue? &&
       Queue(book, op.deviceUid, op.nodeId, op.commandType, op.arguments, op.nowUnixMs).0 == CommandBook.Queued {
      QueuedRecords(book, op);
    } else {
      OthersKeepNextId(book, op);
    }
  }

  ghost predicate GatewayInv(s: System) {
    GatewayOk(s.gateway, s.allowed) && AllowedOk(false, s.allowed, s.gateway, s.net, s.issued) && InTurn(s)
  }

  lemma BootInTurn(s: System, e: Event)
    requires GatewayInv(s) && Enabled(s, e) && e.GatewayBoot?
    ensures GatewayInv(Next(s, e))
  {
    hide Perform, Encode, Decode, ValidBook, IdAt, LatestPos;
    var flash, s' := s.gateway.store.flash, Next(s, e);
    var value := Slots.LoadedValue(COMMAND_CODEC, flash);
    Slots.BootMatches(COMMAND_CODEC, flash);
    LoadedIsAllowed(s.gateway.store, s.allowed);
    assert s'.net == s.net;
    if s'.gateway.store.ram.loaded {
      LoadedIsValid(flash);
      OnlyItself(false, value, s'.gateway, s.net, s'.issued);
      if value == EMPTY_BOOK && !s.gateway.store.ram.loaded {
        IdAtNext(1, 0);
      } else {
        var op :| Permitted(false, s.net, s.issued, op) && value == Perform(s.gateway.book, op);
        var first: uint16 :| first != 0 && s.gateway.book.nextCommandId == IdAt(first, |s.issued|) &&
                             forall k :: 0 <= k < |s.issued| ==> s.issued[k].id == IdAt(first, k);
        ChangeInTurn(s.gateway.book, op, s.issued, first);
      }
    } else {
      EmptyIsValid(e.randomId);
      IdAtNext(e.randomId, 0);
    }
  }

  lemma CommitInTurn(s: System, e: Event)
    requires GatewayInv(s) && Enabled(s, e) && !AtNode(e) && !e.GatewayBoot?
    ensures GatewayInv(Next(s, e))
  {
    hide GatewayOk, Slots.Save, Perform, GatewayAfter, Attempted, IdAt, AllowedOk, LatestPos;
    var s', op := Next(s, e), Attempted(s, e);
    AttemptCommits(s, e);
    NextIdDiffers(s.gateway.book.nextCommandId);
    var first: uint16 :| first != 0 && s.gateway.book.nextCommandId == IdAt(first, |s.issued|) &&
                         forall k :: 0 <= k < |s.issued| ==> s.issued[k].id == IdAt(first, k);
    if op.None? {
      SameIssues(s.issued, s.gateway.book);
      SameGateway(false, s.gateway, s'.gateway, s.allowed, s.net, s.issued);
      MoreFrames(false, s.allowed, s'.gateway, s.net, s'.net, s.issued);
    } else {
      var candidate := Perform(s.gateway.book, op.value);
      var done := Commit(s.gateway, candidate, EnvOf(e)).1;
      CommitOk(false, s, op.value, EnvOf(e), s'.allowed);
      SameGateway(false, done, s'.gateway, s'.allowed, s.net, s'.issued);
      MoreFrames(false, s'.allowed, s'.gateway, s.net, s'.net, s'.issued);
      BookValid(s.gateway, s.allowed);
      ChangeInTurn(s.gateway.book, op.value, s.issued, first);
      CommitLoads(s.gateway, candidate, EnvOf(e));
    }
  }

  lemma CommitLoads(gateway: Service, candidate: Book, env: Slots.Env)
    ensures
      var (ok, after) := Commit(gateway, candidate, env);
      && (ok ==> after.store.ram.loaded && after.book == candidate)
      && (!ok ==> after.store.ram.loaded == gateway.store.ram.loaded && after.book == gateway.book)
  {
    hide Encode, Decode;
  }

  /** Whatever the radio and the supply do, the book's IDs follow the issue order. */
  lemma {:induction false} RunInTurn(s: System, events: seq<Event>)
    requires Initial(s) && Possible(s, events)
    ensures GatewayInv(Run(s, events))
  {
    if events == [] {
      hide Encode, Decode;
      InitialInv(false, s);
      IdAtNext(s.gateway.book.nextCommandId, 0);
    } else {
      hide GatewayInv, Initial, GatewayAfter, AllowedAfter;
      var before, last := Run(s, events[..|events| - 1]), events[|events| - 1];
      RunInTurn(s, events[..|events| - 1]);
      if AtNode(last) {
        NodeInTurn(before, last);
      } else if last.GatewayBoot? {
        BootInTurn(before, last);
      } else {
        CommitInTurn(before, last);
      }
    }
  }

  lemma NodeInTurn(s: System, e: Event)
    requires GatewayInv(s) && AtNode(e)
    ensures GatewayInv(Next(s, e))
  {
    hide GatewayOk, AllowedOk, IdAt;
    MoreFrames(false, s.allowed, s.gateway, s.net, Next(s, e).net, s.issued);
  }

  // ---------------------------------------------------------------- the hypotheses

  lemma IssuesGrow(s: System, e: Event)
    ensures s.issued <= Next(s, e).issued
  {
    hide GatewayAfter, AllowedAfter, NodeAfter, Answer, Reply;
  }

  /** Any two commands issued to one node lie near each other. */
  predicate Close(issued: seq<Issue>) {
    forall i, j :: 0 <= i <= j < |issued| && issued[i].node == issued[j].node ==> Near(i, j)
  }

  /** No command is issued to a node with the ID that node has on record. */
  predicate NoneOnRecord(nodes: Nodes, issued: seq<Issue>) {
    forall p :: 0 <= p < |issued| && issued[p].node in nodes ==> !Records(nodes[issued[p].node].initial, issued[p].id)
  }

  lemma RecordsStay(s: System, e: Event)
    ensures Next(s, e).nodes.Keys == s.nodes.Keys
    ensures forall n :: n in s.nodes ==> Next(s, e).nodes[n].initial == s.nodes[n].initial
  {
    hide GatewayAfter, AllowedAfter, Answer, Reply, IssuedAfter;
  }

  lemma {:induction false} RecordsStayOverRun(s: System, events: seq<Event>)
    ensures Run(s, events).nodes.Keys == s.nodes.Keys
    ensures forall n :: n in s.nodes ==> Run(s, events).nodes[n].initial == s.nodes[n].initial
  {
    hide Next;
    if events != [] {
      RecordsStayOverRun(s, events[..|events| - 1]);
      RecordsStay(Run(s, events[..|events| - 1]), events[|events| - 1]);
    }
  }

  /** A run that never issues two commands to one node 65535 or more issues apart, nor
      one with the ID on record, meets both hypotheses. */
  lemma {:induction false} CloseRunsQualify(s: System, events: seq<Event>)
    requires Initial(s) && Possible(s, events)
    requires Close(Run(s, events).issued) && NoneOnRecord(s.nodes, Run(s, events).issued)
    ensures Recent(s, events) && Fresh(s, events)
  {
    if events != [] {
      hide Initial, Next, Enabled, Close, RecentEvent, FreshEvent;
      var front, last := events[..|events| - 1], events[|events| - 1];
      var before := Run(s, front);
      IssuesGrow(before, last);
      ClosePrefix(before.issued, Run(s, events).issued);
      RecordsStayOverRun(s, front);
      assert forall p :: 0 <= p < |before.issued| ==> before.issued[p] == Run(s, events).issued[p];
      CloseRunsQualify(s, front);
      RunKeepsInv(true, s, front);
      CloseEvents(before, last);
    }
  }

  lemma ClosePrefix(a: seq<Issue>, b: seq<Issue>)
    requires a <= b && Close(b)
    ensures Close(a)
  {
    assert forall i :: 0 <= i < |a| ==> a[i] == b[i];
  }

  lemma CloseEvents(s: System, e: Event)
    requires Inv(true, s) && Enabled(s, e) && Close(s.issued) && NoneOnRecord(s.nodes, s.issued)
    ensures RecentEvent(s, e) && FreshEvent(s, e)
  {
    hide GatewayOk, AllowedOk, RecordsOk, DeliveriesOk, SessionsOk, LatestPos, LastPos, HistoryOk, Reported;
    if e.ReceiveCommand? {
      var n := s.nodes[e.node];
      assert NodeOk(e.node, n, s.issued);
      LastPosIssued(e.node, n.initial, n.history, s.issued);
      assert FrameOk(CommandFrame(e.node, e.nonce, e.id, e.commandType, e.arguments, e.pos), s.net, s.nodes, s.issued);
    }
    if e.AnswerReady? {
      forall f | f in s.net && f.CommandFrame? && f.node == e.node && f.nonce == e.nonce
        ensures Near(f.pos, LatestPos(s.issued, e.node))
      {
        assert FrameOk(f, s.net, s.nodes, s.issued);
      }
    }
  }

  /** Nodes without a command ID on record have no such command. */
  lemma UnmarkedHaveNone(s: System, events: seq<Event>)
    requires Initial(s) && Possible(s, events)
    requires forall n :: n in s.nodes ==> Journal.Unmarked(s.nodes[n].initial)
    ensures NoneOnRecord(s.nodes, Run(s, events).issued)
  {
    RunInTurn(s, events);
    TurnOf(Run(s, events));
    hide Initial, GatewayInv, Run, Possible;
    var issued := Run(s, events).issued;
    var first: uint16 :| IdsFrom(first, issued);
  }

  /** Exactly when a command is lost. In every such run, a SET_COUNT that reaches its
      node is applied, if the supply survives its commit byte, exactly if its ID is not
      the one on record; with that ID it changes nothing and is answered as applied, with
      the older result. Before a command was applied in the run, the ID on record is the
      one the node started with. */
  lemma LostExactlyIfOnRecord(s: System, events: seq<Event>, e: Event)
    requires Initial(s) && Possible(s, events) && Recent(s, events) && Enabled(Run(s, events), e)
    requires e.ReceiveCommand? && e.commandType == SET_COUNT && |e.arguments| == 4
    ensures Outcome(Run(s, events).nodes[e.node], e)
    ensures e.node in s.nodes
    ensures LastPos(Run(s, events).nodes[e.node].history) == -1 ==>
              Journal.Meaning(Run(s, events).nodes[e.node].device.image).last == s.nodes[e.node].initial.last
  {
    RunKeepsInv(false, s, events);
    RecordsStayOverRun(s, events);
    hide Initial, Run, Possible, Recent, Inv, Outcome, LastPos, Journal.Meaning, IdsInTurn;
    OutcomeHere(Run(s, events), e);
  }

  lemma OutcomeHere(t: System, e: Event)
    requires Inv(false, t) && Enabled(t, e)
    requires e.ReceiveCommand? && e.commandType == SET_COUNT && |e.arguments| == 4
    ensures
      var n := t.nodes[e.node];
      && Outcome(n, e)
      && (LastPos(n.history) == -1 ==> Journal.Meaning(n.device.image).last == n.initial.last)
  {
    hide RecordsOk, GatewayOk, AllowedOk, DeliveriesOk, SessionsOk, LastPos, Reported, HistoryOk, Replay, Journal.Meaning,
         Profile.Good, CountData, Read32, Outcome, AppliedAs;
    var n := t.nodes[e.node];
    assert NodeOk(e.node, n, t.issued);
    assert FrameOk(CommandFrame(e.node, e.nonce, e.id, e.commandType, e.arguments, e.pos), t.net, t.nodes, t.issued);
    ReportedLast(e.node, n.initial, n.history, t.issued);
    CommandOutcomes(n, e);
  }

  /** A received SET_COUNT applied, or lost to the ID on record. */
  predicate Outcome(n: NodeState, e: Event)
    requires e.ReceiveCommand? && e.commandType == SET_COUNT && |e.arguments| == 4
  {
    var before, after := Journal.Meaning(n.device.image), Journal.Meaning(NodeAfter(n, e).device.image);
    if Records(before, e.id) then
      && after == before
      && Answer(n, e) == {ResultFrame(e.node, e.nonce, e.id, APPLIED, CountData(before.last.value), e.pos)}
    else if e.cut < Journal.APPLY_COMMIT then after == before
    else
      var requested := Read32(e.arguments);
      after == Journal.Durable(requested, Some(Journal.AppliedRecord(e.id, before.count, requested)))
  }

  lemma CommandOutcomes(n: NodeState, e: Event)
    requires e.ReceiveCommand? && e.commandType == SET_COUNT && |e.arguments| == 4
    requires Profile.Good(n.device) && n.device.running && e.id != 0
    ensures Outcome(n, e)
  {
    hide Journal.Meaning, Profile.Good, Profile.Step, Profile.Committed, CountData, Read32;
    CommandMeaning(n.device, e.id, Read32(e.arguments), e.cut);
    if Records(Journal.Meaning(n.device.image), e.id) {
      ReusedIdIsLost(n, e.node, e.nonce, e.id, e.arguments, e.pos, e.cut, e.info);
    }
  }

  lemma CommandMeaning(device: Profile.Node, id: uint16, requested: uint32, cut: nat)
    requires Profile.Good(device) && device.running && id != 0
    ensures
      var before := Journal.Meaning(device.image);
      Journal.Meaning(Profile.Step(device, Profile.SetCount(id, requested, cut)).image) ==
        if Records(before, id) || cut < Journal.APPLY_COMMIT then before
        else Journal.Durable(requested, Some(Journal.AppliedRecord(id, before.count, requested)))
  {
    hide Journal.GoodRing, Journal.Settled, Journal.Meaning, Profile.Step, Profile.Writes;
    Profile.StepIsAtomic(device, Profile.SetCount(id, requested, cut));
    LastIsRedelivered(device.image, id);
  }

  /** The first hypothesis is needed: a command that reuses the ID its node recorded
      last changes nothing, yet is answered as applied, with the older result. */
  lemma ReusedIdIsLost(
    n: NodeState, node: byte, nonce: uint32, id: uint16, arguments: seq<byte>, pos: nat, cut: nat, info: seq<byte>)
    requires Profile.Good(n.device) && n.device.running && id != 0 && |arguments| == 4
    requires
      var last := Journal.Meaning(n.device.image).last;
      last.Some? && last.value.commandId == id
    ensures
      var e := ReceiveCommand(node, nonce, id, SET_COUNT, arguments, pos, cut, info);
      var before, after := Journal.Meaning(n.device.image), NodeAfter(n, e);
      && Journal.Meaning(after.device.image) == before
      && Answer(n, e) == {ResultFrame(node, nonce, id, APPLIED, CountData(before.last.value), pos)}
  {
    hide Profile.Step, Profile.Committed, Journal.Meaning, CountData, Profile.Good, Read32;
    Profile.RecordedIdIsDone(n.device, id, Read32(arguments), cut);
  }

  /** So is the second: a result with the nonce and ID of the latest delivery completes
      the pending command, whichever command it answers. */
  lemma StaleResultCompletes(s: System, e: Event)
    requires Enabled(s, e) && e.AcceptResult? && e.open && e.status == APPLIED && |e.data| == 8
    requires s.gateway.deliveries[e.node] == Delivery(e.nonce, e.id)
    requires
      var r := Find(s.gateway.book, e.node);
      && r.Some? && r.value.state == PENDING && r.value.commandId == e.id && r.value.commandType == SET_COUNT
      && IdentityOf(s, e.node) == Some(Identity(r.value.deviceUid, PULSE_COUNTER_PROFILE))
    ensures
      var op := Attempted(s, e);
      op.Some? && Find(Perform(s.gateway.book, op.value), e.node).Some? &&
      var r := Find(Perform(s.gateway.book, op.value), e.node).value;
      r.state == COMPLETED && r.status == APPLIED && r.result == e.data && r.commandId == e.id
  {
    var index := IndexOf(s.gateway.book.records, e.node);
    var done := CompletedRecord(s.gateway.book.records[index], e.status, e.data, e.now);
    assert done.result == e.data;
    SameIndex(s.gateway.book.records, done, e.node, 0);
  }

  lemma {:induction false} SameIndex(records: seq<CommandRecord>, r: CommandRecord, node: byte, from: nat)
    requires from <= |records| && r.nodeId == node && IndexFrom(records, node, from) >= 0
    ensures IndexFrom(records[IndexFrom(records, node, from) := r], node, from) == IndexFrom(records, node, from)
    decreases |records| - from
  {
    if records[from].nodeId != node {
      SameIndex(records, r, node, from + 1);
    }
  }
}
