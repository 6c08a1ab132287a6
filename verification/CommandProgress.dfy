/** What the command protocol achieves when nothing is lost: from any reachable state, one
    session settles a pending SET_COUNT at the node and in the book. */
module CommandProgress {
  import opened Bytes
  import opened Protocol
  import opened Options
  import opened CommandBook
  import opened CommandService
  import opened ExactlyOnce
  import Slots = DualSlotStore
  import Journal = SetCountJournal
  import Profile = CounterProfile

  /** The node listens and has not used the nonce; the book holds the command for it. */
  predicate Waiting(s: System, node: byte, nonce: uint32, r: CommandRecord) {
    && node in s.nodes && node < NODE_ID_SLOTS && s.nodes[node].device.running && s.nodes[node].session.None?
    && nonce !in s.nodes[node].used
    && r in s.gateway.book.records && PendingFor(r, node, IdentityOf(s, node)) && r.commandType == SET_COUNT
  }

  /** The command is settled: the node has its record, and the book its result. */
  predicate SettledAs(s: System, t: System, node: byte, r: CommandRecord) {
    && node in s.nodes && node in t.nodes && t.nodes[node].device.running
    && var before, after := Journal.Meaning(s.nodes[node].device.image), Journal.Meaning(t.nodes[node].device.image);
       && after.last.Some? && after.last.value.commandId == r.commandId
       && (if Records(before, r.commandId) then after == before
           else
             var requested := Read32(r.arguments[..4]);
             after == Journal.Durable(requested, Some(Journal.AppliedRecord(r.commandId, before.count, requested))))
       && var found := Find(t.gateway.book, node);
          && found.Some? && found.value.state == COMPLETED && found.value.status == APPLIED
          && found.value.commandId == r.commandId && found.value.arguments == r.arguments
          && found.value.resultSize == 8 && found.value.result == CountData(after.last.value)
  }

  /** Opening a session and the gateway's delivery. */
  lemma Delivered(s: System, node: byte, nonce: uint32, r: CommandRecord) returns (t: System, pos: nat)
    requires Inv(false, s) && IdsInTurn(s.issued) && Waiting(s, node, nonce, r)
    ensures
      var open, answer := OpenSession(node, nonce), AnswerReady(node, nonce);
      && Enabled(s, open) && Enabled(Next(s, open), answer) && t == Next(Next(s, open), answer)
    ensures Inv(false, t) && node in t.nodes && t.nodes[node].device == s.nodes[node].device
    ensures t.nodes[node].session == Some(nonce) && t.gateway.book == s.gateway.book && t.identities == s.identities
    ensures t.gateway.deliveries[node] == Delivery(nonce, r.commandId)
    ensures CommandFrame(node, nonce, r.commandId, SET_COUNT, r.arguments[..4], pos) in t.net
  {
    hide Inv, IdsInTurn, Ready, ReadyAnswered, Carries, LatestPos;
    var open, answer := OpenSession(node, nonce), AnswerReady(node, nonce);
    var listening := Next(s, open);
    StepKeepsInv(false, s, open);
    StepKeepsInv(false, listening, answer);
    t := Next(listening, answer);
    BookOf(s);
    ReadyMeaning(listening.gateway, IdentityOf(listening, node), node, nonce);
    ReadyReply(false, listening, answer);
    DeliveredWhole(listening, node, nonce, r);
    ReadyUnchanged(listening, answer);
    pos := LatestPos(s.issued, node);
  }

  lemma BookOf(s: System)
    requires Inv(false, s)
    ensures ValidBook(s.gateway.book)
  {
    hide NodesOk, NetOk, RecordsOk, AllowedOk, DeliveriesOk, ValidBook, Slots.Matches;
  }

  /** The one pending record of the node is what the reply carries. */
  lemma DeliveredWhole(s: System, node: byte, nonce: uint32, r: CommandRecord)
    requires ValidBook(s.gateway.book) && node < NODE_ID_SLOTS
    requires r in s.gateway.book.records && PendingFor(r, node, IdentityOf(s, node)) && r.commandType == SET_COUNT
    ensures
      var (reply, after) := Ready(s.gateway, IdentityOf(s, node), node, nonce);
      && reply == Deliver(nonce, r.commandId, r.commandType, r.arguments[..4])
      && after.deliveries == s.gateway.deliveries[node := Delivery(nonce, r.commandId)]
  {
    hide Ready, IndexFrom;
    var b := s.gateway.book;
    var (reply, after) := Ready(s.gateway, IdentityOf(s, node), node, nonce);
    ReadyMeaning(s.gateway, IdentityOf(s, node), node, nonce);
    var k :| 0 <= k < |b.records| && b.records[k] == r;
    assert ValidRecord(b.records[k]);
    hide ValidRecord;
    forall i | 0 <= i < |b.records| && PendingFor(b.records[i], node, IdentityOf(s, node))
      ensures b.records[i] == r
    {
    }
    assert reply.Deliver?;
    assert Carries(reply, r);
    assert reply.arguments == r.arguments[..4];
  }

  /** The node carries the command out, whatever is on record, and answers. */
  lemma CarriedOut(s: System, node: byte, nonce: uint32, id: uint16, arguments: seq<byte>, pos: nat)
    returns (e: Event, t: System)
    requires Inv(false, s) && node in s.nodes && s.nodes[node].device.running && s.nodes[node].session == Some(nonce)
    requires CommandFrame(node, nonce, id, SET_COUNT, arguments, pos) in s.net && |arguments| == 4
    ensures Enabled(s, e) && t == Next(s, e) && t.gateway == s.gateway && t.identities == s.identities
    ensures node in t.nodes && t.nodes[node].device.running
    ensures
      var before, after := Journal.Meaning(s.nodes[node].device.image), Journal.Meaning(t.nodes[node].device.image);
      var requested := Read32(arguments);
      && after.last.Some? && after.last.value.commandId == id
      && (if Records(before, id) then after == before
          else after == Journal.Durable(requested, Some(Journal.AppliedRecord(id, before.count, requested))))
      && ResultFrame(node, nonce, id, APPLIED, CountData(after.last.value), pos) in t.net
  {
    hide Inv, Journal.Meaning, CountData, Read32, Profile.Committed;
    var n := s.nodes[node];
    var writes := Profile.Writes(n.device, Profile.SetCount(id, Read32(arguments), 0));
    e := ReceiveCommand(node, nonce, id, SET_COUNT, arguments, pos, |writes| + Journal.APPLY_COMMIT, []);
    t := Next(s, e);
    OutcomeHere(s, e);
    assert Profile.Writes(n.device, DeviceEvent(e).value) == writes;
    hide Profile.Writes;
  }

  /** The gateway takes the result, saves it and shows it. */
  lemma Taken(s: System, node: byte, nonce: uint32, r: CommandRecord, data: seq<byte>, pos: nat, now: uint64)
    returns (e: Event, t: System)
    requires ValidBook(s.gateway.book) && node < NODE_ID_SLOTS && |data| == 8
    requires r in s.gateway.book.records && PendingFor(r, node, IdentityOf(s, node)) && r.commandType == SET_COUNT
    requires s.gateway.deliveries[node] == Delivery(nonce, r.commandId)
    requires ResultFrame(node, nonce, r.commandId, APPLIED, data, pos) in s.net
    ensures Enabled(s, e) && t == Next(s, e) && t.nodes == s.nodes
    ensures Find(t.gateway.book, node) == Some(r.(
              state := COMPLETED, status := APPLIED, resultSize := 8, result := Padded(data), completedAtUnixMs := now))
  {
    hide ValidBook, ResultArrived, IndexFrom, AllowedAfter, IssuedAfter;
    var env := Slots.Env(Slots.Written, true, true);
    e := AcceptResult(node, nonce, r.commandId, APPLIED, data, pos, true, true, now, env);
    t := Next(s, e);
    ResultMeaning(s.gateway, IdentityOf(s, node), node, nonce, r.commandId, APPLIED, data, true, true, now, env);
    var b := s.gateway.book;
    var i :| 0 <= i < |b.records| && b.records[i] == r;
    assert Settles(s.gateway, IdentityOf(s, node), node, nonce, r.commandId, APPLIED, data, true, true, b.records[i]);
    SettledFinds(b, i, t.gateway.book, APPLIED, data, now);
  }

  lemma SettledFinds(b: Book, i: nat, after: Book, status: byte, data: seq<byte>, now: uint64)
    requires ValidBook(b) && i < |b.records| && |data| <= 8 && Settled(b, i, after, status, data, now)
    ensures Find(after, b.records[i].nodeId) == Some(after.records[i])
  {
    hide ValidRecord, IndexFrom, Padded;
    var j := IndexOf(after.records, b.records[i].nodeId);
    assert after.records[i].nodeId == b.records[i].nodeId;
    assert after.records[j].nodeId == b.records[j].nodeId;
  }

  /** In every run that meets the first hypothesis, a pending SET_COUNT whose node listens
      is settled by four events: the session, the delivery, the command and the result.
      The node then has its count and record, unless the ID was on record already, and
      the book shows the command completed with exactly the node's result. */
  lemma SessionSettles(s: System, events: seq<Event>, node: byte, nonce: uint32, r: CommandRecord, now: uint64)
    returns (session: seq<Event>)
    requires Initial(s) && Possible(s, events) && Recent(s, events) && Waiting(ExactlyOnce.Run(s, events), node, nonce, r)
    ensures |session| == 4 && Possible(s, events + session)
    ensures SettledAs(ExactlyOnce.Run(s, events), ExactlyOnce.Run(s, events + session), node, r)
  {
    hide Initial, Possible, Recent, ExactlyOnce.Run, Inv, IdsInTurn, Journal.Meaning, CountData, Read32, Enabled, Next, IdentityOf;
    RunKeepsInv(false, s, events);
    var before := ExactlyOnce.Run(s, events);
    var delivered, pos := Delivered(before, node, nonce, r);
    BookOf(delivered);
    var e, done := CarriedOut(delivered, node, nonce, r.commandId, r.arguments[..4], pos);
    var data := CountData(Journal.Meaning(done.nodes[node].device.image).last.value);
    DataSize(Journal.Meaning(done.nodes[node].device.image).last.value);
    SameIdentity(before, done, node);
    var f, t := Taken(done, node, nonce, r, data, pos, now);
    session := [OpenSession(node, nonce), AnswerReady(node, nonce), e, f];
    FourMore(s, events, session);
    assert Padded(data) == data;
  }

  lemma SameIdentity(s: System, t: System, node: byte)
    requires s.identities == t.identities
    ensures IdentityOf(s, node) == IdentityOf(t, node)
  {
  }

  lemma DataSize(record: Journal.AppliedRecord)
    ensures |CountData(record)| == 8
  {
  }

  lemma OneMore(s: System, events: seq<Event>, e: Event)
    ensures ExactlyOnce.Run(s, events + [e]) == Next(ExactlyOnce.Run(s, events), e)
    ensures Possible(s, events + [e]) <==> Possible(s, events) && Enabled(ExactlyOnce.Run(s, events), e)
  {
    hide Next, Enabled;
    assert (events + [e])[..|events|] == events;
  }

  lemma FourMore(s: System, events: seq<Event>, more: seq<Event>)
    requires |more| == 4 && Possible(s, events)
    ensures
      var a := ExactlyOnce.Run(s, events);
      var b := Next(a, more[0]);
      var c := Next(b, more[1]);
      var d := Next(c, more[2]);
      && (Enabled(a, more[0]) && Enabled(b, more[1]) && Enabled(c, more[2]) && Enabled(d, more[3]) ==>
            Possible(s, events + more))
      && ExactlyOnce.Run(s, events + more) == Next(d, more[3])
  {
    hide Next, Enabled, ExactlyOnce.Run, Possible;
    OneMore(s, events, more[0]);
    OneMore(s, events + [more[0]], more[1]);
    OneMore(s, events + [more[0]] + [more[1]], more[2]);
    OneMore(s, events + [more[0]] + [more[1]] + [more[2]], more[3]);
    assert events + [more[0]] + [more[1]] + [more[2]] + [more[3]] == events + more;
  }
}
