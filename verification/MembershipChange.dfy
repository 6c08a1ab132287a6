/** The node's main loop where commissioning meets the counter: the round that makes a
    membership active also forgets the command ID the one before it left behind, and
    the supply can fail in between. */
module MembershipChange {
  import opened Bytes
  import opened Protocol
  import opened Options
  import opened Eeprom
  import opened CommissioningFrames
  import opened CommissioningNode
  import opened SetCountJournal
  import Crc
  import Config = NetworkConfigStore
  import Ring = CounterRing
  import Results = SetCountStore
  import Counter = CounterProfile

  predicate Active(image: Image) {
    Config.Loaded(image).Some? && Config.Loaded(image).value.state.Active?
  }

  predicate Marked(image: Image) {
    !Unmarked(Meaning(image))
  }

  /** What the radio delivers in one round. */
  datatype Round = Round(nonce: uint32, reply: Window<JoinAccept>, windows: seq<Window<JoinConfirm>>)

  function JoinWrites(image: Image, deviceUid: Uid, round: Round): seq<Write> {
    AdvanceWrites(image, deviceUid, round.nonce, round.reply, round.windows)
  }

  /** The byte updates of one turn of the loop on a node without an active membership. */
  function RoundWrites(image: Image, deviceUid: Uid, round: Round): seq<Write> {
    if Active(image) then []
    else
      var join := JoinWrites(image, deviceUid, round);
      var joined := Apply(image, join);
      join + if Active(joined) then ForgetWrites(joined, Meaning(joined).count) else []
  }

  /** The handshake of the round runs to its end. */
  predicate Joins(image: Image, deviceUid: Uid, round: Round) {
    var before := Config.Loaded(image);
    if before.Some? then !before.value.state.Active? && Completes(JoinConfirm(deviceUid, before.value.requestNonce), round.windows)
    else
      && Accepted(deviceUid, round.nonce, round.reply).Some?
      && Completes(JoinConfirm(deviceUid, round.nonce), round.windows)
  }

  // ---------------------------------------------------------------- the two areas of the EEPROM

  lemma ConfigFrame(x: Image, y: Image)
    requires x[..PROFILE_AREA_START] == y[..PROFILE_AREA_START]
    ensures Config.LoadedSlot(x) == Config.LoadedSlot(y) && Config.Loaded(x) == Config.Loaded(y)
    ensures Config.Disciplined(x) == Config.Disciplined(y)
  {
    hide Config.Decode;
    var p, q := x[..PROFILE_AREA_START], y[..PROFILE_AREA_START];
    assert Config.SlotBytes(x, 0) == p[..32] && Config.SlotBytes(y, 0) == q[..32];
    assert Config.SlotBytes(x, 1) == p[32..] && Config.SlotBytes(y, 1) == q[32..];
  }

  lemma ProfileFrame(x: Image, y: Image)
    requires x[PROFILE_AREA_START..] == y[PROFILE_AREA_START..]
    requires GoodRing(x)
    ensures GoodRing(y) && Meaning(x) == Meaning(y)
    ensures Results.LoadedSlot(x) == Results.LoadedSlot(y) && Results.Loaded(x) == Results.Loaded(y)
    ensures Ring.LoadedCount(x) == Ring.LoadedCount(y)
  {
    hide Ring.RingAt, Ring.Loaded, Results.Loaded, Results.LoadedSlot;
    var commits: nat, count: uint32 :| Ring.RingAt(x, commits, count);
    var p, q := x[PROFILE_AREA_START..], y[PROFILE_AREA_START..];
    assert x[Results.SET_COUNT_SLOT_A..COUNTER_RING_START] == p[..32];
    assert y[Results.SET_COUNT_SLOT_A..COUNTER_RING_START] == q[..32];
    Results.LoadedFrame(x, y);
    assert x[COUNTER_RING_START..] == p[32..] && y[COUNTER_RING_START..] == q[32..];
    Ring.RingFrame(x, y, commits, count);
  }

  lemma ConfigWithin(image: Image, event: Config.Event)
    ensures Within(Config.Writes(image, event), 0, PROFILE_AREA_START)
  {
    hide Config.LoadedSlot, Config.Record, Config.Decode;
  }

  /** A join leaves the counter's area alone. */
  lemma JoinWithin(image: Image, deviceUid: Uid, round: Round)
    ensures Within(JoinWrites(image, deviceUid, round), 0, PROFILE_AREA_START)
  {
    hide Config.Loaded, Completes, Apply, Config.Writes, Accepted;
    ConfigWithin(image, Config.StoreActive(0));
    var config := Accepted(deviceUid, round.nonce, round.reply);
    if config.Some? {
      var event := Config.StoreProvisional(config.value, 0);
      ConfigWithin(image, event);
      ConfigWithin(Apply(image, Config.Writes(image, event)), Config.StoreActive(0));
    }
  }

  lemma RecoverWithin(image: Image)
    ensures Within(RecoverWrites(image), PROFILE_AREA_START, EEPROM_SIZE) && |RecoverWrites(image)| <= 22
  {
    hide Ring.SaveWrites, Results.Loaded, Results.SaveWrites, Apply;
    var stored := Results.Loaded(image);
    if stored.Some? && stored.value.status.Pending? {
      var first := Ring.SaveWrites(image, stored.value.appliedCount);
      Ring.SaveWithin(image, stored.value.appliedCount);
      Results.SaveWithin(Apply(image, first), stored.value.(status := Results.Applied));
    }
  }

  /** The most byte updates of any operation of the counter profile. */
  const MOST_UPDATES := 39

  /** Nothing the counter profile does reaches the configuration. */
  lemma CounterWithin(node: Counter.Node, event: Counter.Event)
    ensures Within(Counter.Writes(node, event), PROFILE_AREA_START, EEPROM_SIZE)
    ensures |Counter.Writes(node, event)| <= MOST_UPDATES
  {
    hide RecoverWrites, Ring.SaveWrites, Results.SaveWrites, Results.Loaded, Meaning, Redelivered, Apply;
    var image := node.image;
    RecoverWithin(image);
    match event
    case Pulse(_) => Ring.SaveWithin(image, (Meaning(image).count + 1) % 0x1_0000_0000);
    case SetCount(id, requested, _) =>
      var next := PendingResult(Meaning(image).count, id, requested);
      Results.SaveWithin(image, next);
      RecoverWithin(Apply(image, Results.SaveWrites(image, next)));
    case Commissioned(_) => Results.SaveWithin(image, ForgottenResult(Meaning(image).count));
    case Boot(_) =>
  }

  // ---------------------------------------------------------------- one round

  lemma JoinedIsActive(image: Image, deviceUid: Uid, round: Round)
    requires !Active(image)
    ensures Active(Apply(image, JoinWrites(image, deviceUid, round))) <==> Joins(image, deviceUid, round)
    ensures
      var updates := |JoinWrites(image, deviceUid, round)|;
      if Joins(image, deviceUid, round) then updates == if Config.Loaded(image).Some? then 34 else 68
      else updates == 0 || (updates == 34 && Config.Loaded(image).None?)
  {
    hide Config.SaveWrites, Config.Loaded, Completes, Config.Decode;
    var writes := JoinWrites(image, deviceUid, round);
    if Config.Loaded(image).Some? {
      StoredActive(image);
    } else {
      var config := Accepted(deviceUid, round.nonce, round.reply);
      if config.Some? {
        StoredProvisional(image, config.value);
        var first := Config.SaveWrites(image, config.value);
        var middle := Apply(image, first);
        StoredActive(middle);
        ApplyConcat(image, first, ConfirmWrites(middle, deviceUid, round.windows));
      }
    }
  }

  /** A join is cut before its last update: the node is not active. */
  lemma CutJoin(image: Image, deviceUid: Uid, round: Round, k: nat)
    requires !Active(image) && Config.Disciplined(image)
    requires k <= |JoinWrites(image, deviceUid, round)|
    ensures
      var after := Cut(image, JoinWrites(image, deviceUid, round), k);
      && Config.Disciplined(after)
      && (Active(after) <==> Joins(image, deviceUid, round) && k == |JoinWrites(image, deviceUid, round)|)
  {
    hide Config.Step, Config.Loaded, Config.Disciplined, Completes, Accepted, AdvanceWrites, Cut;
    var writes := JoinWrites(image, deviceUid, round);
    AdvanceCut(image, deviceUid, round.nonce, round.reply, round.windows, k);
    JoinedIsActive(image, deviceUid, round);
    CutWhole(image, writes);
    Config.StepIsAtomic(image, Config.StoreActive(k));
    var config := Accepted(deviceUid, round.nonce, round.reply);
    if config.Some? {
      Config.StepIsAtomic(image, Config.StoreProvisional(config.value, k));
      if k >= 34 {
        Config.StepIsAtomic(Config.Step(image, Config.StoreProvisional(config.value, k)), Config.StoreActive(k - 34));
      }
    }
  }

  ghost predicate Good(node: Counter.Node) {
    Counter.Good(node) && Config.Disciplined(node.image)
  }

  /** One round, cut after any number of byte updates: it activates the membership at
      the last update of the join and forgets the command ID at its own last one. The
      node is active with a command ID of the membership before exactly if one was
      recorded and the supply fails at or after the one and before the other. */
  lemma RoundIsAtomic(image: Image, deviceUid: Uid, round: Round, k: nat)
    requires GoodRing(image) && Settled(image) && Config.Disciplined(image) && !Active(image)
    requires k <= |RoundWrites(image, deviceUid, round)|
    ensures
      var activation, writes := |JoinWrites(image, deviceUid, round)|, RoundWrites(image, deviceUid, round);
      var after := Cut(image, writes, k);
      var joins := Joins(image, deviceUid, round);
      && GoodRing(after) && Settled(after) && Config.Disciplined(after)
      && Meaning(after).count == Meaning(image).count
      && |writes| == activation + (if joins && Marked(image) then FORGET_UPDATES else 0)
      && (Active(after) <==> joins && k >= activation)
      && (Marked(after) <==> Marked(image) && !(joins && k == |writes|))
      && (Active(after) && Marked(after) <==> joins && Marked(image) && activation <= k < activation + FORGET_UPDATES)
      && (Marked(after) ==> Meaning(after) == Meaning(image))
  {
    hide Ring.LoadedCount, Results.Loaded, Results.SaveWrites, Config.Loaded, Config.Disciplined, Joins, JoinWrites, GoodRing;
    var join := JoinWrites(image, deviceUid, round);
    var joined := Apply(image, join);
    JoinWithin(image, deviceUid, round);
    JoinedIsActive(image, deviceUid, round);
    var forget := if Active(joined) then ForgetWrites(joined, Meaning(joined).count) else [];
    CutWhole(image, join);
    JoinKeepsCounter(image, join, |join|);
    CutConcat(image, join, forget, k);
    if k <= |join| {
      CutJoin(image, deviceUid, round, k);
      JoinKeepsCounter(image, join, k);
    }
    if k >= |join| {
      CutJoin(image, deviceUid, round, |join|);
      if Active(joined) {
        ForgetIsAtomic(joined, k - |join|);
        ForgetKeepsConfig(joined, k - |join|);
      } else {
        assert forget[..k - |join|] == [];
      }
    }
  }

  const FORGET_UPDATES := Results.SET_COUNT_SLOT_SIZE + 1

  lemma JoinKeepsCounter(image: Image, join: seq<Write>, k: nat)
    requires GoodRing(image) && Within(join, 0, PROFILE_AREA_START) && k <= |join|
    ensures
      var after := Cut(image, join, k);
      GoodRing(after) && Meaning(after) == Meaning(image) && (Settled(image) ==> Settled(after))
  {
    hide GoodRing, Meaning, Results.Loaded, Ring.LoadedCount, Cut;
    CutOutside(image, join, k, 0, PROFILE_AREA_START, PROFILE_AREA_START, EEPROM_SIZE);
    var after := Cut(image, join, k);
    assert after[PROFILE_AREA_START..] == after[PROFILE_AREA_START..EEPROM_SIZE];
    assert image[PROFILE_AREA_START..] == image[PROFILE_AREA_START..EEPROM_SIZE];
    ProfileFrame(image, after);
  }

  lemma ForgetKeepsConfig(image: Image, k: nat)
    requires k <= |ForgetWrites(image, Meaning(image).count)|
    ensures
      var after := Cut(image, ForgetWrites(image, Meaning(image).count), k);
      Config.Loaded(after) == Config.Loaded(image) && Config.Disciplined(after) == Config.Disciplined(image)
  {
    hide Results.SaveWrites, Results.Loaded, Meaning, Config.Loaded, Config.Disciplined, Cut;
    Results.SaveWithin(image, ForgottenResult(Meaning(image).count));
    var writes := ForgetWrites(image, Meaning(image).count);
    CutOutside(image, writes, k, PROFILE_AREA_START, EEPROM_SIZE, 0, PROFILE_AREA_START);
    var after := Cut(image, writes, k);
    assert after[..PROFILE_AREA_START] == after[0..PROFILE_AREA_START];
    assert image[..PROFILE_AREA_START] == image[0..PROFILE_AREA_START];
    ConfigFrame(after, image);
  }

  // ---------------------------------------------------------------- the class

  class Runtime {
    const commissioning: Service
    const profile: Counter.Profile

    /** Both halves are in step with the one EEPROM they share, each in its own area. */
    ghost predicate Valid()
      reads this, commissioning, commissioning.store, commissioning.store.storage.cells
      reads profile, profile.contact, profile.phase, profile.store, profile.journal, profile.journal.results
      reads profile.journal.storage.cells
    {
      var node: set<object> := {commissioning, commissioning.store};
      var counter: set<object> := {profile, profile.store, profile.journal, profile.journal.results};
      && commissioning.Valid() && profile.Valid() && node !! counter
      && commissioning.store.storage == profile.journal.storage
    }

    constructor (commissioning: Service, profile: Counter.Profile)
      requires commissioning.Valid() && profile.Valid()
      requires commissioning.store.storage == profile.journal.storage
      requires var node: set<object> := {commissioning, commissioning.store};
               node !! {profile, profile.store, profile.journal, profile.journal.results}
      ensures Valid() && this.commissioning == commissioning && this.profile == profile
    {
      this.commissioning, this.profile := commissioning, profile;
    }

    /** The turn of the main loop of a node that is not active; an active one reports. */
    method CommissionIfDue(round: Round) returns (active: bool)
      requires Valid() && |round.windows| == CONFIRM_ATTEMPTS
      modifies commissioning, commissioning.store, profile.store, profile.journal, profile.journal.results
      modifies profile.journal.storage.cells, profile.journal.storage`log
      ensures Valid()
      ensures
        var image := old(profile.journal.storage.Contents());
        var writes := RoundWrites(image, commissioning.deviceUid, round);
        && profile.journal.storage.log == old(profile.journal.storage.log) + writes
        && profile.journal.storage.Contents() == Apply(image, writes)
      ensures active == Active(profile.journal.storage.Contents())
      ensures profile.count == old(profile.count)
    {
      hide Config.Loaded, Config.LoadedSlot, Ring.RingAt, Results.Loaded, Results.LoadedSlot, AdvanceWrites;
      hide ForgetWrites, Meaning, Settled;
      active := commissioning.Active();
      if active {
        return;
      }
      ghost var image := profile.journal.storage.Contents();
      var joined, request := commissioning.Advance(round.nonce, round.reply, round.windows);
      ghost var middle := profile.journal.storage.Contents();
      JoinLeavesRam(image, commissioning.deviceUid, round, profile.journal.commits, profile.count);
      active := commissioning.Active();
      if active {
        profile.CommissionedAnew();
        ForgetLeavesRam(middle, profile.count);
        ApplyConcat(image, JoinWrites(image, commissioning.deviceUid, round), ForgetWrites(middle, profile.count));
      } else {
        assert RoundWrites(image, commissioning.deviceUid, round) == JoinWrites(image, commissioning.deviceUid, round);
      }
    }
  }

  /** What the counter keeps in RAM stays right across a join. */
  lemma JoinLeavesRam(image: Image, deviceUid: Uid, round: Round, commits: nat, count: uint32)
    requires Ring.RingAt(image, commits, count) && Settled(image)
    ensures
      var joined := Apply(image, JoinWrites(image, deviceUid, round));
      && Ring.RingAt(joined, commits, count) && Settled(joined) && Meaning(joined).count == count
      && Results.Loaded(joined) == Results.Loaded(image) && Results.LoadedSlot(joined) == Results.LoadedSlot(image)
  {
    hide Ring.RingAt, Ring.LoadedCount, Results.Loaded, Results.LoadedSlot, AdvanceWrites;
    var writes := JoinWrites(image, deviceUid, round);
    var joined := Apply(image, writes);
    JoinWithin(image, deviceUid, round);
    ApplyOutside(image, writes, 0, PROFILE_AREA_START);
    assert joined[PROFILE_AREA_START..] == image[PROFILE_AREA_START..];
    assert joined[COUNTER_RING_START..] == image[COUNTER_RING_START..];
    ProfileFrame(image, joined);
    Ring.RingFrame(image, joined, commits, count);
    Ring.LoadFindsLast(joined, commits, count);
  }

  /** What commissioning keeps in RAM stays right across the forgetting. */
  lemma ForgetLeavesRam(image: Image, count: uint32)
    ensures
      var after := Apply(image, ForgetWrites(image, count));
      Config.LoadedSlot(after) == Config.LoadedSlot(image) && Config.Loaded(after) == Config.Loaded(image)
  {
    hide Config.Loaded, Config.LoadedSlot, Results.Loaded, Results.SaveWrites;
    var writes := ForgetWrites(image, count);
    Results.SaveWithin(image, ForgottenResult(count));
    ApplyOutside(image, writes, PROFILE_AREA_START, EEPROM_SIZE);
    assert Apply(image, writes)[..PROFILE_AREA_START] == image[..PROFILE_AREA_START];
    ConfigFrame(Apply(image, writes), image);
  }

  // ---------------------------------------------------------------- runs

  /** What happens to a node over its life; commands reach it only while it is active. */
  datatype Event =
    | Join(round: Round, cut: nat)
    | ResetNetwork(cut: nat)
    | Count(event: Counter.Event)

  /** `membership` numbers the memberships made active, `owner` is the one in which the
      recorded command was applied. */
  datatype State = State(node: Counter.Node, membership: nat, owner: nat)

  predicate Enabled(s: State, event: Event) {
    match event
    case Join(_, _) => s.node.running && !Active(s.node.image)
    case ResetNetwork(_) => s.node.running
    case Count(e) => !e.Commissioned? && (e.SetCount? ==> Active(s.node.image))
  }

  function Survived(writes: seq<Write>, cut: nat): (k: nat)
    ensures k <= |writes|
  {
    if cut < |writes| then cut else |writes|
  }

  function Step(deviceUid: Uid, s: State, event: Event): State {
    var image := s.node.image;
    match event
    case Join(round, cut) =>
      var writes := RoundWrites(image, deviceUid, round);
      var after := Cut(image, writes, Survived(writes, cut));
      s.(node := Counter.Node(after, cut >= |writes|),
         membership := if Active(after) then s.membership + 1 else s.membership)
    case ResetNetwork(cut) =>
      s.(node := Counter.Node(Cut(image, Config.RESET_WRITES, Survived(Config.RESET_WRITES, cut)), false))
    case Count(e) =>
      s.(node := Counter.Step(s.node, e), owner := if Counter.Committed(s.node, e).Set? then s.membership else s.owner)
  }

  lemma JoinStep(deviceUid: Uid, s: State, round: Round, cut: nat)
    requires Good(s.node) && Enabled(s, Join(round, cut))
    ensures
      var image, t := s.node.image, Step(deviceUid, s, Join(round, cut));
      var joins, activation := Joins(image, deviceUid, round), |JoinWrites(image, deviceUid, round)|;
      && Good(t.node) && t.owner == s.owner
      && t.membership == (if joins && cut >= activation then s.membership + 1 else s.membership)
      && (Active(t.node.image) <==> joins && cut >= activation)
      && (Marked(t.node.image) <==> Marked(image) && !(joins && cut >= activation + FORGET_UPDATES))
      && (Marked(t.node.image) ==> Meaning(t.node.image) == Meaning(image))
      && Meaning(t.node.image).count == Meaning(image).count
      && (joins && cut >= activation + FORGET_UPDATES ==> t.node.running)
  {
    hide GoodRing, Settled, Meaning, Config.Disciplined, Joins, Active, JoinWrites, RoundWrites, Cut;
    RoundIsAtomic(s.node.image, deviceUid, round, Survived(RoundWrites(s.node.image, deviceUid, round), cut));
  }

  lemma ResetStep(deviceUid: Uid, s: State, cut: nat)
    requires Good(s.node) && Enabled(s, ResetNetwork(cut))
    ensures
      var t := Step(deviceUid, s, ResetNetwork(cut));
      && Good(t.node) && t.membership == s.membership && t.owner == s.owner && !t.node.running
      && Meaning(t.node.image) == Meaning(s.node.image)
      && (Active(t.node.image) ==> Active(s.node.image)) && (cut >= 4 ==> !Active(t.node.image))
  {
    hide GoodRing, Settled, Meaning, Config.Disciplined, Config.Loaded, Apply;
    Config.StepIsAtomic(s.node.image, Config.ResetNetwork(cut));
    JoinKeepsCounter(s.node.image, Config.RESET_WRITES, Survived(Config.RESET_WRITES, cut));
  }

  lemma CountStep(deviceUid: Uid, s: State, e: Counter.Event)
    requires Good(s.node) && Enabled(s, Count(e))
    ensures
      var t, effect := Step(deviceUid, s, Count(e)), Counter.Committed(s.node, e);
      && Good(t.node) && t.membership == s.membership && t.owner == (if effect.Set? then s.membership else s.owner)
      && Meaning(t.node.image) == Counter.Perform(Meaning(s.node.image), effect)
      && Config.Loaded(t.node.image) == Config.Loaded(s.node.image) && (effect.Set? ==> Active(s.node.image))
      && (Active(t.node.image) <==> Active(s.node.image))
      && !effect.Forgotten? && (e.cut >= MOST_UPDATES ==> t.node.running == (s.node.running || e.Boot?))
  {
    hide Counter.Good, Meaning, Config.Disciplined, Config.Loaded, Counter.Writes, Cut, Apply, Counter.Perform;
    Counter.StepIsAtomic(s.node, e);
    CounterWithin(s.node, e);
    var image, writes := s.node.image, Counter.Writes(s.node, e);
    var k := Survived(writes, e.cut);
    CutWhole(image, writes);
    CutOutside(image, writes, k, PROFILE_AREA_START, EEPROM_SIZE, 0, PROFILE_AREA_START);
    var after := Cut(image, writes, k);
    assert after[..PROFILE_AREA_START] == after[0..PROFILE_AREA_START];
    assert image[..PROFILE_AREA_START] == image[0..PROFILE_AREA_START];
    ConfigFrame(after, image);
  }

  function Run(deviceUid: Uid, s: State, events: seq<Event>): State {
    if events == [] then s
    else Step(deviceUid, Run(deviceUid, s, events[..|events| - 1]), events[|events| - 1])
  }

  predicate Possible(deviceUid: Uid, s: State, events: seq<Event>) {
    events == [] ||
    (Possible(deviceUid, s, events[..|events| - 1]) &&
     Enabled(Run(deviceUid, s, events[..|events| - 1]), events[|events| - 1]))
  }

  /** The supply failed after the latest activation of a membership and before the
      command ID recorded then was forgotten, and no command was applied since. */
  predicate Interrupted(deviceUid: Uid, s: State, events: seq<Event>) {
    events != [] &&
    (var front, last := events[..|events| - 1], events[|events| - 1];
     var before := Run(deviceUid, s, front);
     var image := before.node.image;
     match last
     case Join(round, cut) =>
       var activation := |JoinWrites(image, deviceUid, round)|;
       if Joins(image, deviceUid, round) && cut >= activation
       then Marked(image) && cut < activation + FORGET_UPDATES
       else Interrupted(deviceUid, s, front)
     case ResetNetwork(_) => Interrupted(deviceUid, s, front)
     case Count(e) => !Counter.Committed(before.node, e).Set? && Interrupted(deviceUid, s, front))
  }

  /** Over every run from a node without a membership: an active node has the command ID
      of an earlier membership on record exactly if its activation was interrupted. */
  lemma {:induction false} StaleExactlyIfInterrupted(deviceUid: Uid, s: State, events: seq<Event>)
    requires Good(s.node) && !Active(s.node.image) && s.owner <= s.membership
    requires Possible(deviceUid, s, events)
    ensures
      var t := Run(deviceUid, s, events);
      && Good(t.node) && t.owner <= t.membership
      && (Active(t.node.image) ==>
            (Marked(t.node.image) && t.owner != t.membership <==> Interrupted(deviceUid, s, events)))
  {
    hide Good, Active, Meaning, Step, Joins, JoinWrites, Counter.Committed;
    if events != [] {
      var front, last := events[..|events| - 1], events[|events| - 1];
      StaleExactlyIfInterrupted(deviceUid, s, front);
      var before := Run(deviceUid, s, front);
      match last {
        case Join(round, cut) => JoinStep(deviceUid, before, round, cut);
        case ResetNetwork(cut) => ResetStep(deviceUid, before, cut);
        case Count(e) => CountStep(deviceUid, before, e);
      }
    }
  }

  // ---------------------------------------------------------------- what a stale ID does

  /** The recorded ID. */
  function RecordedId(image: Image): uint16 {
    if Marked(image) then Meaning(image).last.value.commandId else 0
  }

  /** A new command that carries the recorded ID changes nothing, whatever it asks for. */
  lemma StaleCommandIsLost(deviceUid: Uid, s: State, requested: uint32, cut: nat)
    requires Good(s.node) && s.node.running && Marked(s.node.image)
    ensures
      var e := Counter.SetCount(RecordedId(s.node.image), requested, cut);
      Step(deviceUid, s, Count(e)) == s && Counter.Writes(s.node, e) == []
  {
    hide GoodRing, Meaning, Config.Disciplined, Counter.Step, Counter.Writes;
    Counter.RecordedIdIsDone(s.node, RecordedId(s.node.image), requested, cut);
    NotCommittedAgain(s.node, Counter.SetCount(RecordedId(s.node.image), requested, cut));
  }

  /** Neither pulses nor boots nor commands with that ID. */
  predicate Keeps(event: Event, id: uint16) {
    event.Count? && (event.event.SetCount? ==> event.event.commandId == id)
  }

  /** No boot forgets a stale ID: until another command is applied or the network is
      reset, the node stays active and takes its ID for applied. */
  lemma {:induction false} StaleIsKept(deviceUid: Uid, s: State, events: seq<Event>)
    requires Good(s.node) && Active(s.node.image) && Marked(s.node.image)
    requires Possible(deviceUid, s, events)
    requires forall i :: 0 <= i < |events| ==> Keeps(events[i], RecordedId(s.node.image))
    ensures
      var t := Run(deviceUid, s, events);
      && Good(t.node) && Active(t.node.image) && Marked(t.node.image) && t.owner == s.owner
      && t.membership == s.membership && RecordedId(t.node.image) == RecordedId(s.node.image)
  {
    hide Good, Active, Meaning, Step;
    if events != [] {
      var front, last := events[..|events| - 1], events[|events| - 1];
      StaleIsKept(deviceUid, s, front);
      var before := Run(deviceUid, s, front);
      CountStep(deviceUid, before, last.event);
      if last.event.SetCount? {
        NotCommittedAgain(before.node, last.event);
      }
    }
  }

  lemma NotCommittedAgain(node: Counter.Node, e: Counter.Event)
    requires Good(node) && Marked(node.image) && e.SetCount? && e.commandId == RecordedId(node.image)
    ensures !Counter.Committed(node, e).Set?
  {
    hide GoodRing, Results.Loaded, Ring.LoadedCount, Config.Disciplined;
  }

  // ---------------------------------------------------------------- a life in which it happens

  const FACTORY_NEW: State := State(Counter.Node(Fill(256, 0xFF), false), 0, 0)

  /** A round in which the gateway assigns node 5 and completes at once. */
  function AnsweredRound(deviceUid: Uid, nonce: uint32, key: Key): Round {
    Round(nonce, Some(JoinAccept(deviceUid, nonce, 5, NODE_GATEWAY_ID, 1, key)),
          [Some(JoinConfirm(deviceUid, nonce)), None, None])
  }

  /** A node is commissioned, its count set to 1000, its network reset; it joins again
      and the supply fails between the two records. */
  function Life(deviceUid: Uid, key: Key): seq<Event> {
    [Count(Counter.Boot(100)), Join(AnsweredRound(deviceUid, 1, key), 100), Count(Counter.SetCount(7, 1000, 100)),
     ResetNetwork(4), Count(Counter.Boot(100)), Join(AnsweredRound(deviceUid, 2, key), 68)]
  }

  lemma FactoryNew()
    ensures Good(FACTORY_NEW.node) && !Active(FACTORY_NEW.node.image) && Config.Loaded(FACTORY_NEW.node.image).None?
    ensures !Marked(FACTORY_NEW.node.image)
  {
    hide Ring.Scan, Ring.LoadedCount, Crc.Crc16, Read16, Read32;
    var image := FACTORY_NEW.node.image;
    assert Config.SlotBytes(image, 0)[0] == 0xFF && Config.SlotBytes(image, 1)[0] == 0xFF;
    assert Results.SlotBytes(image, 0)[0] == 0xFF && Results.SlotBytes(image, 1)[0] == 0xFF;
    assert forall slot :: 0 <= slot < Ring.COUNTER_RECORD_COUNT ==> Ring.SequenceAt(image, slot) == 0xFF;
    assert Ring.RingAt(image, 0, 0);
  }

  lemma JoinsWhenAnswered(deviceUid: Uid, image: Image, nonce: uint32, key: Key)
    requires Config.Loaded(image).None?
    ensures Joins(image, deviceUid, AnsweredRound(deviceUid, nonce, key)) && !Active(image)
    ensures |JoinWrites(image, deviceUid, AnsweredRound(deviceUid, nonce, key))| == 68
  {
    hide Config.Loaded, JoinWrites;
    var round := AnsweredRound(deviceUid, nonce, key);
    assert round.windows[0] == Some(JoinConfirm(deviceUid, nonce));
    JoinedIsActive(image, deviceUid, round);
  }

  /** A reset that completes leaves no configuration. */
  lemma ResetUnloads(deviceUid: Uid, s: State)
    ensures Config.Loaded(Step(deviceUid, s, ResetNetwork(4)).node.image).None?
  {
    hide Config.Decode;
    Config.ResetCut(s.node.image, 4);
  }

  lemma RedeliveredIsMarked(image: Image, id: uint16)
    ensures Redelivered(image, id) <==> Marked(image) && RecordedId(image) == id
  {
    hide Results.Loaded, Ring.LoadedCount;
  }

  lemma RunNext(deviceUid: Uid, s: State, events: seq<Event>, n: nat)
    requires n < |events|
    ensures Run(deviceUid, s, events[..n + 1]) == Step(deviceUid, Run(deviceUid, s, events[..n]), events[n])
    ensures Possible(deviceUid, s, events[..n + 1]) <==>
            Possible(deviceUid, s, events[..n]) && Enabled(Run(deviceUid, s, events[..n]), events[n])
  {
    hide Step, Enabled;
    assert events[..n + 1][..n] == events[..n];
  }

  /** The first half of the life: a membership, and a command applied in it. */
  lemma FirstMembership(deviceUid: Uid, key: Key) returns (t: State)
    ensures t == Run(deviceUid, FACTORY_NEW, Life(deviceUid, key)[..3])
    ensures Possible(deviceUid, FACTORY_NEW, Life(deviceUid, key)[..3])
    ensures Good(t.node) && t.node.running && Active(t.node.image) && t.membership == 1 && t.owner == 1
    ensures Meaning(t.node.image).count == 1000 && Marked(t.node.image) && RecordedId(t.node.image) == 7
  {
    hide Good, Active, Meaning, Step, Joins, JoinWrites, Config.Loaded, AnsweredRound, Redelivered, Counter.Writes;
    var life := Life(deviceUid, key);
    FactoryNew();
    RunNext(deviceUid, FACTORY_NEW, life, 0);
    RunNext(deviceUid, FACTORY_NEW, life, 1);
    RunNext(deviceUid, FACTORY_NEW, life, 2);
    var booted := Run(deviceUid, FACTORY_NEW, life[..1]);
    CountStep(deviceUid, FACTORY_NEW, life[0].event);
    JoinsWhenAnswered(deviceUid, booted.node.image, 1, key);
    JoinStep(deviceUid, booted, life[1].round, 100);
    var joined := Run(deviceUid, FACTORY_NEW, life[..2]);
    RedeliveredIsMarked(joined.node.image, 7);
    CountStep(deviceUid, joined, life[2].event);
    t := Run(deviceUid, FACTORY_NEW, life[..3]);
  }

  /** The count is 1000 and the new membership active, yet the new gateway's command 7
      is answered as applied and changes nothing. */
  lemma LifeLosesACommand(deviceUid: Uid, key: Key, requested: uint32, cut: nat)
    ensures
      var events := Life(deviceUid, key);
      var t := Step(deviceUid, Run(deviceUid, FACTORY_NEW, events), Count(Counter.Boot(100)));
      && Possible(deviceUid, FACTORY_NEW, events) && Interrupted(deviceUid, FACTORY_NEW, events)
      && t.node.running && Active(t.node.image) && t.membership == 2 && t.owner == 1
      && Meaning(t.node.image).count == 1000
      && Step(deviceUid, t, Count(Counter.SetCount(7, requested, cut))) == t
  {
    hide Good, Active, Meaning, Step, Joins, JoinWrites, Config.Loaded, AnsweredRound, Redelivered, Counter.Writes;
    var life := Life(deviceUid, key);
    var first := FirstMembership(deviceUid, key);
    RunNext(deviceUid, FACTORY_NEW, life, 3);
    RunNext(deviceUid, FACTORY_NEW, life, 4);
    RunNext(deviceUid, FACTORY_NEW, life, 5);
    ResetStep(deviceUid, first, 4);
    ResetUnloads(deviceUid, first);
    var reset := Run(deviceUid, FACTORY_NEW, life[..4]);
    CountStep(deviceUid, reset, life[4].event);
    var booted := Run(deviceUid, FACTORY_NEW, life[..5]);
    JoinsWhenAnswered(deviceUid, booted.node.image, 2, key);
    JoinStep(deviceUid, booted, life[5].round, 68);
    assert life[..6] == life;
    var cutShort := Run(deviceUid, FACTORY_NEW, life);
    CountStep(deviceUid, cutShort, Counter.Boot(100));
    StaleCommandIsLost(deviceUid, Step(deviceUid, cutShort, Count(Counter.Boot(100))), requested, cut);
  }
}
