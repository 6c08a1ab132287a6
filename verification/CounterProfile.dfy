/** The pulse counter: contact, filter, ring and journal combined, and what every
    history of pulses, commands, boots and power cuts leaves in its EEPROM. */
module CounterProfile {
  import opened Bytes
  import opened Protocol
  import opened Eeprom
  import opened Options
  import opened PulseFilter
  import opened SetCountJournal
  import Ring = CounterRing
  import Results = SetCountStore

  // ---------------------------------------------------------------- histories

  /** What happens to a node. `cut` is the number of byte updates the supply
      survives; a larger number than the operation issues means it completes. */
  datatype Event =
    | Pulse(cut: nat)
    | SetCount(commandId: uint16, requested: uint32, cut: nat)
    | Commissioned(cut: nat)
    | Boot(cut: nat)

  /** Between events the RAM copies follow from the image: the profile is running
      only after a recovery that completed. */
  datatype Node = Node(image: Image, running: bool)

  function Writes(node: Node, event: Event): seq<Write> {
    match event
    case Pulse(_) => if node.running then PulseWrites(node.image, Meaning(node.image).count) else []
    case SetCount(id, requested, _) =>
      if node.running then ApplyWrites(node.image, Meaning(node.image).count, id, requested) else []
    case Commissioned(_) => if node.running then ForgetWrites(node.image, Meaning(node.image).count) else []
    case Boot(_) => RecoverWrites(node.image)
  }

  function Step(node: Node, event: Event): Node {
    var writes := Writes(node, event);
    if event.cut < |writes| then Node(Cut(node.image, writes, event.cut), false)
    else Node(Apply(node.image, writes), node.running || event.Boot?)
  }

  /** The effect an event commits, if the supply survives its commit byte. */
  datatype Effect = Nothing | Counted | Set(record: AppliedRecord) | Forgotten

  function Committed(node: Node, event: Event): Effect {
    var writes := Writes(node, event);
    match event
    case Pulse(cut) => if node.running && cut >= PULSE_COMMIT then Counted else Nothing
    case SetCount(id, requested, cut) =>
      if node.running && !Redelivered(node.image, id) && cut >= APPLY_COMMIT
      then Set(AppliedRecord(id, Meaning(node.image).count, requested)) else Nothing
    case Commissioned(cut) => if writes != [] && cut >= |writes| then Forgotten else Nothing
    case Boot(_) => Nothing
  }

  /** The register the profile stands for. */
  function Perform(d: Durable, effect: Effect): Durable {
    match effect
    case Nothing => d
    case Counted => d.(count := (d.count + 1) % 0x1_0000_0000)
    case Set(record) => Durable(record.appliedCount, Some(record))
    case Forgotten => d.(last := Some(AppliedRecord(0, d.count, d.count)))
  }

  ghost predicate Good(node: Node) {
    GoodRing(node.image) && (node.running ==> Settled(node.image))
  }

  /** Every event, cut anywhere, has exactly its committed effect or none. */
  lemma StepIsAtomic(node: Node, event: Event)
    requires Good(node)
    ensures Good(Step(node, event))
    ensures Meaning(Step(node, event).image) == Perform(Meaning(node.image), Committed(node, event))
    ensures event.Boot? && event.cut >= |Writes(node, event)| ==> Step(node, event).running
    ensures Committed(node, event).Set? ==> Committed(node, event).record.oldCount == Meaning(node.image).count
  {
    hide Meaning, GoodRing, Settled, RecoverWrites, ApplyWrites, PulseWrites, ForgetWrites;
    var writes := Writes(node, event);
    var k := if event.cut < |writes| then event.cut else |writes|;
    CutWhole(node.image, writes);
    match event {
      case Pulse(_) =>
        if node.running { PulseIsAtomic(node.image, k); }
      case SetCount(id, requested, _) =>
        if node.running { ApplyIsAtomic(node.image, id, requested, k); }
      case Commissioned(_) =>
        if node.running { ForgetIsAtomic(node.image, k); }
      case Boot(_) =>
        RecoveryKeepsMeaning(node.image, k);
    }
  }

  function Run(node: Node, events: seq<Event>): Node {
    if events == [] then node
    else Step(Run(node, events[..|events| - 1]), events[|events| - 1])
  }

  function RunMeaning(node: Node, events: seq<Event>): Durable {
    if events == [] then Meaning(node.image)
    else
      var front := events[..|events| - 1];
      Perform(RunMeaning(node, front), Committed(Run(node, front), events[|events| - 1]))
  }

  /** After any history of pulses, commands, boots and cuts between any two byte
      updates, the EEPROM means exactly the committed effects in their order. */
  lemma {:induction false} HistoryIsSerial(node: Node, events: seq<Event>)
    requires Good(node)
    ensures Good(Run(node, events))
    ensures Meaning(Run(node, events).image) == RunMeaning(node, events)
    ensures Run(node, events).running ==> Ring.LoadedCount(Run(node, events).image) == RunMeaning(node, events).count
  {
    hide Meaning, Step, Committed, Perform, Ring.LoadedCount, Good;
    if events != [] {
      var front := events[..|events| - 1];
      HistoryIsSerial(node, front);
      StepIsAtomic(Run(node, front), events[|events| - 1]);
    }
    if Run(node, events).running {
      RunningCount(Run(node, events));
    }
  }

  lemma RunningCount(node: Node)
    requires Good(node) && node.running
    ensures Ring.LoadedCount(node.image) == Meaning(node.image).count
  {
  }

  /** A command with the recorded ID writes nothing, whatever it asks for. */
  lemma RecordedIdIsDone(node: Node, id: uint16, requested: uint32, cut: nat)
    requires Good(node) && node.running && id != 0
    requires
      var last := Meaning(node.image).last;
      last.Some? && last.value.commandId == id
    ensures Step(node, SetCount(id, requested, cut)) == node && Writes(node, SetCount(id, requested, cut)) == []
  {
    hide RecoverWrites, GoodRing, Settled, PulseWrites, ForgetWrites, Ring.LoadedCount, Results.Loaded;
    ApplyIsAtomic(node.image, id, requested, 0);
  }

  // ---------------------------------------------------------------- the class

  /** One read of the contact, and the level its debounce burst settles on, if it does. */
  datatype Sample = Sample(read: bool, settles: bool, burst: bool)

  /** The confirmed level after a sample. */
  function Confirmed(high: bool, sample: Sample): bool {
    if sample.read != high && sample.settles then sample.burst else high
  }

  function LevelAfter(high: bool, samples: seq<Sample>, n: nat): bool
    requires n <= |samples|
  {
    if n == 0 then high else Confirmed(LevelAfter(high, samples, n - 1), samples[n - 1])
  }

  /** The confirmed level each sample leaves. */
  function Levels(high: bool, samples: seq<Sample>): (levels: seq<bool>)
    ensures |levels| == |samples|
  {
    seq(|samples|, i requires 0 <= i < |samples| => LevelAfter(high, samples, i + 1))
  }

  lemma NoSamples(start: uint32, high: bool, samples: seq<Sample>)
    ensures LevelAfter(high, samples, 0) == high
    ensures After(start, Levels(high, samples), 0) == Start(MINIMUM_PHASE_MS, true)
    ensures Rises(start, Levels(high, samples), 0) == 0
  {
  }

  /** One more sample: the confirmed level, the filter and the accepted rises. */
  lemma SampleStep(start: uint32, high: bool, samples: seq<Sample>, i: nat)
    requires i < |samples|
    ensures
      var levels := Levels(high, samples);
      var before, after := After(start, levels, i), After(start, levels, i + 1);
      && LevelAfter(high, samples, i + 1) == Confirmed(LevelAfter(high, samples, i), samples[i])
      && after == Next(before, Clock(start, i), LevelAfter(high, samples, i + 1))
      && Rises(start, levels, i + 1) ==
           Rises(start, levels, i) + if !before.accepted && after.accepted then 1 else 0
  {
    hide Next, Confirmed;
  }

  class Profile {
    const contact: ConfirmedInput
    const phase: MinimumPhaseFilter
    const store: Ring.Store
    const journal: Journal
    var count: uint32

    /** The parts are wired to one device and are different objects. */
    ghost predicate Wired()
      reads this, journal
    {
      var memory: set<object> := {contact, phase};
      var stores: set<object> := {store, journal, journal.results};
      && journal.counter == store
      && contact as object != phase && memory !! stores && this !in memory && this !in stores
      && store as object != journal.results && store as object != journal && journal as object != journal.results
    }

    /** After `Begin`: the RAM count is the stored one and nothing is pending. */
    ghost predicate Valid()
      reads this, contact, phase, store, journal, journal.results, journal.storage.cells
    {
      Wired() && journal.Ready() && count == journal.stored
    }

    constructor (storage: Device, minimumPhaseMs: uint32, ghost commits: nat, ghost stored: uint32)
      requires storage.Valid() && Ring.RingAt(storage.Contents(), commits, stored)
      ensures Wired() && journal.Valid() && journal.storage == storage && journal.stored == stored
      ensures contact.high && phase.State() == Start(minimumPhaseMs, true)
    {
      hide Ring.RingAt, Results.Loaded, Results.LoadedSlot;
      contact := new ConfirmedInput(true);
      phase := new MinimumPhaseFilter(minimumPhaseMs, true);
      var s := new Ring.Store(storage);
      var r := new Results.Store(storage);
      store := s;
      journal := new Journal(s, r, commits, stored);
      count := 0;
    }

    /** Boot: loads the count and finishes an interrupted command. */
    method Begin()
      requires Wired() && journal.Valid()
      modifies this`count, store, journal, journal.results, journal.storage.cells, journal.storage`log
      ensures Valid()
      ensures journal.storage.log == old(journal.storage.log) + RecoverWrites(old(journal.storage.Contents()))
      ensures journal.storage.Contents() ==
              Apply(old(journal.storage.Contents()), RecoverWrites(old(journal.storage.Contents())))
      ensures count == Meaning(old(journal.storage.Contents())).count
    {
      hide Ring.RingAt, Meaning, RecoverWrites, Settled, Results.Loaded, Results.LoadedSlot;
      count := store.Load(journal.commits, journal.stored);
      count := journal.Recover(count);
    }

    /** One poll of the contact: a confirmed rise is counted and stored. */
    method Poll(now: uint32, read: bool, settles: bool, burst: bool) returns (rose: bool)
      requires Valid()
      modifies this`count, contact, phase, store, journal, journal.storage.cells, journal.storage`log
      ensures Valid()
      ensures contact.high == Confirmed(old(contact.high), Sample(read, settles, burst))
      ensures phase.State() == Next(old(phase.State()), now, contact.high)
      ensures rose <==> !old(phase.accepted) && phase.accepted
      ensures count == if rose then (old(count) + 1) % 0x1_0000_0000 else old(count)
      ensures journal.storage.log == old(journal.storage.log) +
              if rose then PulseWrites(old(journal.storage.Contents()), old(count)) else []
    {
      hide Ring.RingAt, Ring.SaveWrites, Settled, Results.Loaded, Results.LoadedSlot, Next;
      var contactChange := contact.Update(read, settles, burst);
      var change := phase.Update(now, contact.high);
      rose := change.Rose?;
      if rose {
        count := (count + 1) % 0x1_0000_0000;
        SaveCount();
      }
    }

    /** Polls on the 250 ms tick from a filter at rest: RAM and ring hold the old count
        and the accepted rises of the confirmed levels, modulo 2^32. */
    method PollSamples(start: uint32, samples: seq<Sample>)
      requires Valid() && phase.State() == Start(MINIMUM_PHASE_MS, true)
      modifies this`count, contact, phase, store, journal, journal.storage.cells, journal.storage`log
      ensures Valid()
      ensures
        var levels := Levels(old(contact.high), samples);
        && phase.State() == After(start, levels, |samples|)
        && count == (old(count) + Rises(start, levels, |samples|)) % 0x1_0000_0000
      ensures Ring.LoadedCount(journal.storage.Contents()) == count
    {
      hide Ring.RingAt, Ring.LoadedCount, Settled, Results.Loaded, Results.LoadedSlot;
      hide Next, Start, After, Rises, LevelAfter, Confirmed, Clock, PulseWrites;
      NoSamples(start, contact.high, samples);
      ghost var levels := Levels(contact.high, samples);
      var i := 0;
      while i < |samples|
        invariant i <= |samples| && Valid()
        invariant contact.high == LevelAfter(old(contact.high), samples, i)
        invariant phase.State() == After(start, levels, i)
        invariant count == (old(count) + Rises(start, levels, i)) % 0x1_0000_0000
      {
        var rose := Poll(Clock(start, i), samples[i].read, samples[i].settles, samples[i].burst);
        SampleStep(start, old(contact.high), samples, i);
        i := i + 1;
      }
      Ring.LoadFindsLast(journal.storage.Contents(), journal.commits, journal.stored);
    }

    method SaveCount()
      requires journal.counter == store && journal.Ready()
      modifies store, journal`commits, journal`stored, journal.storage.cells, journal.storage`log
      ensures journal.Ready() && journal.stored == count
      ensures journal.storage.log == old(journal.storage.log) + Ring.SaveWrites(old(journal.storage.Contents()), count)
      ensures journal.storage.Contents() ==
              Apply(old(journal.storage.Contents()), Ring.SaveWrites(old(journal.storage.Contents()), count))
    {
      hide Ring.RingAt, Ring.SaveWrites, Results.Loaded, Results.LoadedSlot;
      ResultsKept(journal.storage.Contents(), count);
      store.Save(count, journal.commits, journal.stored);
      journal.commits :=
        if journal.commits > 0 && count == journal.stored then journal.commits else journal.commits + 1;
      journal.stored := count;
    }

    /** A command from the gateway; `Unsupported` unless it is SET_COUNT. */
    method ApplyCommand(commandId: uint16, commandType: byte, arguments: seq<byte>)
      returns (status: CommandStatus, data: seq<byte>)
      requires Valid()
      modifies this`count, store, journal, journal.results, journal.storage.cells, journal.storage`log
      ensures Valid()
      ensures status == if commandType != SET_COUNT then Unsupported
                        else if |arguments| != 4 then InvalidArgument else CommandStatus.Applied
      ensures status.Applied? ==>
                && journal.storage.Contents() == Apply(
                     old(journal.storage.Contents()),
                     ApplyWrites(old(journal.storage.Contents()), old(count), commandId, Read32(arguments)))
                && journal.hasResult
                && data == Write32(journal.last.oldCount) + Write32(journal.last.appliedCount)
      ensures status.Applied? && !Redelivered(old(journal.storage.Contents()), commandId) ==>
                && count == Read32(arguments)
                && RecordOf(journal.last) == AppliedRecord(commandId, old(count), Read32(arguments))
      ensures !status.Applied? ==> data == [] && count == old(count)
      ensures !status.Applied? ==> journal.storage.log == old(journal.storage.log)
    {
      hide Ring.RingAt, ApplyWrites, Settled, Results.Loaded, Results.LoadedSlot;
      if commandType != SET_COUNT {
        return Unsupported, [];
      }
      if |arguments| != 4 {
        return InvalidArgument, [];
      }
      var outcome, newCount, result := journal.ApplyCommand(commandId, Read32(arguments), count);
      count := newCount;
      status, data := CommandStatus.Applied, Write32(result.oldCount) + Write32(result.appliedCount);
    }

    /** A new membership: command IDs start over, so the last one is forgotten. */
    method CommissionedAnew()
      requires Valid()
      modifies journal, store, journal.results, journal.storage.cells, journal.storage`log
      ensures Valid() && count == old(count)
      ensures journal.storage.log == old(journal.storage.log) + ForgetWrites(old(journal.storage.Contents()), count)
      ensures journal.storage.Contents() ==
              Apply(old(journal.storage.Contents()), ForgetWrites(old(journal.storage.Contents()), count))
    {
      hide Ring.RingAt, ForgetWrites, Settled, Results.Loaded, Results.LoadedSlot;
      journal.ForgetCommandIds(count);
    }
  }

  datatype CommandStatus = Applied | Unsupported | InvalidArgument
}
