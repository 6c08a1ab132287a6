/** SET_COUNT as three recoverable steps over the ring and the result record, and
    the counter profile that owns them. */
module SetCountJournal {
  import opened Bytes
  import opened Eeprom
  import opened Options
  import Ring = CounterRing
  import Results = SetCountStore

  // ---------------------------------------------------------------- the meaning of an image

  /** The durable record of one applied command. */
  datatype AppliedRecord = AppliedRecord(commandId: uint16, oldCount: uint32, appliedCount: uint32)

  /** What the counter profile has durably committed to. */
  datatype Durable = Durable(count: uint32, last: Option<AppliedRecord>)

  function RecordOf(v: Results.SetCountResult): AppliedRecord {
    AppliedRecord(v.commandId, v.oldCount, v.appliedCount)
  }

  /** A pending result already counts as applied: recovery will finish it. */
  function Meaning(image: Image): Durable {
    var stored := Results.Loaded(image);
    if stored.None? then Durable(Ring.LoadedCount(image), None)
    else if stored.value.status.Pending? then Durable(stored.value.appliedCount, Some(RecordOf(stored.value)))
    else Durable(Ring.LoadedCount(image), Some(RecordOf(stored.value)))
  }

  /** No command ID is recorded that a new command could be taken for. */
  predicate Unmarked(d: Durable) {
    d.last.None? || d.last.value.commandId == 0
  }

  ghost predicate GoodRing(image: Image) {
    exists commits: nat, count: uint32 :: Ring.RingAt(image, commits, count)
  }

  predicate Settled(image: Image) {
    Results.Loaded(image).Some? ==> Results.Loaded(image).value.status.Applied?
  }

  // ---------------------------------------------------------------- the byte updates of each operation

  /** `completePending` on an image whose result is pending. */
  function RecoverWrites(image: Image): seq<Write> {
    var stored := Results.Loaded(image);
    if stored.Some? && stored.value.status.Pending? then
      var first := Ring.SaveWrites(image, stored.value.appliedCount);
      first + Results.SaveWrites(Apply(image, first), stored.value.(status := Results.Applied))
    else []
  }

  predicate Redelivered(image: Image, commandId: uint16) {
    Results.Loaded(image).Some? && commandId != 0 && Results.Loaded(image).value.commandId == commandId
  }

  function PendingResult(count: uint32, commandId: uint16, requested: uint32): Results.SetCountResult {
    Results.SetCountResult(0, Results.Pending, commandId, count, requested)
  }

  /** `apply` with the RAM count `count`. */
  function ApplyWrites(image: Image, count: uint32, commandId: uint16, requested: uint32): seq<Write> {
    if Redelivered(image, commandId) then RecoverWrites(image)
    else
      var first := Results.SaveWrites(image, PendingResult(count, commandId, requested));
      first + RecoverWrites(Apply(image, first))
  }

  /** A counted pulse. */
  function PulseWrites(image: Image, count: uint32): seq<Write> {
    Ring.SaveWrites(image, (count + 1) % 0x1_0000_0000)
  }

  function ForgottenResult(count: uint32): Results.SetCountResult {
    Results.SetCountResult(0, Results.Applied, 0, count, count)
  }

  function ForgetWrites(image: Image, count: uint32): seq<Write> {
    if Results.Loaded(image).None? || Results.Loaded(image).value.commandId == 0 then []
    else Results.SaveWrites(image, ForgottenResult(count))
  }

  /** The update that commits a command: the last byte of its pending record. */
  const APPLY_COMMIT := 17
  const PULSE_COMMIT := 5

  // ---------------------------------------------------------------- cuts

  /** An interrupted ring save leaves the result record alone and the ring good. */
  lemma RingStep(image: Image, count: uint32, k: nat)
    requires GoodRing(image) && k <= |Ring.SaveWrites(image, count)|
    ensures
      var after := Cut(image, Ring.SaveWrites(image, count), k);
      && GoodRing(after)
      && Results.Loaded(after) == Results.Loaded(image)
      && Ring.LoadedCount(after) ==
         (if k == |Ring.SaveWrites(image, count)| then count else Ring.LoadedCount(image))
  {
    hide Ring.RingAt, Ring.SaveWrites, Ring.Loaded, Ring.LoadedCount, Results.Loaded, Results.LoadedSlot;
    var commits: nat, stored: uint32 :| Ring.RingAt(image, commits, stored);
    var writes := Ring.SaveWrites(image, count);
    var after := Cut(image, writes, k);
    Ring.SaveWithin(image, count);
    Ring.SaveIsAtomic(image, commits, stored, count, k);
    Ring.LoadFindsLast(image, commits, stored);
    CutOutside(image, writes, k, COUNTER_RING_START, EEPROM_SIZE, Results.SET_COUNT_SLOT_A, COUNTER_RING_START);
    Results.LoadedFrame(after, image);
    if k < 5 {
      Ring.LoadFindsLast(after, commits, stored);
    } else {
      Ring.LoadFindsLast(after, commits + 1, count);
    }
  }

  /** An interrupted result save leaves the ring alone. */
  lemma ResultStep(image: Image, v: Results.SetCountResult, k: nat)
    requires GoodRing(image) && k <= |Results.SaveWrites(image, v)|
    ensures
      var after := Cut(image, Results.SaveWrites(image, v), k);
      && GoodRing(after)
      && Ring.LoadedCount(after) == Ring.LoadedCount(image)
      && Results.Loaded(after) ==
         (if k == |Results.SaveWrites(image, v)| then Some(Results.Stamped(image, v)) else Results.Loaded(image))
  {
    hide Ring.RingAt, Ring.Loaded, Results.Loaded, Results.LoadedSlot, Results.SaveWrites;
    var commits: nat, stored: uint32 :| Ring.RingAt(image, commits, stored);
    var writes := Results.SaveWrites(image, v);
    var after := Cut(image, writes, k);
    Results.SaveWithin(image, v);
    CutOutside(image, writes, k, Results.SET_COUNT_SLOT_A, COUNTER_RING_START, COUNTER_RING_START, EEPROM_SIZE);
    assert after[COUNTER_RING_START..] == image[COUNTER_RING_START..];
    Ring.RingFrame(image, after, commits, stored);
    Results.SaveIsAtomic(image, v, k);
  }

  /** Recovery, however often it is cut, never changes what the image means; once
      it completes nothing is pending. */
  lemma RecoveryKeepsMeaning(image: Image, k: nat)
    requires GoodRing(image) && k <= |RecoverWrites(image)|
    ensures GoodRing(Cut(image, RecoverWrites(image), k))
    ensures Meaning(Cut(image, RecoverWrites(image), k)) == Meaning(image)
    ensures k == |RecoverWrites(image)| ==> Settled(Cut(image, RecoverWrites(image), k))
  {
    hide Ring.SaveWrites, Ring.LoadedCount, Results.Loaded, Results.SaveWrites;
    var stored := Results.Loaded(image);
    if stored.Some? && stored.value.status.Pending? {
      var first := Ring.SaveWrites(image, stored.value.appliedCount);
      var middle := Apply(image, first);
      var second := Results.SaveWrites(middle, stored.value.(status := Results.Applied));
      CutConcat(image, first, second, k);
      CutWhole(image, first);
      RingStep(image, stored.value.appliedCount, |first|);
      if k <= |first| {
        RingStep(image, stored.value.appliedCount, k);
      }
      if k >= |first| {
        ResultStep(middle, stored.value.(status := Results.Applied), k - |first|);
      }
    } else {
      assert RecoverWrites(image)[..k] == [];
    }
  }

  /** `apply` is atomic: cut before its commit byte it leaves the meaning that was
      there, cut later the whole effect. */
  lemma ApplyIsAtomic(image: Image, commandId: uint16, requested: uint32, k: nat)
    requires GoodRing(image) && Settled(image)
    requires k <= |ApplyWrites(image, Meaning(image).count, commandId, requested)|
    ensures
      var before := Meaning(image);
      var writes := ApplyWrites(image, before.count, commandId, requested);
      var after := Cut(image, writes, k);
      && GoodRing(after)
      && Meaning(after) ==
         (if k < APPLY_COMMIT || Redelivered(image, commandId) then before
          else Durable(requested, Some(AppliedRecord(commandId, before.count, requested))))
      && (k == |writes| ==> Settled(after))
      && (if Redelivered(image, commandId) then writes == [] else |writes| >= APPLY_COMMIT)
  {
    hide Ring.SaveWrites, Ring.LoadedCount, Results.Loaded, Results.SaveWrites;
    var before := Meaning(image);
    var writes := ApplyWrites(image, before.count, commandId, requested);
    if Redelivered(image, commandId) {
      assert writes[..k] == [];
    } else {
      var v := PendingResult(before.count, commandId, requested);
      var first := Results.SaveWrites(image, v);
      var middle := Apply(image, first);
      CutConcat(image, first, RecoverWrites(middle), k);
      CutWhole(image, first);
      ResultStep(image, v, |first|);
      if k <= |first| {
        ResultStep(image, v, k);
      }
      if k >= |first| {
        RecoveryKeepsMeaning(middle, k - |first|);
      }
    }
  }

  lemma PulseIsAtomic(image: Image, k: nat)
    requires GoodRing(image) && Settled(image)
    requires k <= |PulseWrites(image, Meaning(image).count)|
    ensures
      var before := Meaning(image);
      var after := Cut(image, PulseWrites(image, before.count), k);
      && |PulseWrites(image, before.count)| == PULSE_COMMIT
      && GoodRing(after) && Settled(after)
      && Meaning(after) == (if k < PULSE_COMMIT then before else before.(count := (before.count + 1) % 0x1_0000_0000))
  {
    hide Ring.RingAt, Ring.SaveWrites, Ring.Loaded, Ring.LoadedCount, Results.Loaded;
    RingStep(image, (Meaning(image).count + 1) % 0x1_0000_0000, k);
    var commits: nat, stored: uint32 :| Ring.RingAt(image, commits, stored);
    Ring.LoadFindsLast(image, commits, stored);
    Ring.SaveIsAtomic(image, commits, stored, (Meaning(image).count + 1) % 0x1_0000_0000, k);
  }

  lemma ForgetIsAtomic(image: Image, k: nat)
    requires GoodRing(image) && Settled(image)
    requires k <= |ForgetWrites(image, Meaning(image).count)|
    ensures
      var before := Meaning(image);
      var writes := ForgetWrites(image, before.count);
      var after := Cut(image, writes, k);
      && GoodRing(after) && Settled(after)
      && (writes != [] && k == |writes| ==>
            Meaning(after) == before.(last := Some(AppliedRecord(0, before.count, before.count))))
      && (writes == [] || k < |writes| ==> Meaning(after) == before)
      && (writes == [] ==> before.last.None? || before.last.value.commandId == 0)
  {
    hide Ring.RingAt, Ring.LoadedCount, Results.Loaded, Results.SaveWrites;
    var before := Meaning(image);
    var writes := ForgetWrites(image, before.count);
    if writes == [] {
      assert writes[..k] == [];
    } else {
      ResultStep(image, ForgottenResult(before.count), k);
    }
  }

  // ---------------------------------------------------------------- the journal theorem

  /** Reboots that each lose power after some byte updates of recovery. */
  function AfterFailedBoots(image: Image, cuts: seq<nat>): Image {
    if cuts == [] then image
    else
      var before := AfterFailedBoots(image, cuts[..|cuts| - 1]);
      var cut := cuts[|cuts| - 1];
      var writes := RecoverWrites(before);
      Cut(before, writes, if cut <= |writes| then cut else |writes|)
  }

  lemma {:induction false} FailedBootsKeepMeaning(image: Image, cuts: seq<nat>)
    requires GoodRing(image)
    ensures GoodRing(AfterFailedBoots(image, cuts))
    ensures Meaning(AfterFailedBoots(image, cuts)) == Meaning(image)
  {
    if cuts != [] {
      hide Meaning, RecoverWrites, GoodRing;
      var before := AfterFailedBoots(image, cuts[..|cuts| - 1]);
      var cut := cuts[|cuts| - 1];
      FailedBootsKeepMeaning(image, cuts[..|cuts| - 1]);
      var writes := RecoverWrites(before);
      RecoveryKeepsMeaning(before, if cut <= |writes| then cut else |writes|);
    }
  }

  /** Cut `apply` after any number of byte updates, then lose power in any number
      of recoveries: the first recovery that completes leaves either the old count
      and record, or the requested count with the record of the change. Applying
      the same command again then issues no update at all. */
  lemma JournalIsAtomic(
    image: Image, commandId: uint16, requested: uint32, k: nat, cuts: seq<nat>) returns (recovered: Image)
    requires GoodRing(image) && Settled(image)
    requires k <= |ApplyWrites(image, Meaning(image).count, commandId, requested)|
    ensures
      var broken := AfterFailedBoots(
        Cut(image, ApplyWrites(image, Meaning(image).count, commandId, requested), k), cuts);
      recovered == Apply(broken, RecoverWrites(broken))
    ensures GoodRing(recovered) && Settled(recovered)
    ensures Ring.LoadedCount(recovered) == Meaning(recovered).count
    ensures Meaning(recovered) ==
            if k < APPLY_COMMIT || Redelivered(image, commandId) then Meaning(image)
            else Durable(requested, Some(AppliedRecord(commandId, Meaning(image).count, requested)))
    ensures commandId != 0 && k >= APPLY_COMMIT ==>
              forall count, again :: ApplyWrites(recovered, count, commandId, again) == []
  {
    hide Ring.SaveWrites, Ring.LoadedCount, Results.Loaded, Results.SaveWrites, GoodRing;
    var cut := Cut(image, ApplyWrites(image, Meaning(image).count, commandId, requested), k);
    ApplyIsAtomic(image, commandId, requested, k);
    FailedBootsKeepMeaning(cut, cuts);
    var broken := AfterFailedBoots(cut, cuts);
    RecoveryKeepsMeaning(broken, |RecoverWrites(broken)|);
    CutWhole(broken, RecoverWrites(broken));
    recovered := Apply(broken, RecoverWrites(broken));
  }

  // ---------------------------------------------------------------- the class

  /** The third outcome of the code, a failed save, cannot occur: both statuses
      encode and an EEPROM update reports no error. */
  datatype Outcome = Applied | Redelivery

  class Journal {
    const storage: Device
    const counter: Ring.Store
    const results: Results.Store
    var last: Results.SetCountResult
    var hasResult: bool
    ghost var commits: nat
    ghost var stored: uint32

    ghost predicate Valid()
      reads this, counter, results, storage.cells
    {
      && counter.storage == storage && results.storage == storage
      && counter.Valid(commits, stored)
      && results.Valid()
    }

    /** The RAM copy is the stored record. */
    ghost predicate Consistent()
      reads this, counter, results, storage.cells
    {
      Valid() && Results.Loaded(storage.Contents()) == (if hasResult then Some(last) else None)
    }

    /** Moreover nothing is pending, as after recovery. */
    ghost predicate Ready()
      reads this, counter, results, storage.cells
    {
      Consistent() && Settled(storage.Contents())
    }

    constructor (counter: Ring.Store, results: Results.Store, ghost commits: nat, ghost stored: uint32)
      requires counter.storage == results.storage
      requires counter.Valid(commits, stored) && results.Valid()
      ensures Valid() && this.counter == counter && this.results == results && storage == counter.storage
      ensures this.commits == commits && this.stored == stored
    {
      this.storage, this.counter, this.results := counter.storage, counter, results;
      this.last, this.hasResult := Results.SetCountResult(0, Results.Pending, 0, 0, 0), false;
      this.commits, this.stored := commits, stored;
    }

    /** Finishes an apply that a reset interrupted. */
    method Recover(count: uint32) returns (recovered: uint32)
      requires Valid() && count == stored
      modifies this, counter, results, storage.cells, storage`log
      ensures Ready()
      ensures storage.log == old(storage.log) + RecoverWrites(old(storage.Contents()))
      ensures storage.Contents() == Apply(old(storage.Contents()), RecoverWrites(old(storage.Contents())))
      ensures recovered == stored == Meaning(old(storage.Contents())).count
    {
      hide Ring.RingAt, Ring.SaveWrites, Results.SaveWrites, Ring.Loaded, Results.Loaded, Results.LoadedSlot;
      ghost var image := storage.Contents();
      Ring.LoadFindsLast(image, commits, stored);
      var loaded := results.Load();
      hasResult := loaded.Some?;
      recovered := count;
      if hasResult {
        last := loaded.value;
        if last.status.Pending? {
          recovered := CompletePending();
        }
      }
    }

    method CompletePending() returns (count: uint32)
      requires Valid() && hasResult && last.status.Pending?
      requires Results.Loaded(storage.Contents()) == Some(last)
      modifies this, counter, results, storage.cells, storage`log
      ensures Ready() && hasResult
      ensures last == old(last).(status := Results.Applied, generation := last.generation)
      ensures storage.log == old(storage.log) + RecoverWrites(old(storage.Contents()))
      ensures storage.Contents() == Apply(old(storage.Contents()), RecoverWrites(old(storage.Contents())))
      ensures count == stored == old(last).appliedCount
    {
      hide Ring.RingAt, Ring.SaveWrites, Results.SaveWrites, Ring.Loaded, Results.Loaded, Results.LoadedSlot;
      ghost var image := storage.Contents();
      count := last.appliedCount;
      ghost var first := Ring.SaveWrites(image, count);
      counter.Save(count, commits, stored);
      commits, stored := if commits > 0 && count == stored then commits else commits + 1, count;
      ghost var middle := storage.Contents();
      ResultsKept(image, count);
      last := last.(status := Results.Applied);
      ghost var second := Results.SaveWrites(middle, last);
      ghost var pending := last;
      last := results.Save(last);
      ApplyConcat(image, first, second);
      Results.SaveIsAtomic(middle, pending, |second|);
      CutWhole(middle, second);
      RingKept(middle, pending, commits, stored);
    }

    method ApplyCommand(commandId: uint16, requested: uint32, count: uint32)
      returns (outcome: Outcome, newCount: uint32, result: Results.SetCountResult)
      requires Consistent() && count == stored
      modifies this, counter, results, storage.cells, storage`log
      ensures Ready() && newCount == stored
      ensures storage.log == old(storage.log) + ApplyWrites(old(storage.Contents()), count, commandId, requested)
      ensures storage.Contents() ==
              Apply(old(storage.Contents()), ApplyWrites(old(storage.Contents()), count, commandId, requested))
      ensures outcome == if Redelivered(old(storage.Contents()), commandId) then Redelivery else Applied
      ensures newCount == if outcome.Applied? then requested
                          else if old(last.status).Pending? then old(last.appliedCount) else count
      ensures outcome.Redelivery? ==> hasResult && result == last && RecordOf(result) == old(RecordOf(last))
      ensures outcome.Applied? ==> hasResult && result == last && RecordOf(result) == AppliedRecord(commandId, count, requested)
    {
      hide Ring.RingAt, Ring.SaveWrites, Results.SaveWrites, Ring.Loaded, Results.Loaded, Results.LoadedSlot;
      ghost var image := storage.Contents();
      newCount := count;
      if hasResult && commandId != 0 && last.commandId == commandId {
        if last.status.Pending? {
          newCount := CompletePending();
        }
        return Redelivery, newCount, last;
      }
      var next := PendingResult(count, commandId, requested);
      ghost var first := Results.SaveWrites(image, next);
      last := results.Save(next);
      hasResult := true;
      Results.SaveIsAtomic(image, next, |first|);
      CutWhole(image, first);
      RingKept(image, next, commits, stored);
      ghost var middle := storage.Contents();
      newCount := CompletePending();
      ApplyConcat(image, first, RecoverWrites(middle));
      return Applied, newCount, last;
    }

    /** Commissioning starts a new space of command IDs. */
    method ForgetCommandIds(count: uint32)
      requires Ready() && count == stored
      modifies this, counter, results, storage.cells, storage`log
      ensures Ready() && stored == old(stored)
      ensures storage.log == old(storage.log) + ForgetWrites(old(storage.Contents()), count)
      ensures storage.Contents() == Apply(old(storage.Contents()), ForgetWrites(old(storage.Contents()), count))
    {
      hide Ring.RingAt, Results.SaveWrites, Ring.Loaded, Results.Loaded, Results.LoadedSlot;
      if !hasResult || last.commandId == 0 {
        return;
      }
      ghost var image := storage.Contents();
      var cleared := ForgottenResult(count);
      last := results.Save(cleared);
      Results.SaveIsAtomic(image, cleared, |Results.SaveWrites(image, cleared)|);
      CutWhole(image, Results.SaveWrites(image, cleared));
      RingKept(image, cleared, commits, stored);
    }
  }

  lemma ResultsKept(image: Image, count: uint32)
    ensures
      var after := Apply(image, Ring.SaveWrites(image, count));
      Results.LoadedSlot(after) == Results.LoadedSlot(image) && Results.Loaded(after) == Results.Loaded(image)
  {
    hide Ring.SaveWrites, Results.Loaded, Results.LoadedSlot;
    var writes := Ring.SaveWrites(image, count);
    Ring.SaveWithin(image, count);
    CutWhole(image, writes);
    CutOutside(
      image, writes, |writes|, COUNTER_RING_START, EEPROM_SIZE,
      Results.SET_COUNT_SLOT_A, COUNTER_RING_START);
    Results.LoadedFrame(Apply(image, writes), image);
  }

  lemma RingKept(image: Image, v: Results.SetCountResult, commits: nat, stored: uint32)
    requires Ring.RingAt(image, commits, stored)
    ensures Ring.RingAt(Apply(image, Results.SaveWrites(image, v)), commits, stored)
  {
    hide Ring.RingAt, Results.SaveWrites;
    var writes := Results.SaveWrites(image, v);
    Results.SaveWithin(image, v);
    CutWhole(image, writes);
    CutOutside(image, writes, |writes|, Results.SET_COUNT_SLOT_A, COUNTER_RING_START, COUNTER_RING_START, EEPROM_SIZE);
    assert Apply(image, writes)[COUNTER_RING_START..] == image[COUNTER_RING_START..];
    Ring.RingFrame(image, Apply(image, writes), commits, stored);
  }
}
