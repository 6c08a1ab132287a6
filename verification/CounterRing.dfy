/** The wear-levelled counter: 32 records of a sequence byte and a 32-bit count.

    A sequence runs through 0..254; 255 marks a record that was never written.
    A save writes the count first and the sequence byte last, without
    invalidating the oldest record it replaces. */
module CounterRing {
  import opened Bytes
  import opened Eeprom

  const COUNTER_RECORD_SIZE := 5
  const COUNTER_RECORD_COUNT := 32

  function SequenceIsNewer(candidate: byte, current: byte): bool {
    var delta := if candidate >= current then candidate - current else candidate + 255 - current;
    delta != 0 && delta < 128
  }

  function RecordAddress(slot: nat): (a: nat)
    requires slot < COUNTER_RECORD_COUNT
    ensures COUNTER_RING_START <= a && a + COUNTER_RECORD_SIZE <= EEPROM_SIZE
  {
    COUNTER_RING_START + slot * COUNTER_RECORD_SIZE
  }

  function SequenceAt(image: Image, slot: nat): byte
    requires slot < COUNTER_RECORD_COUNT
  {
    image[RecordAddress(slot)]
  }

  function CountAt(image: Image, slot: nat): uint32
    requires slot < COUNTER_RECORD_COUNT
  {
    Read32(image[RecordAddress(slot) + 1..RecordAddress(slot) + 5])
  }

  datatype Newest = Nothing | Record(slot: nat, sequence: byte, count: uint32)

  /** The record chosen from the first `slots` of the ring. */
  function Scan(image: Image, slots: nat): (r: Newest)
    requires slots <= COUNTER_RECORD_COUNT
    ensures r.Record? ==> r.slot < slots && r.sequence == SequenceAt(image, r.slot) != 0xFF
    ensures r.Record? ==> r.count == CountAt(image, r.slot)
  {
    if slots == 0 then Nothing
    else
      var before := Scan(image, slots - 1);
      var sequence := SequenceAt(image, slots - 1);
      if sequence != 0xFF && (before.Nothing? || SequenceIsNewer(sequence, before.sequence))
      then Record(slots - 1, sequence, CountAt(image, slots - 1))
      else before
  }

  function Loaded(image: Image): Newest {
    Scan(image, COUNTER_RECORD_COUNT)
  }

  /** The count `load` hands out: zero for a ring that was never written. */
  function LoadedCount(image: Image): uint32 {
    if Loaded(image).Record? then Loaded(image).count else 0
  }

  function NextSlot(newest: Newest): (slot: nat)
    ensures slot < COUNTER_RECORD_COUNT
  {
    if newest.Record? then (newest.slot + 1) % COUNTER_RECORD_COUNT else 0
  }

  function NextSequence(newest: Newest): byte {
    if newest.Nothing? then 0
    else if newest.sequence == 0xFE then 0
    else (newest.sequence + 1) % 0x100
  }

  /** The byte updates of one save; none if the count is already stored. */
  function SaveWrites(image: Image, count: uint32): seq<Write> {
    var newest := Loaded(image);
    if newest.Record? && newest.count == count then []
    else
      var address := RecordAddress(NextSlot(newest));
      Block(address + 1, Write32(count)) + [Write(address, NextSequence(newest))]
  }

  // ---------------------------------------------------------------- what a ring looks like

  /** The index of the last of `commits` records written to `slot`, or -1. Record
      number i went to slot i mod 32 with sequence i mod 255. */
  function LastIndex(commits: nat, slot: nat): (i: int)
    requires slot < COUNTER_RECORD_COUNT
    ensures i >= -1
    ensures i == -1 <==> commits <= slot
    ensures i >= 0 ==> i < commits && i % COUNTER_RECORD_COUNT == slot && commits - i <= COUNTER_RECORD_COUNT
  {
    if commits <= slot then -1
    else commits - 1 - (commits - 1 - slot) % COUNTER_RECORD_COUNT
  }

  function SequenceOf(index: int): byte
    requires index >= -1
  {
    if index == -1 then 0xFF else index % 255
  }

  /** The ring after `commits` saves, the last of which stored `count`. The count
      bytes of every other record are left open, so an interrupted save is covered. */
  predicate RingAt(image: Image, commits: nat, count: uint32) {
    && (forall slot :: 0 <= slot < COUNTER_RECORD_COUNT ==>
          SequenceAt(image, slot) == SequenceOf(LastIndex(commits, slot)))
    && (commits == 0 ==> count == 0)
    && (commits > 0 ==> CountAt(image, (commits - 1) % COUNTER_RECORD_COUNT) == count)
  }

  /** Sequence order agrees with commit order inside half the sequence range. */
  lemma SequenceOrder(a: nat, b: nat)
    requires -128 < a - b < 128
    ensures SequenceIsNewer(a % 255, b % 255) <==> a > b
  {
    var p, q := a / 255, b / 255;
    assert a == 255 * p + a % 255 && b == 255 * q + b % 255;
    assert -1 <= p - q <= 1;
  }

  /** The record with the largest index among the first `slots` slots. */
  function BestIndex(commits: nat, slots: nat): int
    requires slots <= COUNTER_RECORD_COUNT
  {
    if slots == 0 then -1
    else
      var i := LastIndex(commits, slots - 1);
      if i > BestIndex(commits, slots - 1) then i else BestIndex(commits, slots - 1)
  }

  lemma {:induction false} BestBounds(commits: nat, slots: nat)
    requires slots <= COUNTER_RECORD_COUNT
    ensures BestIndex(commits, slots) < commits
    ensures BestIndex(commits, slots) >= -1
    ensures BestIndex(commits, slots) >= 0 ==> commits - BestIndex(commits, slots) <= COUNTER_RECORD_COUNT
    ensures forall slot :: 0 <= slot < slots ==> LastIndex(commits, slot) <= BestIndex(commits, slots)
  {
    if slots > 0 {
      BestBounds(commits, slots - 1);
    }
  }

  /** The scan follows the commit order although it starts at slot 0 and
      sequences wrap. */
  lemma {:induction false} ScanFindsBest(image: Image, commits: nat, count: uint32, slots: nat)
    requires slots <= COUNTER_RECORD_COUNT && RingAt(image, commits, count)
    ensures Scan(image, slots).Nothing? <==> BestIndex(commits, slots) == -1
    ensures Scan(image, slots).Record? ==>
              && Scan(image, slots).slot == BestIndex(commits, slots) % COUNTER_RECORD_COUNT
              && Scan(image, slots).sequence == BestIndex(commits, slots) % 255
  {
    hide LastIndex, SequenceIsNewer, CountAt, RecordAddress, SequenceOf;
    if slots > 0 {
      ScanFindsBest(image, commits, count, slots - 1);
      BestBounds(commits, slots - 1);
      var before, after := Scan(image, slots - 1), Scan(image, slots);
      var i, best := LastIndex(commits, slots - 1), BestIndex(commits, slots - 1);
      var sequence := SequenceAt(image, slots - 1);
      assert sequence == SequenceOf(i);
      assert BestIndex(commits, slots) == if i > best then i else best;
      ScanStep(before, after, i, best, BestIndex(commits, slots), slots - 1, sequence);
    }
  }

  lemma ScanStep(before: Newest, after: Newest, i: int, best: int, best': int, slot: nat, sequence: byte)
    requires i >= -1 && best >= -1 && slot < COUNTER_RECORD_COUNT
    requires i >= 0 && best >= 0 ==> -128 < i - best < 128
    requires best' == if i > best then i else best
    requires i >= 0 ==> i % COUNTER_RECORD_COUNT == slot
    requires sequence == SequenceOf(i)
    requires before.Nothing? <==> best == -1
    requires before.Record? ==> before.slot == best % COUNTER_RECORD_COUNT && before.sequence == best % 255
    requires if sequence != 0xFF && (before.Nothing? || SequenceIsNewer(sequence, before.sequence))
             then after.Record? && after.slot == slot && after.sequence == sequence
             else after == before
    ensures after.Nothing? <==> best' == -1
    ensures after.Record? ==> after.slot == best' % COUNTER_RECORD_COUNT && after.sequence == best' % 255
  {
    if i >= 0 && best >= 0 {
      SequenceOrder(i, best);
    }
  }

  lemma LatestSlot(commits: nat)
    requires commits > 0
    ensures LastIndex(commits, (commits - 1) % COUNTER_RECORD_COUNT) == commits - 1
  {
    var slot := (commits - 1) % COUNTER_RECORD_COUNT;
    assert (commits - 1 - slot) % COUNTER_RECORD_COUNT == 0;
  }

  lemma {:induction false} BestOfNone(slots: nat)
    requires slots <= COUNTER_RECORD_COUNT
    ensures BestIndex(0, slots) == -1
  {
    if slots > 0 {
      BestOfNone(slots - 1);
    }
  }

  /** `load` returns the last committed count. */
  lemma LoadFindsLast(image: Image, commits: nat, count: uint32)
    requires RingAt(image, commits, count)
    ensures LoadedCount(image) == count
    ensures commits == 0 ==> Loaded(image).Nothing?
    ensures commits > 0 ==>
              Loaded(image) == Record((commits - 1) % COUNTER_RECORD_COUNT, (commits - 1) % 255, count)
  {
    hide Scan, BestIndex, LastIndex, CountAt, SequenceAt;
    ScanFindsBest(image, commits, count, COUNTER_RECORD_COUNT);
    BestBounds(commits, COUNTER_RECORD_COUNT);
    if commits > 0 {
      LatestSlot(commits);
    } else {
      assert BestIndex(commits, COUNTER_RECORD_COUNT) == -1 by { BestOfNone(COUNTER_RECORD_COUNT); }
    }
  }

  lemma LastIndexStep(commits: nat, slot: nat)
    requires slot < COUNTER_RECORD_COUNT
    ensures LastIndex(commits + 1, slot) ==
            if slot == commits % COUNTER_RECORD_COUNT then commits else LastIndex(commits, slot)
  {
    if slot == commits % COUNTER_RECORD_COUNT {
      assert (commits - slot) % COUNTER_RECORD_COUNT == 0;
    } else if commits > slot {
      assert (commits - slot) % COUNTER_RECORD_COUNT != 0;
      assert (commits - slot) % COUNTER_RECORD_COUNT == (commits - 1 - slot) % COUNTER_RECORD_COUNT + 1;
    }
  }

  lemma SlotSuccessor(index: nat)
    ensures (index % COUNTER_RECORD_COUNT + 1) % COUNTER_RECORD_COUNT == (index + 1) % COUNTER_RECORD_COUNT
  {
  }

  lemma SequenceSuccessor(index: nat)
    ensures (index + 1) % 255 == if index % 255 == 0xFE then 0 else index % 255 + 1
  {
  }

  /** The next save of a ring goes to slot `commits` mod 32 with sequence
      `commits` mod 255. */
  lemma NextRecord(image: Image, commits: nat, count: uint32)
    requires RingAt(image, commits, count)
    ensures NextSlot(Loaded(image)) == commits % COUNTER_RECORD_COUNT
    ensures NextSequence(Loaded(image)) == commits % 255
    ensures Loaded(image).Record? <==> commits > 0
    ensures commits > 0 ==> Loaded(image).count == count
  {
    hide Scan, RingAt, Loaded;
    LoadFindsLast(image, commits, count);
    if commits > 0 {
      SlotSuccessor(commits - 1);
      SequenceSuccessor(commits - 1);
    }
  }

  lemma SaveWithin(image: Image, count: uint32)
    ensures Within(SaveWrites(image, count), COUNTER_RING_START, EEPROM_SIZE)
    ensures |SaveWrites(image, count)| == 0 || |SaveWrites(image, count)| == 5
  {
    hide Scan, Write32;
  }

  /** Only the 160 cells of the ring matter to it. */
  lemma {:induction false} ScanFrame(x: Image, y: Image, slots: nat)
    requires slots <= COUNTER_RECORD_COUNT && x[COUNTER_RING_START..] == y[COUNTER_RING_START..]
    ensures Scan(x, slots) == Scan(y, slots)
  {
    if slots > 0 {
      ScanFrame(x, y, slots - 1);
      SlotFrame(x, y, slots - 1);
    }
  }

  lemma SlotFrame(x: Image, y: Image, slot: nat)
    requires slot < COUNTER_RECORD_COUNT && x[COUNTER_RING_START..] == y[COUNTER_RING_START..]
    ensures SequenceAt(x, slot) == SequenceAt(y, slot) && CountAt(x, slot) == CountAt(y, slot)
  {
    var p, q := x[COUNTER_RING_START..], y[COUNTER_RING_START..];
    var at := slot * COUNTER_RECORD_SIZE;
    assert p[at] == SequenceAt(x, slot) && q[at] == SequenceAt(y, slot);
    assert x[RecordAddress(slot) + 1..RecordAddress(slot) + 5] == p[at + 1..at + 5];
    assert y[RecordAddress(slot) + 1..RecordAddress(slot) + 5] == q[at + 1..at + 5];
  }

  lemma RingFrame(x: Image, y: Image, commits: nat, count: uint32)
    requires x[COUNTER_RING_START..] == y[COUNTER_RING_START..] && RingAt(x, commits, count)
    ensures RingAt(y, commits, count) && Loaded(x) == Loaded(y)
  {
    ScanFrame(x, y, COUNTER_RECORD_COUNT);
    forall slot | 0 <= slot < COUNTER_RECORD_COUNT
      ensures SequenceAt(x, slot) == SequenceAt(y, slot) && CountAt(x, slot) == CountAt(y, slot)
    {
      SlotFrame(x, y, slot);
    }
  }

  /** Writing the count bytes of the slot to come disturbs no record. */
  lemma CountBytesHarmless(image: Image, after: Image, commits: nat, count: uint32)
    requires RingAt(image, commits, count)
    requires
      var address := RecordAddress(commits % COUNTER_RECORD_COUNT);
      forall a :: 0 <= a < 256 && !(address + 1 <= a < address + 5) ==> after[a] == image[a]
    ensures RingAt(after, commits, count)
  {
    if commits > 0 {
      var latest := (commits - 1) % COUNTER_RECORD_COUNT;
      assert latest != commits % COUNTER_RECORD_COUNT;
      OtherCount(image, after, latest, commits % COUNTER_RECORD_COUNT);
    }
  }

  lemma OtherCount(image: Image, after: Image, slot: nat, changed: nat)
    requires slot < COUNTER_RECORD_COUNT && changed < COUNTER_RECORD_COUNT && slot != changed
    requires forall a :: 0 <= a < 256 && !(RecordAddress(changed) <= a < RecordAddress(changed) + 5) ==>
                           after[a] == image[a]
    ensures CountAt(after, slot) == CountAt(image, slot)
  {
    var at := RecordAddress(slot);
    assert after[at + 1..at + 5] == image[at + 1..at + 5];
  }

  /** The sequence byte commits the record. */
  lemma SequenceCommits(image: Image, after: Image, commits: nat, count: uint32, saved: uint32)
    requires RingAt(image, commits, count)
    requires
      var address := RecordAddress(commits % COUNTER_RECORD_COUNT);
      && (forall a :: 0 <= a < 256 && !(address <= a < address + 5) ==> after[a] == image[a])
      && after[address] == commits % 255
      && after[address + 1..address + 5] == Write32(saved)
    ensures RingAt(after, commits + 1, saved)
  {
    var target := commits % COUNTER_RECORD_COUNT;
    ReadWrite32(saved);
    forall slot | 0 <= slot < COUNTER_RECORD_COUNT
      ensures SequenceAt(after, slot) == SequenceOf(LastIndex(commits + 1, slot))
    {
      LastIndexStep(commits, slot);
      if slot != target {
        assert SequenceAt(after, slot) == SequenceAt(image, slot);
      }
    }
  }

  /** A save is atomic at its sequence byte: cut earlier, the ring still holds
      the previous count. */
  lemma SaveIsAtomic(image: Image, commits: nat, count: uint32, saved: uint32, k: nat)
    requires RingAt(image, commits, count) && k <= |SaveWrites(image, saved)|
    ensures k < 5 ==> RingAt(Cut(image, SaveWrites(image, saved), k), commits, count)
    ensures k == 5 ==> RingAt(Cut(image, SaveWrites(image, saved), k), commits + 1, saved)
    ensures |SaveWrites(image, saved)| == if commits > 0 && saved == count then 0 else 5
  {
    hide Scan, RingAt, SequenceAt, CountAt;
    NextRecord(image, commits, count);
    SaveWithin(image, saved);
    var writes := SaveWrites(image, saved);
    var after := Cut(image, writes, k);
    if writes == [] {
      assert writes[..k] == [];
    } else {
      var address := RecordAddress(commits % COUNTER_RECORD_COUNT);
      var block := Block(address + 1, Write32(saved));
      if k < 5 {
        assert Within(writes[..k], address + 1, address + 5);
        ApplyOutside(image, writes[..k], address + 1, address + 5);
        CountBytesHarmless(image, after, commits, count);
      } else {
        CutWhole(image, writes);
        ApplySnoc(image, block, Write(address, commits % 255));
        ApplyBlock(image, address + 1, Write32(saved));
        SequenceCommits(image, after, commits, count, saved);
      }
    }
  }

  // ---------------------------------------------------------------- whole histories

  /** One save of a history, cut after `cut` byte updates if it issues more. */
  datatype Attempt = Attempt(count: uint32, cut: nat)

  predicate Blank(image: Image) {
    forall slot :: 0 <= slot < COUNTER_RECORD_COUNT ==> SequenceAt(image, slot) == 0xFF
  }

  function Issued(image: Image, attempt: Attempt): seq<Write> {
    var writes := SaveWrites(image, attempt.count);
    if attempt.cut < |writes| then writes[..attempt.cut] else writes
  }

  function ImageAfter(image: Image, history: seq<Attempt>): Image {
    if history == [] then image
    else
      var before := ImageAfter(image, history[..|history| - 1]);
      Apply(before, Issued(before, history[|history| - 1]))
  }

  function LogAfter(image: Image, history: seq<Attempt>): seq<Write> {
    if history == [] then []
    else
      var front := history[..|history| - 1];
      LogAfter(image, front) + Issued(ImageAfter(image, front), history[|history| - 1])
  }

  /** The register the ring stands for: a save takes effect with its fifth byte. */
  function Register(history: seq<Attempt>): uint32 {
    if history == [] then 0
    else if history[|history| - 1].cut >= 5 then history[|history| - 1].count
    else Register(history[..|history| - 1])
  }

  function SequenceWear(log: seq<Write>, slot: nat): nat
    requires slot < COUNTER_RECORD_COUNT
  {
    if log == [] then 0
    else
      SequenceWear(log[..|log| - 1], slot) + if log[|log| - 1].address == RecordAddress(slot) then 1 else 0
  }

  lemma {:induction false} WearConcat(p: seq<Write>, q: seq<Write>, slot: nat)
    requires slot < COUNTER_RECORD_COUNT
    ensures SequenceWear(p + q, slot) == SequenceWear(p, slot) + SequenceWear(q, slot)
  {
    if q == [] {
      assert p + q == p;
    } else {
      WearConcat(p, q[..|q| - 1], slot);
      assert (p + q)[..|p + q| - 1] == p + q[..|q| - 1];
    }
  }

  lemma {:induction false} NoWear(log: seq<Write>, slot: nat)
    requires slot < COUNTER_RECORD_COUNT
    requires forall i :: 0 <= i < |log| ==> log[i].address != RecordAddress(slot)
    ensures SequenceWear(log, slot) == 0
  {
    if log != [] {
      NoWear(log[..|log| - 1], slot);
    }
  }

  /** How often a slot was committed in `commits` saves. */
  function Turns(commits: nat, slot: nat): nat
    requires slot < COUNTER_RECORD_COUNT
  {
    (commits + COUNTER_RECORD_COUNT - 1 - slot) / COUNTER_RECORD_COUNT
  }

  lemma TurnsStep(commits: nat, slot: nat)
    requires slot < COUNTER_RECORD_COUNT
    ensures Turns(commits + 1, slot) ==
            Turns(commits, slot) + if slot == commits % COUNTER_RECORD_COUNT then 1 else 0
  {
  }

  lemma WearOfAttempt(image: Image, commits: nat, count: uint32, attempt: Attempt, slot: nat)
    requires RingAt(image, commits, count) && slot < COUNTER_RECORD_COUNT
    ensures SequenceWear(Issued(image, attempt), slot) ==
            if |Issued(image, attempt)| == 5 && slot == commits % COUNTER_RECORD_COUNT then 1 else 0
  {
    hide Scan, RingAt;
    NextRecord(image, commits, count);
    SaveWithin(image, attempt.count);
    var issued := Issued(image, attempt);
    if |issued| == 5 {
      NoWear(issued[..4], slot);
      assert issued == issued[..4] + [issued[4]];
      WearConcat(issued[..4], [issued[4]], slot);
      assert [issued[4]][..0] == [];
    } else {
      NoWear(issued, slot);
    }
  }

  /** The sequence byte of a save always changes its cell, so every request counted
      as wear is a physical write. */
  lemma SequenceByteChanges(image: Image, commits: nat, count: uint32)
    requires RingAt(image, commits, count)
    ensures SequenceAt(image, commits % COUNTER_RECORD_COUNT) != NextSequence(Loaded(image))
  {
    NextRecord(image, commits, count);
    var i := LastIndex(commits, commits % COUNTER_RECORD_COUNT);
    if i >= 0 {
      SameSlotDistance(commits, i);
      SequenceApart(i);
    }
  }

  lemma SameSlotDistance(commits: nat, i: nat)
    requires i < commits <= i + COUNTER_RECORD_COUNT
    requires i % COUNTER_RECORD_COUNT == commits % COUNTER_RECORD_COUNT
    ensures commits == i + COUNTER_RECORD_COUNT
  {
  }

  lemma SequenceApart(i: nat)
    ensures (i + 32) % 255 != i % 255
  {
  }

  /** After any history of saves and cuts, from a blank ring: `load` returns the
      last committed count, and no sequence byte was written two times more often
      than another. */
  lemma {:induction false} RingIsRegister(blank: Image, history: seq<Attempt>) returns (commits: nat)
    requires Blank(blank)
    ensures RingAt(ImageAfter(blank, history), commits, Register(history))
    ensures LoadedCount(ImageAfter(blank, history)) == Register(history)
    ensures forall slot :: 0 <= slot < COUNTER_RECORD_COUNT ==>
                             SequenceWear(LogAfter(blank, history), slot) == Turns(commits, slot)
  {
    if history == [] {
      commits := 0;
    } else {
      var front, last := history[..|history| - 1], history[|history| - 1];
      var before := RingIsRegister(blank, front);
      var image := ImageAfter(blank, front);
      var writes := SaveWrites(image, last.count);
      var issued := Issued(image, last);
      SaveIsAtomic(image, before, Register(front), last.count, |issued|);
      assert writes[..|issued|] == issued;
      commits := if |issued| == 5 then before + 1 else before;
      forall slot | 0 <= slot < COUNTER_RECORD_COUNT
        ensures SequenceWear(LogAfter(blank, history), slot) == Turns(commits, slot)
      {
        WearConcat(LogAfter(blank, front), issued, slot);
        WearOfAttempt(image, before, Register(front), last, slot);
        TurnsStep(before, slot);
      }
    }
    LoadFindsLast(ImageAfter(blank, history), commits, Register(history));
  }

  lemma WearIsLevel(blank: Image, history: seq<Attempt>, slot: nat, other: nat)
    requires Blank(blank) && slot < COUNTER_RECORD_COUNT && other < COUNTER_RECORD_COUNT
    ensures SequenceWear(LogAfter(blank, history), slot) <= SequenceWear(LogAfter(blank, history), other) + 1
  {
    var commits := RingIsRegister(blank, history);
  }

  // ---------------------------------------------------------------- the class

  class Store {
    const storage: Device
    var initialized: bool
    var hasValue: bool
    var currentSlot: nat
    var currentSequence: byte
    var currentCount: uint32

    /** The RAM fields are what `load` would compute from the device now, and the
        device holds a ring of `commits` records. */
    ghost predicate Valid(commits: nat, count: uint32)
      reads this, storage.cells
    {
      && storage.Valid()
      && RingAt(storage.Contents(), commits, count)
      && (initialized ==>
            && hasValue == (commits > 0)
            && currentCount == count
            && currentSlot == (if hasValue then (commits - 1) % COUNTER_RECORD_COUNT else COUNTER_RECORD_COUNT - 1)
            && (hasValue ==> currentSequence == (commits - 1) % 255))
    }

    constructor (storage: Device)
      ensures this.storage == storage && !initialized
    {
      this.storage := storage;
      initialized, hasValue := false, false;
      currentSlot, currentSequence, currentCount := COUNTER_RECORD_COUNT - 1, 0, 0;
    }

    method Load(ghost commits: nat, ghost stored: uint32) returns (count: uint32)
      requires Valid(commits, stored)
      modifies this
      ensures Valid(commits, stored) && initialized
      ensures count == LoadedCount(storage.Contents()) == stored
    {
      hide Scan, RingAt, SequenceAt, CountAt;
      var newest := Nothing;
      for slot := 0 to COUNTER_RECORD_COUNT
        invariant newest == Scan(storage.Contents(), slot)
      {
        newest := LoadStep(slot, newest);
      }
      LoadFindsLast(storage.Contents(), commits, stored);
      initialized := true;
      hasValue := newest.Record?;
      if !hasValue {
        currentSlot, currentSequence, currentCount := COUNTER_RECORD_COUNT - 1, 0, 0;
        return 0;
      }
      currentSlot, currentSequence, currentCount := newest.slot, newest.sequence, newest.count;
      count := newest.count;
    }

    /** One turn of the loop over the slots. */
    method LoadStep(slot: nat, newest: Newest) returns (next: Newest)
      requires storage.Valid() && slot < COUNTER_RECORD_COUNT
      requires newest == Scan(storage.Contents(), slot)
      ensures next == Scan(storage.Contents(), slot + 1)
    {
      next := newest;
      var address := COUNTER_RING_START + slot * COUNTER_RECORD_SIZE;
      var sequence := storage.Read(address);
      if sequence != 0xFF {
        var bytes := storage.ReadBlock(address + 1, 4);
        if newest.Nothing? || SequenceIsNewer(sequence, newest.sequence) {
          next := Record(slot, sequence, Read32(bytes));
        }
      }
    }

    method WriteRecord(address: nat, sequence: byte, count: uint32)
      requires storage.Valid() && address + COUNTER_RECORD_SIZE <= EEPROM_SIZE
      modifies storage.cells, storage`log
      ensures
        var writes := Block(address + 1, Write32(count)) + [Write(address, sequence)];
        && storage.log == old(storage.log) + writes
        && storage.Contents() == Apply(old(storage.Contents()), writes)
    {
      ApplySnoc(storage.Contents(), Block(address + 1, Write32(count)), Write(address, sequence));
      storage.UpdateBlock(address + 1, Write32(count));
      storage.Update(address, sequence);
    }

    method Save(count: uint32, ghost commits: nat, ghost stored: uint32)
      requires Valid(commits, stored)
      modifies this, storage.cells, storage`log
      ensures initialized
      ensures Valid(if commits > 0 && count == stored then commits else commits + 1, count)
      ensures storage.log == old(storage.log) + SaveWrites(old(storage.Contents()), count)
      ensures storage.Contents() == Apply(old(storage.Contents()), SaveWrites(old(storage.Contents()), count))
    {
      hide Scan, RingAt, SequenceAt, CountAt, Write32, Loaded, SaveWrites;
      if !initialized {
        var ignored := Load(commits, stored);
      }
      SaveWritesOf(storage.Contents(), commits, stored, count);
      if hasValue && count == currentCount {
        return;
      }
      Append(count, commits, stored);
    }

    /** The record after the current one, its sequence byte last. */
    method Append(count: uint32, ghost commits: nat, ghost stored: uint32)
      requires Valid(commits, stored) && initialized && !(commits > 0 && count == stored)
      modifies this, storage.cells, storage`log
      ensures initialized && Valid(commits + 1, count)
      ensures storage.log == old(storage.log) + SaveWrites(old(storage.Contents()), count)
      ensures storage.Contents() == Apply(old(storage.Contents()), SaveWrites(old(storage.Contents()), count))
    {
      hide Scan, RingAt, SequenceAt, CountAt, Write32, Loaded, SaveWrites;
      ghost var before := storage.Contents();
      ghost var writes := SaveWrites(before, count);
      SaveWritesOf(before, commits, stored, count);
      SaveIsAtomic(before, commits, stored, count, |writes|);
      CutWhole(before, writes);
      CursorSuccessor(commits);
      var nextSlot := (currentSlot + 1) % COUNTER_RECORD_COUNT;
      var nextSequence := if !hasValue then 0 else if currentSequence == 0xFE then 0 else (currentSequence + 1) % 0x100;
      WriteRecord(COUNTER_RING_START + nextSlot * COUNTER_RECORD_SIZE, nextSequence, count);
      currentSlot, currentSequence, currentCount, hasValue := nextSlot, nextSequence, count, true;
    }
  }

  lemma CursorSuccessor(commits: nat)
    ensures
      var slot := if commits > 0 then (commits - 1) % COUNTER_RECORD_COUNT else COUNTER_RECORD_COUNT - 1;
      (slot + 1) % COUNTER_RECORD_COUNT == commits % COUNTER_RECORD_COUNT
    ensures
      var sequence := (commits - 1) % 255;
      (if commits == 0 || sequence == 0xFE then 0 else (sequence + 1) % 0x100) == commits % 255
  {
    if commits > 0 {
      SlotSuccessor(commits - 1);
      SequenceSuccessor(commits - 1);
    }
  }

  /** What a save issues when the ring holds `commits` records. */
  lemma SaveWritesOf(image: Image, commits: nat, stored: uint32, count: uint32)
    requires RingAt(image, commits, stored)
    ensures
      SaveWrites(image, count) ==
        if commits > 0 && count == stored then []
        else
          Block(RecordAddress(commits % COUNTER_RECORD_COUNT) + 1, Write32(count)) +
          [Write(RecordAddress(commits % COUNTER_RECORD_COUNT), commits % 255)]
  {
    hide Scan, RingAt, SequenceAt, CountAt, Write32;
    NextRecord(image, commits, stored);
  }
}
