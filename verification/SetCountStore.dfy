/** The dual-slot SET_COUNT result record of the counter profile. */
module SetCountStore {
  import opened Bytes
  import opened Crc
  import opened Eeprom
  import opened Options
  import opened NodeSlots

  const SET_COUNT_SLOT_SIZE := 16
  const SET_COUNT_SLOT_A := 0x40
  const SET_COUNT_SLOT_B := 0x50

  datatype SetCountStatus = Pending | Applied

  datatype SetCountResult = SetCountResult(
    generation: byte, status: SetCountStatus, commandId: uint16, oldCount: uint32, appliedCount: uint32)

  // ---------------------------------------------------------------- codec

  function Body(v: SetCountResult): (b: seq<byte>)
    ensures |b| == 14
  {
    [0xC7, 1, v.generation, if v.status.Pending? then 1 else 2] +
    Write16(v.commandId) + Write32(v.oldCount) + Write32(v.appliedCount)
  }

  function Encode(v: SetCountResult): (b: seq<byte>)
    ensures |b| == SET_COUNT_SLOT_SIZE
  {
    Body(v) + Write16(Crc16(Body(v)))
  }

  function Decode(b: seq<byte>): (r: Option<SetCountResult>)
    requires |b| == SET_COUNT_SLOT_SIZE
    ensures r.Some? ==> b[0] == 0xC7
  {
    if b[0] != 0xC7 || b[1] != 1 || Read16(b[14..]) != Crc16(b[..14]) then None
    else if b[3] != 1 && b[3] != 2 then None
    else Some(SetCountResult(
        b[2], if b[3] == 1 then Pending else Applied, Read16(b[4..6]), Read32(b[6..10]), Read32(b[10..14])))
  }

  lemma DecodeEncode(v: SetCountResult)
    ensures Decode(Encode(v)) == Some(v)
  {
    hide Crc16;
    var b := Encode(v);
    assert b[..14] == Body(v);
    assert b[14..] == Write16(Crc16(Body(v)));
    assert b[..4] == [0xC7, 1, v.generation, if v.status.Pending? then 1 else 2];
    assert b[0] == b[..4][0] && b[1] == b[..4][1] && b[2] == b[..4][2] && b[3] == b[..4][3];
    assert b[4..6] == Write16(v.commandId);
    assert b[6..10] == Write32(v.oldCount);
    assert b[10..14] == Write32(v.appliedCount);
    ReadWrite16(Crc16(Body(v)));
    ReadWrite16(v.commandId);
    ReadWrite32(v.oldCount);
    ReadWrite32(v.appliedCount);
  }

  /** A stored record with exactly one altered byte, checksum bytes included,
      no longer decodes. */
  lemma AlteredByteRejected(b: seq<byte>, i: nat, x: byte)
    requires |b| == SET_COUNT_SLOT_SIZE && i < |b| && x != b[i]
    requires Decode(b).Some?
    ensures Decode(b[i := x]).None?
  {
    hide Crc16;
    var c := b[i := x];
    if i < 14 {
      assert b[..14] == b[..i] + [b[i]] + b[i + 1..14];
      assert c[..14] == b[..i] + [x] + b[i + 1..14];
      assert [b[i]] != [x];
      Crc16DetectsBurst(b[..i], [b[i]], [x], b[i + 1..14]);
      assert c[14..] == b[14..];
    } else {
      assert c[..14] == b[..14];
      assert Read16(c[14..]) != Read16(b[14..]);
    }
  }

  // ---------------------------------------------------------------- the store on an image

  function SlotAddress(slot: nat): (a: nat)
    requires slot < 2
  {
    if slot == 0 then SET_COUNT_SLOT_A else SET_COUNT_SLOT_B
  }

  function SlotBytes(image: Image, slot: nat): (b: seq<byte>)
    requires slot < 2
    ensures |b| == SET_COUNT_SLOT_SIZE
  {
    image[SlotAddress(slot)..SlotAddress(slot) + SET_COUNT_SLOT_SIZE]
  }

  function SlotValue(image: Image, slot: nat): Option<SetCountResult>
    requires slot < 2
  {
    Decode(SlotBytes(image, slot))
  }

  function Generation(v: Option<SetCountResult>): Option<byte> {
    if v.Some? then Some(v.value.generation) else None
  }

  /** The slot and the record `load` chooses. */
  function LoadedSlot(image: Image): (slot: nat)
    ensures slot < 2
  {
    CurrentSlot(Generation(SlotValue(image, 0)), Generation(SlotValue(image, 1)))
  }

  function Loaded(image: Image): Option<SetCountResult> {
    SlotValue(image, LoadedSlot(image))
  }

  function Stamped(image: Image, v: SetCountResult): SetCountResult {
    v.(generation := NextGeneration(Generation(Loaded(image))))
  }

  /** The byte updates of one save. */
  function SaveWrites(image: Image, v: SetCountResult): (w: seq<Write>)
    ensures |w| == SET_COUNT_SLOT_SIZE + 1
  {
    CommitWrites(SlotAddress(1 - LoadedSlot(image)), Encode(Stamped(image, v)), 1)
  }

  lemma SaveWithin(image: Image, v: SetCountResult)
    ensures Within(SaveWrites(image, v), SET_COUNT_SLOT_A, COUNTER_RING_START)
  {
    CommitWithin(SlotAddress(1 - LoadedSlot(image)), Encode(Stamped(image, v)), 1);
  }

  /** Only its 32 cells matter to the store. */
  lemma LoadedFrame(x: Image, y: Image)
    requires x[SET_COUNT_SLOT_A..COUNTER_RING_START] == y[SET_COUNT_SLOT_A..COUNTER_RING_START]
    ensures LoadedSlot(x) == LoadedSlot(y) && Loaded(x) == Loaded(y)
  {
    hide Decode;
    var p := x[SET_COUNT_SLOT_A..COUNTER_RING_START];
    var q := y[SET_COUNT_SLOT_A..COUNTER_RING_START];
    assert SlotBytes(x, 0) == p[..16] && SlotBytes(y, 0) == q[..16];
    assert SlotBytes(x, 1) == p[16..] && SlotBytes(y, 1) == q[16..];
  }

  /** A save is atomic at its last byte, on every image whatsoever: cut earlier it
      leaves the record that was there, or none if there was none. */
  lemma SaveIsAtomic(image: Image, v: SetCountResult, k: nat)
    requires k <= |SaveWrites(image, v)|
    ensures k < |SaveWrites(image, v)| ==>
              Loaded(Cut(image, SaveWrites(image, v), k)) == Loaded(image)
    ensures k == |SaveWrites(image, v)| ==>
              && Loaded(Cut(image, SaveWrites(image, v), k)) == Some(Stamped(image, v))
              && LoadedSlot(Cut(image, SaveWrites(image, v), k)) == 1 - LoadedSlot(image)
  {
    hide Encode, Decode;
    var slot := LoadedSlot(image);
    var address := SlotAddress(1 - slot);
    var bytes := Encode(Stamped(image, v));
    var writes := SaveWrites(image, v);
    var after := Cut(image, writes, k);
    CommitWithin(address, bytes, 1);
    var kept := SlotAddress(slot);
    CutOutside(image, writes, k, address, address + 16, kept, kept + 16);
    assert SlotValue(after, slot) == SlotValue(image, slot);
    if k == 0 {
      assert writes[..0] == [];
    } else if k < |writes| {
      CommitCut(image, address, bytes, 1, k);
      assert SlotBytes(after, 1 - slot)[0] == 0;
    } else {
      CutWhole(image, writes);
      CommitDone(image, address, bytes, 1);
      assert SlotBytes(after, 1 - slot) == bytes;
      DecodeEncode(Stamped(image, v));
      if Loaded(image).Some? {
        SuccessorWins(1 - slot, Loaded(image).value.generation);
      }
    }
  }

  // ---------------------------------------------------------------- the class

  class Store {
    const storage: Device
    var initialized: bool
    var hasValue: bool
    var currentSlot: nat
    var currentGeneration: byte

    /** The RAM fields are what `load` would compute from the device now. */
    ghost predicate Valid()
      reads this, storage.cells
    {
      && storage.Valid()
      && (initialized ==>
            var image := storage.Contents();
            && hasValue == Loaded(image).Some?
            && currentSlot == LoadedSlot(image)
            && (hasValue ==> currentGeneration == Loaded(image).value.generation))
    }

    constructor (storage: Device)
      requires storage.Valid()
      ensures Valid() && this.storage == storage && !initialized
    {
      this.storage := storage;
      initialized, hasValue, currentSlot, currentGeneration := false, false, 1, 0;
    }

    method Load() returns (value: Option<SetCountResult>)
      requires Valid()
      modifies this
      ensures Valid() && initialized
      ensures value == Loaded(storage.Contents())
    {
      hide Decode;
      var first := storage.ReadBlock(SET_COUNT_SLOT_A, SET_COUNT_SLOT_SIZE);
      var second := storage.ReadBlock(SET_COUNT_SLOT_B, SET_COUNT_SLOT_SIZE);
      var a, b := Decode(first), Decode(second);
      assert a == SlotValue(storage.Contents(), 0) && b == SlotValue(storage.Contents(), 1);
      initialized := true;
      hasValue := a.Some? || b.Some?;
      if !hasValue {
        currentSlot, currentGeneration := 1, 0;
        return None;
      }
      if a.Some? && (b.None? || GenerationIsNewer(a.value.generation, b.value.generation)) {
        value, currentSlot := a, 0;
      } else {
        value, currentSlot := b, 1;
      }
      currentGeneration := value.value.generation;
    }

    method Save(value: SetCountResult) returns (stored: SetCountResult)
      requires Valid()
      modifies this, storage.cells, storage`log
      ensures Valid() && initialized
      ensures stored == Stamped(old(storage.Contents()), value)
      ensures storage.log == old(storage.log) + SaveWrites(old(storage.Contents()), value)
      ensures storage.Contents() == Apply(old(storage.Contents()), SaveWrites(old(storage.Contents()), value))
    {
      hide Encode, Decode;
      if !initialized {
        var ignored := Load();
      }
      ghost var before := storage.Contents();
      stored := value.(generation := if hasValue then (currentGeneration + 1) % 0x100 else 0);
      assert stored == Stamped(before, value);
      var nextSlot := 1 - currentSlot;
      var address := if nextSlot == 0 then SET_COUNT_SLOT_A else SET_COUNT_SLOT_B;
      assert address == SlotAddress(1 - LoadedSlot(before));
      var bytes := Encode(stored);
      CommitSlot(storage, address, bytes, 1);
      currentSlot, currentGeneration, hasValue := nextSlot, stored.generation, true;
      CutWhole(before, SaveWrites(before, value));
      SaveIsAtomic(before, value, |SaveWrites(before, value)|);
    }
  }
}
