/** The node's dual-slot network configuration, written while commissioning and
    cleared by a network reset. */
module NetworkConfigStore {
  import opened Bytes
  import opened Protocol
  import opened Crc
  import opened Eeprom
  import opened Options
  import opened NodeSlots

  const CONFIG_SLOT_SIZE := 32
  const CONFIG_SLOT_A := 0x00
  const CONFIG_SLOT_B := 0x20

  datatype ProvisioningState = Provisional | Active

  datatype NetworkConfig = NetworkConfig(
    generation: byte, state: ProvisioningState, nodeId: byte, gatewayId: byte, networkId: byte,
    installationKey: Key, requestNonce: uint32)

  // ---------------------------------------------------------------- codec

  predicate ValidIds(nodeId: byte, gatewayId: byte) {
    nodeId != 0 && nodeId != 255 && gatewayId != 0 && gatewayId != 255 && gatewayId != nodeId
  }

  function Body(v: NetworkConfig): (b: seq<byte>)
    ensures |b| == 30
  {
    [0x52, 0x4E, 2, v.generation, if v.state.Provisional? then 1 else 2, v.nodeId, v.gatewayId, v.networkId] +
    v.installationKey + Write32(v.requestNonce) + [0, 0]
  }

  function Record(v: NetworkConfig): (b: seq<byte>)
    ensures |b| == CONFIG_SLOT_SIZE
  {
    Body(v) + Write16(Crc16(Body(v)))
  }

  function Encode(v: NetworkConfig): Option<seq<byte>> {
    if !ValidIds(v.nodeId, v.gatewayId) then None else Some(Record(v))
  }

  function Decode(b: seq<byte>): (r: Option<NetworkConfig>)
    requires |b| == CONFIG_SLOT_SIZE
    ensures r.Some? ==> b[0] == 0x52 && b[1] == 0x4E && ValidIds(r.value.nodeId, r.value.gatewayId)
  {
    if b[0] != 0x52 || b[1] != 0x4E || b[2] != 2 || Read16(b[30..]) != Crc16(b[..30]) then None
    else if (b[4] != 1 && b[4] != 2) || !ValidIds(b[5], b[6]) || b[28] != 0 || b[29] != 0 then None
    else Some(NetworkConfig(
        b[3], if b[4] == 1 then Provisional else Active, b[5], b[6], b[7], b[8..24], Read32(b[24..28])))
  }

  lemma DecodeEncode(v: NetworkConfig)
    requires Encode(v).Some?
    ensures Decode(Encode(v).value) == Some(v)
  {
    hide Crc16;
    var b := Record(v);
    var head := [0x52, 0x4E, 2, v.generation, if v.state.Provisional? then 1 else 2, v.nodeId, v.gatewayId, v.networkId];
    assert b[..30] == Body(v);
    assert b[30..] == Write16(Crc16(Body(v)));
    assert b[..8] == head;
    assert forall i :: 0 <= i < 8 ==> b[i] == head[i];
    assert b[8..24] == v.installationKey;
    assert b[24..28] == Write32(v.requestNonce);
    assert b[28..30] == [0, 0];
    assert b[28] == b[28..30][0] && b[29] == b[28..30][1];
    ReadWrite16(Crc16(Body(v)));
    ReadWrite32(v.requestNonce);
  }

  /** A stored record with exactly one altered byte, checksum bytes included,
      no longer decodes. */
  lemma AlteredByteRejected(b: seq<byte>, i: nat, x: byte)
    requires |b| == CONFIG_SLOT_SIZE && i < |b| && x != b[i]
    requires Decode(b).Some?
    ensures Decode(b[i := x]).None?
  {
    hide Crc16;
    var c := b[i := x];
    if i < 30 {
      assert b[..30] == b[..i] + [b[i]] + b[i + 1..30];
      assert c[..30] == b[..i] + [x] + b[i + 1..30];
      assert [b[i]] != [x];
      Crc16DetectsBurst(b[..i], [b[i]], [x], b[i + 1..30]);
      assert c[30..] == b[30..];
    } else {
      assert c[..30] == b[..30];
      assert Read16(c[30..]) != Read16(b[30..]);
    }
  }

  // ---------------------------------------------------------------- the store on an image

  function SlotAddress(slot: nat): (a: nat)
    requires slot < 2
  {
    if slot == 0 then CONFIG_SLOT_A else CONFIG_SLOT_B
  }

  function SlotBytes(image: Image, slot: nat): (b: seq<byte>)
    requires slot < 2
    ensures |b| == CONFIG_SLOT_SIZE
  {
    image[SlotAddress(slot)..SlotAddress(slot) + CONFIG_SLOT_SIZE]
  }

  function SlotValue(image: Image, slot: nat): Option<NetworkConfig>
    requires slot < 2
  {
    Decode(SlotBytes(image, slot))
  }

  function Generation(v: Option<NetworkConfig>): Option<byte> {
    if v.Some? then Some(v.value.generation) else None
  }

  function LoadedSlot(image: Image): (slot: nat)
    ensures slot < 2
  {
    CurrentSlot(Generation(SlotValue(image, 0)), Generation(SlotValue(image, 1)))
  }

  function Loaded(image: Image): Option<NetworkConfig> {
    SlotValue(image, LoadedSlot(image))
  }

  function Stamped(image: Image, v: NetworkConfig): NetworkConfig {
    v.(generation := NextGeneration(Generation(Loaded(image))))
  }

  function SaveWrites(image: Image, v: NetworkConfig): (w: seq<Write>)
    requires ValidIds(v.nodeId, v.gatewayId)
    ensures |w| == CONFIG_SLOT_SIZE + 2
  {
    CommitWrites(SlotAddress(1 - LoadedSlot(image)), Record(Stamped(image, v)), 2)
  }

  const RESET_WRITES: seq<Write> := [
    Write(CONFIG_SLOT_A, 0), Write(CONFIG_SLOT_A + 1, 0), Write(CONFIG_SLOT_B, 0), Write(CONFIG_SLOT_B + 1, 0)]

  /** A save is atomic at its last byte and leaves the other slot alone. */
  lemma SaveIsAtomic(image: Image, v: NetworkConfig, k: nat)
    requires ValidIds(v.nodeId, v.gatewayId)
    requires k <= |SaveWrites(image, v)|
    ensures
      var after := Cut(image, SaveWrites(image, v), k);
      var slot := LoadedSlot(image);
      && SlotValue(after, slot) == SlotValue(image, slot)
      && (k == 0 ==> after == image)
      && (0 < k < |SaveWrites(image, v)| ==> SlotValue(after, 1 - slot).None?)
      && (k < |SaveWrites(image, v)| ==> Loaded(after) == Loaded(image))
      && (k == |SaveWrites(image, v)| ==>
            && SlotValue(after, 1 - slot) == Some(Stamped(image, v))
            && LoadedSlot(after) == 1 - slot
            && Loaded(after) == Some(Stamped(image, v)))
  {
    hide Record, Decode;
    var slot := LoadedSlot(image);
    var address := SlotAddress(1 - slot);
    var bytes := Record(Stamped(image, v));
    var writes := SaveWrites(image, v);
    var after := Cut(image, writes, k);
    CommitWithin(address, bytes, 2);
    var kept := SlotAddress(slot);
    CutOutside(image, writes, k, address, address + 32, kept, kept + 32);
    assert SlotValue(after, slot) == SlotValue(image, slot);
    if k == 0 {
      assert writes[..0] == [];
    } else if k < |writes| {
      CommitCut(image, address, bytes, 2, k);
      assert SlotBytes(after, 1 - slot)[0] == 0;
    } else {
      CutWhole(image, writes);
      CommitDone(image, address, bytes, 2);
      assert SlotBytes(after, 1 - slot) == bytes;
      DecodeEncode(Stamped(image, v));
      if Loaded(image).Some? {
        SuccessorWins(1 - slot, Loaded(image).value.generation);
      }
    }
  }

  // ---------------------------------------------------------------- slot discipline

  /** Slot A only ever holds a provisional configuration and slot B an active one,
      which then is the newer. */
  predicate Disciplined(image: Image) {
    && (SlotValue(image, 0).Some? ==> SlotValue(image, 0).value.state.Provisional?)
    && (SlotValue(image, 1).Some? ==> SlotValue(image, 1).value.state.Active?)
    && (SlotValue(image, 1).Some? ==> LoadedSlot(image) == 1)
  }

  /** What the commissioning service does to the store. It requests a join only
      without a configuration and confirms only a provisional one. */
  datatype Event =
    | StoreProvisional(config: NetworkConfig, cut: nat)
    | StoreActive(cut: nat)
    | ResetNetwork(cut: nat)

  function Writes(image: Image, event: Event): seq<Write> {
    match event
    case StoreProvisional(config, _) =>
      if Loaded(image).None? && ValidIds(config.nodeId, config.gatewayId)
      then SaveWrites(image, config.(state := Provisional)) else []
    case StoreActive(_) =>
      if Loaded(image).Some? && Loaded(image).value.state.Provisional?
      then SaveWrites(image, Loaded(image).value.(state := Active)) else []
    case ResetNetwork(_) => RESET_WRITES
  }

  function Step(image: Image, event: Event): Image {
    var writes := Writes(image, event);
    Cut(image, writes, if event.cut < |writes| then event.cut else |writes|)
  }

  function Run(image: Image, events: seq<Event>): Image {
    if events == [] then image
    else Step(Run(image, events[..|events| - 1]), events[|events| - 1])
  }

  lemma ResetCut(image: Image, k: nat)
    requires k <= 4
    ensures
      var after := Cut(image, RESET_WRITES, k);
      && (k == 0 ==> after == image)
      && (k > 0 ==> SlotValue(after, 0).None?)
      && (k <= 2 ==> SlotValue(after, 1) == SlotValue(image, 1))
      && (k > 2 ==> SlotValue(after, 1).None?)
  {
    hide Decode;
    var after := Cut(image, RESET_WRITES, k);
    if k == 0 {
      assert RESET_WRITES[..0] == [];
    } else {
      FirstHolds(image, RESET_WRITES, CONFIG_SLOT_A, k);
      assert SlotBytes(after, 0)[0] == 0;
    }
    if k <= 2 {
      ApplyOutside(image, RESET_WRITES[..k], 0, 2);
      assert SlotBytes(after, 1) == SlotBytes(image, 1);
    } else {
      var first, second := RESET_WRITES[..2], RESET_WRITES[2..];
      assert RESET_WRITES == first + second;
      CutConcat(image, first, second, k);
      FirstHolds(Apply(image, first), second, CONFIG_SLOT_B, k - 2);
      assert SlotBytes(after, 1)[0] == 0;
    }
  }

  /** One event, cut anywhere: the discipline holds, a save leaves the old or the
      new configuration, a reset exactly the one there was or none. */
  lemma StepIsAtomic(image: Image, event: Event)
    requires Disciplined(image)
    ensures Disciplined(Step(image, event))
    ensures
      var before, after := Loaded(image), Loaded(Step(image, event));
      match event
      case StoreProvisional(config, cut) =>
        after == (if before.None? && ValidIds(config.nodeId, config.gatewayId) && cut >= 34
                  then Some(config.(state := Provisional, generation := 0)) else before)
      case StoreActive(cut) =>
        if before.Some? && before.value.state.Provisional? && cut >= 34
        then after == Some(before.value.(state := Active, generation := (before.value.generation + 1) % 0x100))
        else after == before
      case ResetNetwork(cut) => (after == before || after.None?) && (cut >= 4 ==> after.None?)
  {
    hide Decode, SaveWrites;
    var writes := Writes(image, event);
    var k := if event.cut < |writes| then event.cut else |writes|;
    if writes == [] {
      assert writes[..k] == [];
    } else {
      match event {
        case StoreProvisional(config, _) => SaveIsAtomic(image, config.(state := Provisional), k);
        case StoreActive(_) => SaveIsAtomic(image, Loaded(image).value.(state := Active), k);
        case ResetNetwork(_) => ResetCut(image, k);
      }
    }
  }

  /** The discipline holds over every run of the service, from any image without
      a configuration. */
  lemma {:induction false} RunKeepsDiscipline(image: Image, events: seq<Event>)
    requires SlotValue(image, 0).None? && SlotValue(image, 1).None?
    ensures Disciplined(Run(image, events))
  {
    if events != [] {
      hide Step, Disciplined;
      RunKeepsDiscipline(image, events[..|events| - 1]);
      StepIsAtomic(Run(image, events[..|events| - 1]), events[|events| - 1]);
    }
  }

  /** Without the discipline a cut reset could bring an older configuration back:
      two active records, the newer in slot A, cut after the first update. */
  lemma UndisciplinedResetRevives(image: Image)
    requires SlotValue(image, 0).Some? && SlotValue(image, 1).Some? && LoadedSlot(image) == 0
    ensures Loaded(Cut(image, RESET_WRITES, 1)) == SlotValue(image, 1) != None
  {
    hide Decode;
    ResetCut(image, 1);
  }

  // ---------------------------------------------------------------- the class

  class Store {
    const storage: Device
    var initialized: bool
    var hasValue: bool
    var currentSlot: nat
    var currentGeneration: byte

    ghost predicate Valid()
      reads this, storage.cells
    {
      && storage.Valid()
      && (initialized ==>
            var image := storage.Contents();
            && hasValue == Loaded(image).Some?
            && currentSlot == LoadedSlot(image)
            && (hasValue ==> currentGeneration == Loaded(image).value.generation))
    }

    constructor (storage: Device)
      requires storage.Valid()
      ensures Valid() && this.storage == storage && !initialized
    {
      this.storage := storage;
      initialized, hasValue, currentSlot, currentGeneration := false, false, 1, 0;
    }

    method Load() returns (value: Option<NetworkConfig>)
      requires Valid()
      modifies this
      ensures Valid() && initialized
      ensures value == Loaded(storage.Contents())
    {
      hide Decode;
      var first := storage.ReadBlock(CONFIG_SLOT_A, CONFIG_SLOT_SIZE);
      var second := storage.ReadBlock(CONFIG_SLOT_B, CONFIG_SLOT_SIZE);
      var a, b := Decode(first), Decode(second);
      assert a == SlotValue(storage.Contents(), 0) && b == SlotValue(storage.Contents(), 1);
      initialized := true;
      hasValue := a.Some? || b.Some?;
      if !hasValue {
        currentSlot, currentGeneration := 1, 0;
        return None;
      }
      if a.Some? && (b.None? || GenerationIsNewer(a.value.generation, b.value.generation)) {
        value, currentSlot := a, 0;
      } else {
        value, currentSlot := b, 1;
      }
      currentGeneration := value.value.generation;
    }

    method Save(value: NetworkConfig) returns (ok: bool, stored: NetworkConfig)
      requires Valid()
      modifies this, storage.cells, storage`log
      ensures Valid() && initialized
      ensures stored == Stamped(old(storage.Contents()), value)
      ensures ok == ValidIds(value.nodeId, value.gatewayId)
      ensures ok ==> storage.log == old(storage.log) + SaveWrites(old(storage.Contents()), value)
      ensures ok ==>
                storage.Contents() == Apply(old(storage.Contents()), SaveWrites(old(storage.Contents()), value))
      ensures !ok ==> storage.log == old(storage.log) && storage.Contents() == old(storage.Contents())
    {
      hide Record, Decode, LoadedSlot, SlotValue;
      if !initialized {
        var ignored := Load();
      }
      ghost var before := storage.Contents();
      stored := value.(generation := if hasValue then (currentGeneration + 1) % 0x100 else 0);
      assert stored == Stamped(before, value);
      var encoded := Encode(stored);
      if encoded.None? {
        return false, stored;
      }
      var nextSlot := 1 - currentSlot;
      var address := if nextSlot == 0 then CONFIG_SLOT_A else CONFIG_SLOT_B;
      CommitSlot(storage, address, encoded.value, 2);
      currentSlot, currentGeneration, hasValue := nextSlot, stored.generation, true;
      CutWhole(before, SaveWrites(before, value));
      SaveIsAtomic(before, value, |SaveWrites(before, value)|);
      ok := true;
    }

    method FactoryReset()
      requires Valid()
      modifies this, storage.cells, storage`log
      ensures Valid() && initialized && Loaded(storage.Contents()).None?
      ensures storage.log == old(storage.log) + RESET_WRITES
      ensures storage.Contents() == Apply(old(storage.Contents()), RESET_WRITES)
    {
      hide Decode;
      ghost var before := storage.Contents();
      storage.Update(CONFIG_SLOT_A, 0);
      storage.Update(CONFIG_SLOT_A + 1, 0);
      storage.Update(CONFIG_SLOT_B, 0);
      storage.Update(CONFIG_SLOT_B + 1, 0);
      ResetApplied(before);
      ResetCut(before, 4);
      CutWhole(before, RESET_WRITES);
      initialized, hasValue, currentSlot, currentGeneration := true, false, 1, 0;
    }
  }

  lemma ResetApplied(image: Image)
    ensures Apply(image, RESET_WRITES) == image[0 := 0][1 := 0][0x20 := 0][0x21 := 0]
  {
    var first, second := RESET_WRITES[..2], RESET_WRITES[2..];
    assert RESET_WRITES == first + second;
    ApplyConcat(image, first, second);
    ApplyFew(image, first);
    ApplyFew(Apply(image, first), second);
  }
}
