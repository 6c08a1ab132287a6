/** The node registry's snapshot: a 12-byte header, 72 bytes a record, a CRC-32. */
module RegistryCodec {
  import opened Bytes
  import opened Options
  import opened NodeRegistry
  import Snapshots
  import Slots = DualSlotStore

  const REGISTRY_MAGIC: seq<byte> := [0x52, 0x53, 0x4E, 0x52]
  const REGISTRY_STORAGE_VERSION: uint16 := 3
  const REGISTRY_HEADER_SIZE := 12
  const STORED_RECORD_SIZE := 72

  function EncodeRecord(r: NodeRecord): (b: seq<byte>)
    ensures |b| == STORED_RECORD_SIZE
  {
    r.deviceUid + [r.nodeId] + Write16(r.profileId) + [r.firmware.major, r.firmware.minor, r.firmware.patch, r.state] +
    Write32(r.requestNonce) + [r.displayNameLength] + r.displayName + [r.maxPowerLevel, r.powerPolicy]
  }

  function DecodeRecord(b: seq<byte>): NodeRecord
    requires |b| == STORED_RECORD_SIZE
  {
    NodeRecord(
      b[..10], b[10], Read16(b[11..13]), Firmware(b[13], b[14], b[15]), b[16], Read32(b[17..21]), b[21], b[22..70],
      b[70], b[71])
  }

  lemma RecordRoundTrip(r: NodeRecord)
    ensures DecodeRecord(EncodeRecord(r)) == r
  {
    hide Write16, Write32, Read16, Read32;
    var b := EncodeRecord(r);
    assert b[..10] == r.deviceUid;
    assert b[11..13] == Write16(r.profileId);
    assert b[17..21] == Write32(r.requestNonce);
    assert b[22..70] == r.displayName;
    ReadWrite16(r.profileId);
    ReadWrite32(r.requestNonce);
  }

  function EncodeRecords(records: seq<NodeRecord>): (b: seq<byte>)
    ensures |b| == STORED_RECORD_SIZE * |records|
  {
    if records == [] then [] else EncodeRecords(records[..|records| - 1]) + EncodeRecord(records[|records| - 1])
  }

  lemma {:induction false} RecordAt(records: seq<NodeRecord>, i: nat)
    requires i < |records|
    ensures EncodeRecords(records)[STORED_RECORD_SIZE * i..STORED_RECORD_SIZE * (i + 1)] == EncodeRecord(records[i])
  {
    hide EncodeRecord;
    var front := records[..|records| - 1];
    if i < |front| {
      RecordAt(front, i);
      assert EncodeRecords(records)[..|EncodeRecords(front)|] == EncodeRecords(front);
    }
  }

  function StoredRecords(data: seq<byte>, count: nat): (records: seq<NodeRecord>)
    requires REGISTRY_HEADER_SIZE + STORED_RECORD_SIZE * count <= |data|
    ensures |records| == count
  {
    seq(count, i requires 0 <= i < count =>
      DecodeRecord(data[REGISTRY_HEADER_SIZE + STORED_RECORD_SIZE * i..REGISTRY_HEADER_SIZE + STORED_RECORD_SIZE * (i + 1)]))
  }

  function Header(count: byte, generation: uint32): (h: seq<byte>)
    ensures |h| == REGISTRY_HEADER_SIZE
  {
    REGISTRY_MAGIC + Write16(REGISTRY_STORAGE_VERSION) + Write32(generation) + [count, 0]
  }

  function Body(r: Registry, generation: uint32): (b: seq<byte>)
    requires r.count <= MAX_NODES
    ensures |b| == REGISTRY_HEADER_SIZE + STORED_RECORD_SIZE * r.count
  {
    Header(r.count, generation) + EncodeRecords(Live(r))
  }

  /** Any registry fits the buffer, so encoding never fails. */
  function Encode(r: Registry, generation: uint32): seq<byte>
    requires r.count <= MAX_NODES
  {
    Snapshots.Sealed(Body(r, generation))
  }

  function Decode(data: seq<byte>): Option<(Registry, uint32)> {
    if |data| < REGISTRY_HEADER_SIZE + 4 || data[..4] != REGISTRY_MAGIC ||
       Read16(data[4..6]) != REGISTRY_STORAGE_VERSION || data[10] > MAX_NODES ||
       |data| != REGISTRY_HEADER_SIZE + STORED_RECORD_SIZE * data[10] + 4 || !Snapshots.Intact(data)
    then None
    else
      var restored := Restore(StoredRecords(data, data[10]));
      if restored.None? then None else Some((restored.value, Read32(data[6..10])))
  }

  lemma HeaderRead(count: byte, generation: uint32, rest: seq<byte>)
    ensures
      var data := Header(count, generation) + rest;
      && data[..4] == REGISTRY_MAGIC && Read16(data[4..6]) == REGISTRY_STORAGE_VERSION
      && Read32(data[6..10]) == generation && data[10] == count
  {
    var data := Header(count, generation) + rest;
    assert data[..4] == REGISTRY_MAGIC;
    assert data[4..6] == Write16(REGISTRY_STORAGE_VERSION);
    assert data[6..10] == Write32(generation);
    ReadWrite16(REGISTRY_STORAGE_VERSION);
    ReadWrite32(generation);
  }

  lemma StoredRecordsRead(r: Registry, generation: uint32, rest: seq<byte>)
    requires r.count <= MAX_NODES
    ensures StoredRecords(Body(r, generation) + rest, r.count) == Live(r)
  {
    hide DecodeRecord, EncodeRecord, EncodeRecords, Header;
    var data := Body(r, generation) + rest;
    var stored := EncodeRecords(Live(r));
    forall i | 0 <= i < r.count
      ensures StoredRecords(data, r.count)[i] == Live(r)[i]
    {
      var from, to := STORED_RECORD_SIZE * i, STORED_RECORD_SIZE * (i + 1);
      assert to <= |stored|;
      assert data[REGISTRY_HEADER_SIZE + from..REGISTRY_HEADER_SIZE + to] == stored[from..to];
      RecordAt(Live(r), i);
      RecordRoundTrip(Live(r)[i]);
    }
  }

  /** A registry that `restore` would accept decodes to itself, blank tail included, with its generation. */
  lemma SnapshotRoundTrip(r: Registry, generation: uint32)
    requires Good(false, r)
    ensures Decode(Encode(r, generation)) == Some((r, generation))
  {
    hide Good, Restore, StoredRecords, Header, EncodeRecords, Live, Snapshots.Intact, Snapshots.Sealed;
    CountFits(false, r);
    var body := Body(r, generation);
    Snapshots.SealedIsIntact(body);
    var data := Snapshots.Sealed(body);
    var rest := data[|body|..];
    assert data == body + rest;
    assert data == Header(r.count, generation) + (EncodeRecords(Live(r)) + rest);
    HeaderRead(r.count, generation, EncodeRecords(Live(r)) + rest);
    StoredRecordsRead(r, generation, rest);
    RestoreLive(false, r);
  }

  /** A snapshot with exactly one altered byte, checksum bytes included, is rejected. */
  lemma AlteredByteRejected(data: seq<byte>, i: nat, x: byte)
    requires Decode(data).Some? && i < |data| && x != data[i]
    ensures Decode(data[i := x]).None?
  {
    hide Snapshots.Intact, Restore, StoredRecords;
    Snapshots.AlteredNotIntact(data, i, x);
  }

  /** The codec on the registries that read back: those loaded from a slot, or the
      empty one, and changed by the registry's operations. */
  function EncodeGood(r: Registry, generation: uint32): Option<seq<byte>> {
    if Good(false, r) then Some(Encode(r, generation)) else None
  }

  const REGISTRY_CODEC: Slots.Codec<Registry> := Slots.Codec(EncodeGood, Decode, NOTHING)

  /** The registry's codec meets the dual-slot store's one assumption. */
  lemma RegistryCodecIsFaithful()
    ensures Slots.Faithful(REGISTRY_CODEC)
  {
    hide Encode, Decode, Good;
    forall r: Registry, g: uint32 | REGISTRY_CODEC.encode(r, g).Some?
      ensures REGISTRY_CODEC.decode(REGISTRY_CODEC.encode(r, g).value) == Some((r, g))
    {
      SnapshotRoundTrip(r, g);
    }
  }

  /** A decoded registry has unique IDs and UIDs and a blank tail; it is as good as a
      reachable one exactly if in every record a fixed level is within the ceiling and
      the bytes after the name are zero. */
  lemma DecodedIsGood(data: seq<byte>)
    requires Decode(data).Some?
    ensures
      var r := Decode(data).value.0;
      && Good(false, r)
      && (Good(true, r) <==>
            forall i :: 0 <= i < r.count ==>
                          && r.cells[i].powerPolicy <= r.cells[i].maxPowerLevel + 1
                          && ZeroPadded(r.cells[i].displayName, r.cells[i].displayNameLength))
  {
    hide Restorable, ValidName, Snapshots.Intact, StoredRecords;
    var r := Decode(data).value.0;
    var s := StoredRecords(data, data[10]);
    assert Live(r) == s;
    forall i | 0 <= i < r.count
      ensures GoodRecord(true, r.cells[i]) <==>
              && r.cells[i].powerPolicy <= r.cells[i].maxPowerLevel + 1
              && ZeroPadded(r.cells[i].displayName, r.cells[i].displayNameLength)
    {
      StrictFields(r.cells[i]);
    }
  }

  predicate ZeroPadded(name: Name, length: byte) {
    forall k :: length <= k < 48 ==> name[k] == 0
  }

  lemma StrictFields(record: NodeRecord)
    requires Restorable(record)
    ensures GoodRecord(true, record) <==>
            record.powerPolicy <= record.maxPowerLevel + 1 && ZeroPadded(record.displayName, record.displayNameLength)
  {
  }

  /** A registry of one active node. */
  function Single(name: Name, maxPowerLevel: byte, powerPolicy: byte): Registry {
    Registry(
      Blanks(64)[0 := BLANK.(nodeId := 1, profileId := 1, state := ACTIVE, displayName := name,
                             maxPowerLevel := maxPowerLevel, powerPolicy := powerPolicy)],
      1)
  }

  /** Neither is checked: a fixed level 31 over the ceiling 10, and a byte after the end
      of an empty name, are stored and load again. */
  lemma UncheckedFieldsLoad(generation: uint32)
    ensures
      var level, padding := Single(Fill(48, 0), 10, 32), Single(Fill(48, 0)[47 := 1], 10, 0);
      && !Good(true, level) && Decode(Encode(level, generation)) == Some((level, generation))
      && !Good(true, padding) && Decode(Encode(padding, generation)) == Some((padding, generation))
  {
    hide Encode, Decode;
    var level, padding := Single(Fill(48, 0), 10, 32), Single(Fill(48, 0)[47 := 1], 10, 0);
    assert level.cells[0].powerPolicy == 32 && padding.cells[0].displayName[47] == 1;
    assert level.cells[0].displayName[..0] == padding.cells[0].displayName[..0] == [];
    assert Restorable(level.cells[0]) && Restorable(padding.cells[0]);
    StrictFields(level.cells[0]);
    StrictFields(padding.cells[0]);
    SnapshotRoundTrip(level, generation);
    SnapshotRoundTrip(padding, generation);
  }
}
