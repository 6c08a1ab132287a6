/** The command book's snapshot: 820 bytes, one record every 50. */
module CommandBookCodec {
  import opened Bytes
  import opened Options
  import opened CommandBook
  import opened Snapshots
  import Slots = DualSlotStore

  const COMMANDS_SNAPSHOT_SIZE: uint16 := 820
  const STORED_COMMAND_SIZE := 50
  const COMMAND_RECORDS_OFFSET := 16
  const COMMANDS_MAGIC: Magic := [0x52, 0x53, 0x43, 0x42]

  function EncodeRecord(r: CommandRecord): (b: seq<byte>)
    ensures |b| == STORED_COMMAND_SIZE
  {
    r.deviceUid + [r.nodeId] + Write16(r.commandId) + [r.commandType, r.argumentSize] + r.arguments +
    [r.state, r.status, r.resultSize] + r.result + Write64(r.queuedAtUnixMs) + Write64(r.completedAtUnixMs)
  }

  function DecodeRecord(b: seq<byte>): CommandRecord
    requires |b| == STORED_COMMAND_SIZE
  {
    CommandRecord(
      b[..10], b[10], Read16(b[11..13]), b[13], b[14], b[15..23], b[23], b[24], b[25], b[26..34],
      Read64(b[34..42]), Read64(b[42..50]))
  }

  lemma RecordRoundTrip(r: CommandRecord)
    ensures DecodeRecord(EncodeRecord(r)) == r
  {
    hide Write16, Write64, Read16, Read64;
    var b := EncodeRecord(r);
    assert b[..10] == r.deviceUid;
    assert b[11..13] == Write16(r.commandId);
    assert b[15..23] == r.arguments;
    assert b[26..34] == r.result;
    assert b[34..42] == Write64(r.queuedAtUnixMs);
    assert b[42..50] == Write64(r.completedAtUnixMs);
    ReadWrite16(r.commandId);
    ReadWrite64(r.queuedAtUnixMs);
    ReadWrite64(r.completedAtUnixMs);
  }

  function EncodeRecords(records: seq<CommandRecord>): (b: seq<byte>)
    ensures |b| == STORED_COMMAND_SIZE * |records|
  {
    if records == [] then [] else EncodeRecords(records[..|records| - 1]) + EncodeRecord(records[|records| - 1])
  }

  lemma {:induction false} RecordAt(records: seq<CommandRecord>, i: nat)
    requires i < |records|
    ensures EncodeRecords(records)[STORED_COMMAND_SIZE * i..STORED_COMMAND_SIZE * (i + 1)] == EncodeRecord(records[i])
  {
    hide EncodeRecord;
    var front := records[..|records| - 1];
    if i < |front| {
      RecordAt(front, i);
      assert EncodeRecords(records)[..|EncodeRecords(front)|] == EncodeRecords(front);
    }
  }

  function Body(b: Book, generation: uint32): (bytes: seq<byte>)
    requires |b.records| <= MAX_COMMAND_RECORDS
    ensures |bytes| == COMMANDS_SNAPSHOT_SIZE - 4
  {
    Header(COMMANDS_MAGIC, generation, COMMANDS_SNAPSHOT_SIZE) + [|b.records|, 0] + Write16(b.nextCommandId) +
    EncodeRecords(b.records) + Fill(STORED_COMMAND_SIZE * (MAX_COMMAND_RECORDS - |b.records|), 0)
  }

  function Encode(b: Book, generation: uint32): Option<seq<byte>> {
    if !ValidBook(b) then None else Some(Sealed(Body(b, generation)))
  }

  function StoredRecords(data: seq<byte>, count: nat): (records: seq<CommandRecord>)
    requires |data| == COMMANDS_SNAPSHOT_SIZE && count <= MAX_COMMAND_RECORDS
    ensures |records| == count
  {
    seq(count, i requires 0 <= i < count =>
      DecodeRecord(
        data[COMMAND_RECORDS_OFFSET + STORED_COMMAND_SIZE * i..COMMAND_RECORDS_OFFSET + STORED_COMMAND_SIZE * (i + 1)]))
  }

  function Decode(data: seq<byte>): Option<(Book, uint32)> {
    if |data| != COMMANDS_SNAPSHOT_SIZE || !ValidHeader(data, COMMANDS_MAGIC, COMMANDS_SNAPSHOT_SIZE) || !Intact(data)
    then None
    else if data[13] != 0 || data[12] > MAX_COMMAND_RECORDS then None
    else
      var book := Book(Read16(data[14..16]), StoredRecords(data, data[12]));
      var used := COMMAND_RECORDS_OFFSET + STORED_COMMAND_SIZE * data[12];
      if !AllZero(data[used..COMMANDS_SNAPSHOT_SIZE - 4]) || !ValidBook(book) then None
      else Some((book, GenerationOf(data)))
  }

  lemma BodyLayout(b: Book, generation: uint32)
    requires |b.records| <= MAX_COMMAND_RECORDS
    ensures
      var body := Body(b, generation);
      var used := COMMAND_RECORDS_OFFSET + STORED_COMMAND_SIZE * |b.records|;
      && body[12] == |b.records| && body[13] == 0 && body[14..16] == Write16(b.nextCommandId)
      && body[COMMAND_RECORDS_OFFSET..used] == EncodeRecords(b.records)
      && AllZero(body[used..])
  {
    hide Header, EncodeRecords, Write16;
    var start := Header(COMMANDS_MAGIC, generation, COMMANDS_SNAPSHOT_SIZE) + [|b.records|, 0] + Write16(b.nextCommandId);
    var stored := EncodeRecords(b.records);
    var rest := Fill(STORED_COMMAND_SIZE * (MAX_COMMAND_RECORDS - |b.records|), 0);
    var body := Body(b, generation);
    assert body == start + stored + rest;
    assert body[..16] == start;
    assert body[12] == start[12] && body[13] == start[13] && body[14..16] == start[14..16];
    assert body[16 + |stored|..] == rest;
  }

  lemma SliceOfSlice(s: seq<byte>, low: nat, high: nat, from: nat, to: nat)
    requires low <= high <= |s| && from <= to <= high - low
    ensures s[low..high][from..to] == s[low + from..low + to]
  {
    assert forall k :: 0 <= k < to - from ==> s[low..high][from..to][k] == s[low + from..low + to][k];
  }

  lemma StoredRecordsRead(b: Book, generation: uint32, data: seq<byte>)
    requires |b.records| <= MAX_COMMAND_RECORDS && |data| == COMMANDS_SNAPSHOT_SIZE
    requires data[..COMMANDS_SNAPSHOT_SIZE - 4] == Body(b, generation)
    ensures StoredRecords(data, |b.records|) == b.records
  {
    hide DecodeRecord, EncodeRecord, EncodeRecords, Body;
    BodyLayout(b, generation);
    var used := COMMAND_RECORDS_OFFSET + STORED_COMMAND_SIZE * |b.records|;
    var stored := EncodeRecords(b.records);
    var body := Body(b, generation);
    assert data[0..816] == body;
    assert body[COMMAND_RECORDS_OFFSET..used] == stored;
    SliceOfSlice(data, 0, 816, COMMAND_RECORDS_OFFSET, used);
    forall i | 0 <= i < |b.records|
      ensures StoredRecords(data, |b.records|)[i] == b.records[i]
    {
      var from, to := STORED_COMMAND_SIZE * i, STORED_COMMAND_SIZE * (i + 1);
      assert to <= |stored|;
      SliceOfSlice(data, COMMAND_RECORDS_OFFSET, used, from, to);
      RecordAt(b.records, i);
      RecordRoundTrip(b.records[i]);
    }
  }

  /** A valid book decodes to itself with its generation. */
  lemma BookRoundTrip(b: Book, generation: uint32)
    requires ValidBook(b)
    ensures Decode(Encode(b, generation).value) == Some((b, generation))
  {
    hide ValidRecord, DistinctNodes, Header, ValidHeader, GenerationOf, Intact, Sealed, EncodeRecords, StoredRecords;
    var body := Body(b, generation);
    var data := Sealed(body);
    SealedIsIntact(body);
    assert data[..816] == body;
    BodyLayout(b, generation);
    assert data[12] == body[12] && data[13] == body[13] && data[14..16] == body[14..16];
    var used := COMMAND_RECORDS_OFFSET + STORED_COMMAND_SIZE * |b.records|;
    assert data[used..816] == body[used..];
    StoredRecordsRead(b, generation, data);
    ReadWrite16(b.nextCommandId);
    HeaderRead(COMMANDS_MAGIC, generation, COMMANDS_SNAPSHOT_SIZE, data[12..]);
    assert data == Header(COMMANDS_MAGIC, generation, COMMANDS_SNAPSHOT_SIZE) + data[12..] by {
      assert data[..12] == body[..12] == Header(COMMANDS_MAGIC, generation, COMMANDS_SNAPSHOT_SIZE);
    }
  }

  lemma AlteredByteRejected(data: seq<byte>, i: nat, x: byte)
    requires Decode(data).Some? && i < |data| && x != data[i]
    ensures Decode(data[i := x]).None?
  {
    hide Intact, ValidHeader, ValidBook, StoredRecords;
    AlteredNotIntact(data, i, x);
  }

  const EMPTY_BOOK := Book(1, [])

  const COMMAND_CODEC: Slots.Codec<Book> := Slots.Codec(Encode, Decode, EMPTY_BOOK)

  /** The command store's codec meets the dual-slot store's one assumption. */
  lemma CommandCodecIsFaithful()
    ensures Slots.Faithful(COMMAND_CODEC)
  {
    hide Encode, Decode;
    forall b: Book, g: uint32 | COMMAND_CODEC.encode(b, g).Some?
      ensures COMMAND_CODEC.decode(COMMAND_CODEC.encode(b, g).value) == Some((b, g))
    {
      EncodesOnlyValid(b, g);
      BookRoundTrip(b, g);
    }
  }

  lemma EncodesOnlyValid(b: Book, g: uint32)
    requires Encode(b, g).Some?
    ensures ValidBook(b)
  {
  }
}
