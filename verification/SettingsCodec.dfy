/** The gateway's settings as stored: 248 bytes, three time servers of 64. */
module SettingsCodec {
  import opened Bytes
  import opened Options
  import opened Snapshots
  import Slots = DualSlotStore

  const SETTINGS_SNAPSHOT_SIZE: uint16 := 248
  const SETTINGS_MAGIC: Magic := [0x52, 0x53, 0x47, 0x43]

  type Hostname = s: seq<byte> | |s| == 32 witness Fill(32, 0)
  type ServerName = s: seq<byte> | |s| == 63 witness Fill(63, 0)

  datatype NtpServer = NtpServer(length: byte, name: ServerName)

  const NO_SERVER := NtpServer(0, Fill(63, 0))

  datatype GatewaySettings = GatewaySettings(
    mdnsEnabled: bool, ntpEnabled: bool, pairingWindowSeconds: uint16, setupWindowSeconds: uint16,
    hostnameLength: byte, hostname: Hostname, ntpServerCount: byte, first: NtpServer, second: NtpServer, third: NtpServer)
  {
    function Servers(): seq<NtpServer> {
      [first, second, third]
    }
  }

  // ---------------------------------------------------------------- what is stored

  predicate HostCharacter(c: byte) {
    'a' as int <= c <= 'z' as int || '0' as int <= c <= '9' as int || c == '-' as int
  }

  /** A label of a host name, or none. */
  predicate ValidHostname(name: seq<byte>) {
    name == [] ||
    (name[0] != '-' as int && name[|name| - 1] != '-' as int && forall i :: 0 <= i < |name| ==> HostCharacter(name[i]))
  }

  predicate ServerCharacter(c: byte) {
    0x20 < c < 0x7F && c != '/' as int && c != '@' as int
  }

  predicate ZeroFrom(b: seq<byte>, used: byte) {
    used <= |b| && AllZero(b[used..])
  }

  predicate ValidServer(server: NtpServer) {
    && 0 < server.length && ZeroFrom(server.name, server.length)
    && forall i :: 0 <= i < server.length ==> ServerCharacter(server.name[i])
  }

  /** The servers in use are valid and different, the other places are empty. */
  predicate ValidServers(servers: seq<NtpServer>, count: byte) {
    && count <= |servers|
    && (forall i :: 0 <= i < count ==> ValidServer(servers[i]))
    && (forall i :: count <= i < |servers| ==> servers[i] == NO_SERVER)
    && forall i, j :: 0 <= i < j < count ==>
         servers[i].length != servers[j].length ||
         servers[i].name[..servers[j].length] != servers[j].name[..servers[j].length]
  }

  predicate ValidSettings(v: GatewaySettings) {
    && ZeroFrom(v.hostname, v.hostnameLength) && ValidHostname(v.hostname[..v.hostnameLength])
    && (v.ntpEnabled ==> v.ntpServerCount > 0)
    && 30 <= v.pairingWindowSeconds <= 900 && 60 <= v.setupWindowSeconds <= 1800
    && ValidServers(v.Servers(), v.ntpServerCount)
  }

  // ---------------------------------------------------------------- codec

  function Flags(v: GatewaySettings): byte {
    (if v.mdnsEnabled then 1 else 0) + (if v.ntpEnabled then 2 else 0)
  }

  function EncodeServer(server: NtpServer): (b: seq<byte>)
    ensures |b| == 64
  {
    [server.length] + server.name
  }

  function DecodeServer(b: seq<byte>): NtpServer
    requires |b| == 64
  {
    NtpServer(b[0], b[1..])
  }

  function Fields(v: GatewaySettings): (b: seq<byte>)
    ensures |b| == 232
  {
    [Flags(v), v.hostnameLength, v.ntpServerCount, 0] + Write16(v.pairingWindowSeconds) + Write16(v.setupWindowSeconds) +
    v.hostname + EncodeServer(v.first) + EncodeServer(v.second) + EncodeServer(v.third)
  }

  function Encode(v: GatewaySettings, generation: uint32): Option<seq<byte>> {
    if !ValidSettings(v) then None
    else Some(Sealed(Header(SETTINGS_MAGIC, generation, SETTINGS_SNAPSHOT_SIZE) + Fields(v)))
  }

  function DecodeFields(b: seq<byte>): GatewaySettings
    requires |b| == 232 && b[0] < 4
  {
    GatewaySettings(
      b[0] % 2 == 1, b[0] / 2 == 1, Read16(b[4..6]), Read16(b[6..8]), b[1], b[8..40], b[2],
      DecodeServer(b[40..104]), DecodeServer(b[104..168]), DecodeServer(b[168..232]))
  }

  function Decode(data: seq<byte>): Option<(GatewaySettings, uint32)> {
    if |data| != SETTINGS_SNAPSHOT_SIZE || !ValidHeader(data, SETTINGS_MAGIC, SETTINGS_SNAPSHOT_SIZE) || !Intact(data)
    then None
    else if data[12] >= 4 || data[15] != 0 then None
    else
      var v := DecodeFields(data[12..244]);
      if ValidSettings(v) then Some((v, GenerationOf(data))) else None
  }

  // ---------------------------------------------------------------- round trips

  lemma FieldsRead(v: GatewaySettings)
    ensures Fields(v)[0] < 4 && Fields(v)[3] == 0 && DecodeFields(Fields(v)) == v
  {
    hide Write16, Read16;
    var b := Fields(v);
    assert b[4..6] == Write16(v.pairingWindowSeconds);
    assert b[6..8] == Write16(v.setupWindowSeconds);
    assert b[8..40] == v.hostname;
    assert b[40..104] == EncodeServer(v.first) && EncodeServer(v.first)[1..] == v.first.name;
    assert b[104..168] == EncodeServer(v.second) && EncodeServer(v.second)[1..] == v.second.name;
    assert b[168..232] == EncodeServer(v.third) && EncodeServer(v.third)[1..] == v.third.name;
    ReadWrite16(v.pairingWindowSeconds);
    ReadWrite16(v.setupWindowSeconds);
  }

  /** Valid settings decode to themselves, with their generation. */
  lemma SnapshotRoundTrip(v: GatewaySettings, generation: uint32)
    requires ValidSettings(v)
    ensures Decode(Encode(v, generation).value) == Some((v, generation))
  {
    hide ValidSettings, Intact, Sealed, Header, ValidHeader, GenerationOf, Fields, DecodeFields;
    var body := Header(SETTINGS_MAGIC, generation, SETTINGS_SNAPSHOT_SIZE) + Fields(v);
    SealedIsIntact(body);
    var data := Sealed(body);
    assert data[..|body|] == body;
    assert data == Header(SETTINGS_MAGIC, generation, SETTINGS_SNAPSHOT_SIZE) + (Fields(v) + data[|body|..]);
    HeaderRead(SETTINGS_MAGIC, generation, SETTINGS_SNAPSHOT_SIZE, Fields(v) + data[|body|..]);
    assert data[12..244] == body[12..244] == Fields(v);
    assert data[12] == Fields(v)[0] && data[15] == Fields(v)[3];
    FieldsRead(v);
  }

  lemma FieldsWritten(b: seq<byte>)
    requires |b| == 232 && b[0] < 4 && b[3] == 0
    ensures Fields(DecodeFields(b)) == b
  {
    hide Write16, Read16;
    var v := DecodeFields(b);
    WriteRead16(b[4..6]);
    WriteRead16(b[6..8]);
    assert EncodeServer(v.first) == b[40..104];
    assert EncodeServer(v.second) == b[104..168];
    assert EncodeServer(v.third) == b[168..232];
    assert b == b[..4] + b[4..6] + b[6..8] + b[8..40] + b[40..104] + b[104..168] + b[168..232];
    assert b[..4] == [Flags(v), v.hostnameLength, v.ntpServerCount, 0];
  }

  /** Whatever decodes is what encoding its settings writes: settings have one spelling. */
  lemma OnlySpelling(data: seq<byte>)
    requires Decode(data).Some?
    ensures Encode(Decode(data).value.0, Decode(data).value.1) == Some(data)
  {
    hide ValidSettings, Intact, Sealed, Header, ValidHeader, GenerationOf, Fields, DecodeFields;
    var b := data[12..244];
    assert b[0] == data[12] && b[3] == data[15];
    FieldsWritten(b);
    HeaderWritten(data, SETTINGS_MAGIC, SETTINGS_SNAPSHOT_SIZE);
    IntactIsSealed(data);
    assert data[..244] == data[..12] + b;
  }

  /** A snapshot with exactly one altered byte, checksum bytes included, is rejected. */
  lemma AlteredByteRejected(data: seq<byte>, i: nat, x: byte)
    requires Decode(data).Some? && i < |data| && x != data[i]
    ensures Decode(data[i := x]).None?
  {
    hide Intact, DecodeFields, ValidSettings;
    AlteredNotIntact(data, i, x);
  }

  // ---------------------------------------------------------------- the store

  function Text(length: nat, text: string): (b: seq<byte>)
    requires |text| <= length && forall i :: 0 <= i < |text| ==> text[i] as int < 0x80
    ensures |b| == length
  {
    seq(|text|, i requires 0 <= i < |text| => text[i] as int) + Fill(length - |text|, 0)
  }

  const DEFAULT_SETTINGS := GatewaySettings(
    true, true, 120, 600, 0, Fill(32, 0), 2,
    NtpServer(12, Text(63, "pool.ntp.org")), NtpServer(19, Text(63, "time.cloudflare.com")), NO_SERVER)

  const SETTINGS_CODEC: Slots.Codec<GatewaySettings> := Slots.Codec(Encode, Decode, DEFAULT_SETTINGS)

  /** The codec meets the dual-slot store's one assumption. */
  lemma SettingsCodecIsFaithful()
    ensures Slots.Faithful(SETTINGS_CODEC)
  {
    hide Decode, ValidSettings;
    forall v: GatewaySettings, g: uint32 | SETTINGS_CODEC.encode(v, g).Some?
      ensures SETTINGS_CODEC.decode(SETTINGS_CODEC.encode(v, g).value) == Some((v, g))
    {
      SnapshotRoundTrip(v, g);
    }
  }

  /** The settings of an empty store can be stored. */
  lemma DefaultIsValid()
    ensures ValidSettings(DEFAULT_SETTINGS)
  {
    var v := DEFAULT_SETTINGS;
    assert v.Servers()[0] == v.first && v.Servers()[1] == v.second && v.Servers()[2] == v.third;
  }
}
