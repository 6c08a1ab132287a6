/** The installation's secrets as stored: 67 bytes. */
module SecretsCodec {
  import opened Bytes
  import opened Protocol
  import opened Options
  import opened Snapshots
  import Slots = DualSlotStore

  const SECRETS_SNAPSHOT_SIZE: uint16 := 67
  const SECRETS_MAGIC: Magic := [0x52, 0x53, 0x47, 0x53]

  type DeviceSecret = s: seq<byte> | |s| == 32 witness Fill(32, 0)

  datatype InstallationSecrets = InstallationSecrets(
    installationKeyPresent: bool, deviceSecretPresent: bool, operationalNetworkId: byte,
    installationKey: Key, deviceSecret: DeviceSecret)

  /** Network 0 is where unprovisioned nodes join; an absent secret is stored as zeros. */
  predicate ValidSecrets(v: InstallationSecrets) {
    && v.operationalNetworkId != 0
    && (!v.installationKeyPresent ==> AllZero(v.installationKey))
    && (!v.deviceSecretPresent ==> AllZero(v.deviceSecret))
  }

  function Flags(v: InstallationSecrets): uint16 {
    (if v.installationKeyPresent then 1 else 0) + (if v.deviceSecretPresent then 2 else 0)
  }

  function Fields(v: InstallationSecrets): (b: seq<byte>)
    ensures |b| == 51
  {
    Write16(Flags(v)) + [v.operationalNetworkId] + v.installationKey + v.deviceSecret
  }

  function Encode(v: InstallationSecrets, generation: uint32): Option<seq<byte>> {
    if !ValidSecrets(v) then None
    else Some(Sealed(Header(SECRETS_MAGIC, generation, SECRETS_SNAPSHOT_SIZE) + Fields(v)))
  }

  function DecodeFields(b: seq<byte>): InstallationSecrets
    requires |b| == 51
  {
    var flags := Read16(b[..2]);
    InstallationSecrets(flags % 2 == 1, flags / 2 % 2 == 1, b[2], b[3..19], b[19..51])
  }

  function Decode(data: seq<byte>): Option<(InstallationSecrets, uint32)> {
    if |data| != SECRETS_SNAPSHOT_SIZE || !ValidHeader(data, SECRETS_MAGIC, SECRETS_SNAPSHOT_SIZE) || !Intact(data) then None
    else if Read16(data[12..14]) >= 4 then None
    else
      var v := DecodeFields(data[12..63]);
      if ValidSecrets(v) then Some((v, GenerationOf(data))) else None
  }

  lemma FieldsRead(v: InstallationSecrets)
    ensures Read16(Fields(v)[..2]) == Flags(v) && DecodeFields(Fields(v)) == v
  {
    hide Write16, Read16;
    var b := Fields(v);
    assert b[..2] == Write16(Flags(v));
    assert b[3..19] == v.installationKey;
    assert b[19..51] == v.deviceSecret;
    ReadWrite16(Flags(v));
  }

  /** Valid secrets decode to themselves, with their generation. */
  lemma SnapshotRoundTrip(v: InstallationSecrets, generation: uint32)
    requires ValidSecrets(v)
    ensures Decode(Encode(v, generation).value) == Some((v, generation))
  {
    hide ValidSecrets, Intact, Sealed, Header, ValidHeader, GenerationOf, Fields, DecodeFields, Read16;
    var body := Header(SECRETS_MAGIC, generation, SECRETS_SNAPSHOT_SIZE) + Fields(v);
    SealedIsIntact(body);
    var data := Sealed(body);
    assert data[..|body|] == body;
    assert data == Header(SECRETS_MAGIC, generation, SECRETS_SNAPSHOT_SIZE) + (Fields(v) + data[|body|..]);
    HeaderRead(SECRETS_MAGIC, generation, SECRETS_SNAPSHOT_SIZE, Fields(v) + data[|body|..]);
    assert data[12..63] == body[12..63] == Fields(v);
    assert data[12..14] == Fields(v)[..2];
    FieldsRead(v);
  }

  lemma FieldsWritten(b: seq<byte>)
    requires |b| == 51 && Read16(b[..2]) < 4
    ensures Fields(DecodeFields(b)) == b
  {
    hide Write16, Read16;
    WriteRead16(b[..2]);
    assert Flags(DecodeFields(b)) == Read16(b[..2]);
    assert b == b[..2] + [b[2]] + b[3..19] + b[19..51];
  }

  /** Whatever decodes is what encoding its secrets writes: secrets have one spelling. */
  lemma OnlySpelling(data: seq<byte>)
    requires Decode(data).Some?
    ensures Encode(Decode(data).value.0, Decode(data).value.1) == Some(data)
  {
    hide ValidSecrets, Intact, Sealed, Header, ValidHeader, GenerationOf, Fields, DecodeFields, Read16;
    var b := data[12..63];
    assert b[..2] == data[12..14];
    FieldsWritten(b);
    HeaderWritten(data, SECRETS_MAGIC, SECRETS_SNAPSHOT_SIZE);
    IntactIsSealed(data);
    assert data[..63] == data[..12] + b;
  }

  /** A snapshot with exactly one altered byte, checksum bytes included, is rejected. */
  lemma AlteredByteRejected(data: seq<byte>, i: nat, x: byte)
    requires Decode(data).Some? && i < |data| && x != data[i]
    ensures Decode(data[i := x]).None?
  {
    hide Intact, DecodeFields, ValidSecrets;
    AlteredNotIntact(data, i, x);
  }

  /** No secrets; not storable before a network is chosen. */
  const DEFAULT_SECRETS := InstallationSecrets(false, false, 0, Fill(16, 0), Fill(32, 0))

  const SECRETS_CODEC: Slots.Codec<InstallationSecrets> := Slots.Codec(Encode, Decode, DEFAULT_SECRETS)

  /** The codec meets the dual-slot store's one assumption. */
  lemma SecretsCodecIsFaithful()
    ensures Slots.Faithful(SECRETS_CODEC)
  {
    hide Decode, ValidSecrets;
    forall v: InstallationSecrets, g: uint32 | SECRETS_CODEC.encode(v, g).Some?
      ensures SECRETS_CODEC.decode(SECRETS_CODEC.encode(v, g).value) == Some((v, g))
    {
      SnapshotRoundTrip(v, g);
    }
  }
}
