/** Where each field of each stored record lies, byte by byte, so that one version of the
    system reads what another has written. */
module StoredLayouts {
  import opened Bytes
  import opened Protocol
  import opened Crc
  import Results = SetCountStore
  import Config = NetworkConfigStore
  import Credentials = FactoryCredentials
  import Commands = CommandBook
  import CommandBookCodec
  import Registry = NodeRegistry
  import RegistryCodec
  import Settings = SettingsCodec
  import Secrets = SecretsCodec
  import Users = UserTable
  import AuthenticationCodec
  import Snapshots

  // ---------------------------------------------------------------- little-endian numbers

  predicate Number16(b: seq<byte>, at: nat, v: int) {
    at + 2 <= |b| && v == b[at] as int + 0x100 * (b[at + 1] as int)
  }

  predicate Number32(b: seq<byte>, at: nat, v: int) {
    at + 4 <= |b| && v == b[at] as int + 0x100 * (b[at + 1] as int) + 0x1_0000 * (b[at + 2] as int) + 0x100_0000 * (b[at + 3] as int)
  }

  predicate Number64(b: seq<byte>, at: nat, v: int) {
    at + 8 <= |b| && Number32(b, at, v % 0x1_0000_0000) && Number32(b, at + 4, v / 0x1_0000_0000)
  }

  predicate Field(b: seq<byte>, at: nat, bytes: seq<byte>) {
    at + |bytes| <= |b| && b[at..at + |bytes|] == bytes
  }

  lemma Write16At(b: seq<byte>, at: nat, v: uint16)
    requires Field(b, at, Write16(v))
    ensures Number16(b, at, v)
  {
    var w := b[at..at + 2];
    assert b[at] == w[0] && b[at + 1] == w[1];
  }

  lemma Write32At(b: seq<byte>, at: nat, v: uint32)
    requires Field(b, at, Write32(v))
    ensures Number32(b, at, v)
  {
    var w := b[at..at + 4];
    assert b[at] == w[0] && b[at + 1] == w[1] && b[at + 2] == w[2] && b[at + 3] == w[3];
  }

  lemma Write64At(b: seq<byte>, at: nat, v: uint64)
    requires Field(b, at, Write64(v))
    ensures Number64(b, at, v)
  {
    hide Write32;
    var w, low, high := b[at..at + 8], v % 0x1_0000_0000, v / 0x1_0000_0000;
    assert b[at..at + 4] == w[..4] == Write32(low);
    assert b[at + 4..at + 8] == w[4..] == Write32(high);
    Write32At(b, at, low);
    Write32At(b, at + 4, high);
  }

  // ---------------------------------------------------------------- the node

  lemma ResultLayout(v: Results.SetCountResult)
    ensures
      var b := Results.Encode(v);
      && |b| == 16 && b[0] == 0xC7 && b[1] == 1 && b[2] == v.generation && b[3] == (if v.status.Pending? then 1 else 2)
      && Number16(b, 4, v.commandId) && Number32(b, 6, v.oldCount) && Number32(b, 10, v.appliedCount)
      && Number16(b, 14, Crc16(b[..14]))
  {
    hide Write16, Write32, Crc16;
    var b := Results.Encode(v);
    assert b[..14] == Results.Body(v);
    Write16At(b, 4, v.commandId);
    Write32At(b, 6, v.oldCount);
    Write32At(b, 10, v.appliedCount);
    Write16At(b, 14, Crc16(b[..14]));
  }

  lemma ConfigLayout(v: Config.NetworkConfig)
    ensures
      var b := Config.Record(v);
      && |b| == 32 && b[0] == 0x52 && b[1] == 0x4E && b[2] == 2 && b[3] == v.generation
      && b[4] == (if v.state.Provisional? then 1 else 2) && b[5] == v.nodeId && b[6] == v.gatewayId && b[7] == v.networkId
      && Field(b, 8, v.installationKey) && Number32(b, 24, v.requestNonce) && b[28] == b[29] == 0
      && Number16(b, 30, Crc16(b[..30]))
  {
    hide Write16, Write32, Crc16;
    var b := Config.Record(v);
    assert b[..30] == Config.Body(v);
    Write32At(b, 24, v.requestNonce);
    Write16At(b, 30, Crc16(b[..30]));
  }

  lemma CredentialLayout(key: Key)
    requires Credentials.Encode(key).Some?
    ensures
      var b := Credentials.Encode(key).value;
      && |b| == 32 && b[0] == 0x52 && b[1] == 0x53 && b[2] == 0x46 && b[3] == 0x43 && b[4] == b[5] == 1
      && b[6] == b[7] == 0 && Field(b, 8, key) && Number16(b, 24, Crc16(b[..24]))
      && b[26] == 0xFF - b[24] && b[27] == 0xFF - b[25] && b[28] == b[29] == b[30] == b[31] == 0
  {
    hide Write16, Crc16;
    var b := Credentials.Encode(key).value;
    assert b[..24] == Credentials.Head(key);
    Write16At(b, 24, Crc16(b[..24]));
  }

  // ---------------------------------------------------------------- the gateway

  lemma HeaderLayout(magic: Snapshots.Magic, generation: uint32, size: uint16)
    ensures
      var b := Snapshots.Header(magic, generation, size);
      |b| == 12 && Field(b, 0, magic) && Number16(b, 4, 2) && Number32(b, 6, generation) && Number16(b, 10, size)
  {
    hide Write16, Write32;
    var b := Snapshots.Header(magic, generation, size);
    Write16At(b, 4, 2);
    Write32At(b, 6, generation);
    Write16At(b, 10, size);
  }

  lemma CommandLayout(r: Commands.CommandRecord)
    ensures
      var b := CommandBookCodec.EncodeRecord(r);
      && |b| == 50 && Field(b, 0, r.deviceUid) && b[10] == r.nodeId && Number16(b, 11, r.commandId)
      && b[13] == r.commandType && b[14] == r.argumentSize && Field(b, 15, r.arguments)
      && b[23] == r.state && b[24] == r.status && b[25] == r.resultSize && Field(b, 26, r.result)
      && Number64(b, 34, r.queuedAtUnixMs) && Number64(b, 42, r.completedAtUnixMs)
  {
    hide Write16, Write64, Number64;
    var b := CommandBookCodec.EncodeRecord(r);
    Write16At(b, 11, r.commandId);
    Write64At(b, 34, r.queuedAtUnixMs);
    Write64At(b, 42, r.completedAtUnixMs);
  }

  lemma NodeLayout(r: Registry.NodeRecord)
    ensures
      var b := RegistryCodec.EncodeRecord(r);
      && |b| == 72 && Field(b, 0, r.deviceUid) && b[10] == r.nodeId && Number16(b, 11, r.profileId)
      && b[13] == r.firmware.major && b[14] == r.firmware.minor && b[15] == r.firmware.patch && b[16] == r.state
      && Number32(b, 17, r.requestNonce) && b[21] == r.displayNameLength && Field(b, 22, r.displayName)
      && b[70] == r.maxPowerLevel && b[71] == r.powerPolicy
  {
    hide Write16, Write32;
    var b := RegistryCodec.EncodeRecord(r);
    Write16At(b, 11, r.profileId);
    Write32At(b, 17, r.requestNonce);
  }

  lemma SettingsLayout(v: Settings.GatewaySettings)
    ensures
      var b := Settings.Fields(v);
      && |b| == 232 && b[0] == (if v.mdnsEnabled then 1 else 0) + (if v.ntpEnabled then 2 else 0)
      && b[1] == v.hostnameLength && b[2] == v.ntpServerCount && b[3] == 0
      && Number16(b, 4, v.pairingWindowSeconds) && Number16(b, 6, v.setupWindowSeconds) && Field(b, 8, v.hostname)
      && b[40] == v.first.length && Field(b, 41, v.first.name)
      && b[104] == v.second.length && Field(b, 105, v.second.name)
      && b[168] == v.third.length && Field(b, 169, v.third.name)
  {
    hide Write16;
    var b := Settings.Fields(v);
    Write16At(b, 4, v.pairingWindowSeconds);
    Write16At(b, 6, v.setupWindowSeconds);
  }

  lemma SecretsLayout(v: Secrets.InstallationSecrets)
    ensures
      var b := Secrets.Fields(v);
      && |b| == 51
      && Number16(b, 0, (if v.installationKeyPresent then 1 else 0) + if v.deviceSecretPresent then 2 else 0)
      && b[2] == v.operationalNetworkId && Field(b, 3, v.installationKey) && Field(b, 19, v.deviceSecret)
  {
    hide Write16;
    Write16At(Secrets.Fields(v), 0, Secrets.Flags(v));
  }

  lemma UserLayout(u: Users.UserRecord)
    ensures
      var b := AuthenticationCodec.EncodeUser(u);
      && |b| == 92 && Number32(b, 0, u.id) && b[4] == u.usernameLength && Field(b, 5, u.username)
      && b[37] == u.role && b[38] == (if u.enabled then 1 else 0) && b[39] == u.hashAlgorithm
      && Number32(b, 40, u.pbkdf2Iterations) && Field(b, 44, u.salt) && Field(b, 60, u.passwordHash)
  {
    hide Write32;
    var b := AuthenticationCodec.EncodeUser(u);
    Write32At(b, 0, u.id);
    Write32At(b, 40, u.pbkdf2Iterations);
  }

  lemma TokenLayout(t: AuthenticationCodec.ApiToken)
    ensures
      var b := AuthenticationCodec.EncodeToken(t);
      && |b| == 80 && Number32(b, 0, t.id) && b[4] == t.nameLength && Field(b, 5, t.name)
      && b[37] == (if t.enabled then 1 else 0) && Number16(b, 38, t.scopes) && Number64(b, 40, t.createdAtUnixMs)
      && Field(b, 48, t.tokenHash)
  {
    hide Write16, Write32, Write64, Number64;
    var b := AuthenticationCodec.EncodeToken(t);
    Write32At(b, 0, t.id);
    Write16At(b, 38, t.scopes);
    Write64At(b, 40, t.createdAtUnixMs);
  }
}
