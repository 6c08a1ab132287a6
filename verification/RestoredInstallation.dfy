/** What every store loads after a restore, with the codecs the gateway stores with. */
module RestoredInstallation {
  import opened Bytes
  import opened Options
  import opened Recovery
  import opened SettingsCodec
  import opened SecretsCodec
  import opened AuthenticationCodec
  import opened NodeRegistry
  import opened RegistryCodec
  import opened CommandBook
  import opened CommandBookCodec
  import Commands = CommandService
  import ExactlyOnce
  import Journal = SetCountJournal
  import Profile = CounterProfile
  import Slots = DualSlotStore

  datatype Installation = Installation(
    settings: GatewaySettings, secrets: InstallationSecrets, authentication: Authentication, registry: Registry)

  /** What a restore writes, if every part can be stored. */
  function Encodings(i: Installation): Option<Encoded> {
    var registry := REGISTRY_CODEC.encode(i.registry, 1);
    var settings := SETTINGS_CODEC.encode(i.settings, 1);
    var secrets := SECRETS_CODEC.encode(i.secrets, 2);
    var authentication := AUTHENTICATION_CODEC.encode(i.authentication, 1);
    if registry.None? || settings.None? || secrets.None? || authentication.None? then None
    else Some(Encoded(registry.value, settings.value, secrets.value, authentication.value))
  }

  /** What the stores load from flash. */
  function Loaded(c: Contents): Installation {
    Installation(
      Slots.LoadedValue(SETTINGS_CODEC, SlotsOf(c.config, "config_a", "config_b")),
      Slots.LoadedValue(SECRETS_CODEC, SlotsOf(c.secrets, "secret_a", "secret_b")),
      Slots.LoadedValue(AUTHENTICATION_CODEC, SlotsOf(c.auth, "auth_a", "auth_b")),
      Slots.LoadedValue(REGISTRY_CODEC, SlotsOf(c.nodeReg, "registry_a", "registry_b")))
  }

  /** A completed restore, whatever flash held: the next boot loads the installation of
      the snapshot, and an empty command book. */
  lemma RestoredInstallationLoads(f: Flash, i: Installation)
    requires Encodings(i).Some?
    ensures
      var after := PerformAll(f, RestoreOps(Encodings(i).value));
      && Loaded(after.stores) == i && after.marker == Value(IDLE)
      && Slots.LoadedValue(COMMAND_CODEC, SlotsOf(after.stores.nodeCmd, "commands_a", "commands_b")) == EMPTY_BOOK
  {
    hide PerformAll, RestoreOps, Slots.LoadedSlot, Slots.Decoded;
    hide SettingsCodec.Encode, SecretsCodec.Encode, AuthenticationCodec.Encode, EncodeGood;
    hide SettingsCodec.Decode, SecretsCodec.Decode, AuthenticationCodec.Decode, RegistryCodec.Decode;
    var e := Encodings(i).value;
    RestoreLeavesImage(f, e);
    SettingsCodecIsFaithful();
    SecretsCodecIsFaithful();
    AuthenticationCodecIsFaithful();
    RegistryCodecIsFaithful();
    ImageLoadsSnapshot(
      SETTINGS_CODEC, SECRETS_CODEC, AUTHENTICATION_CODEC, REGISTRY_CODEC, COMMAND_CODEC,
      i.settings, i.secrets, i.authentication, i.registry, e);
  }

  /** The command protocol after a restore: the gateway starts with an empty book and a
      random next ID, the nodes go on with whatever command ID they have on record. */
  lemma RestoredSystemStarts(f: Flash, i: Installation, randomId: uint16, s: ExactlyOnce.System)
    requires Encodings(i).Some? && randomId != 0
    requires
      var stores := PerformAll(f, RestoreOps(Encodings(i).value)).stores;
      s.gateway == Commands.Booted(SlotsOf(stores.nodeCmd, "commands_a", "commands_b"), randomId)
    requires s.allowed == {EMPTY_BOOK} && s.net == {} && s.issued == []
    requires s.identities.Keys <= s.nodes.Keys
    requires forall n :: n in s.nodes ==>
                           && Profile.Good(s.nodes[n].device) && s.nodes[n].session == None && s.nodes[n].history == []
                           && s.nodes[n].initial == Journal.Meaning(s.nodes[n].device.image)
    ensures ExactlyOnce.Initial(s) && s.gateway.book == Book(randomId, [])
  {
    hide PerformAll, RestoreOps, Profile.Good, Journal.Meaning, CommandBookCodec.Encode, CommandBookCodec.Decode;
    RestoreLeavesImage(f, Encodings(i).value);
  }
}
