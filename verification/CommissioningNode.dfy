/** The node's side of commissioning: it asks for a membership, stores it as
    provisional, and makes it active once the gateway completes the handshake. */
module CommissioningNode {
  import opened Bytes
  import opened Protocol
  import opened Options
  import opened Eeprom
  import opened CommissioningFrames
  import Registry = NodeRegistry
  import Config = NetworkConfigStore

  const NODE_GATEWAY_ID: byte := 100
  const CONFIRM_ATTEMPTS := 3

  const NO_CONFIG := Config.NetworkConfig(0, Config.Provisional, 0, 0, 0, Fill(16, 0), 0)

  /** The receive call of one window: the frame it delivers, if it decodes. */
  type Window<T> = Option<T>

  predicate Matches(deviceUid: Uid, nonce: uint32, accept: JoinAccept) {
    accept.deviceUid == deviceUid && accept.requestNonce == nonce && accept.gatewayNodeId == NODE_GATEWAY_ID
  }

  function ConfigFrom(accept: JoinAccept): Config.NetworkConfig {
    Config.NetworkConfig(
      0, Config.Provisional, accept.assignedNodeId, accept.gatewayNodeId, accept.networkId, accept.installationKey,
      accept.requestNonce)
  }

  /** The configuration an accept window stores, if any. */
  function Accepted(deviceUid: Uid, nonce: uint32, reply: Window<JoinAccept>): Option<Config.NetworkConfig> {
    if reply.Some? && DecodableAccept(reply.value) && Matches(deviceUid, nonce, reply.value)
    then Some(ConfigFrom(reply.value)) else None
  }

  /** Whether one of the complete windows ends the handshake. */
  predicate Completes(confirm: JoinConfirm, windows: seq<Window<JoinConfirm>>) {
    exists i :: 0 <= i < |windows| && windows[i] == Some(confirm)
  }

  /** The EEPROM writes of one `advance`, in order: what a power cut can cut. */
  function AdvanceWrites(
    image: Image, deviceUid: Uid, nonce: uint32, reply: Window<JoinAccept>, windows: seq<Window<JoinConfirm>>)
    : seq<Write>
  {
    var before := Config.Loaded(image);
    if before.Some? && before.value.state.Active? then []
    else if before.Some? then ConfirmWrites(image, deviceUid, windows)
    else
      var config := Accepted(deviceUid, nonce, reply);
      if config.None? then []
      else
        var first := Config.Writes(image, Config.StoreProvisional(config.value, 0));
        first + ConfirmWrites(Apply(image, first), deviceUid, windows)
  }

  function ConfirmWrites(image: Image, deviceUid: Uid, windows: seq<Window<JoinConfirm>>): seq<Write> {
    var stored := Config.Loaded(image);
    if stored.Some? && Completes(JoinConfirm(deviceUid, stored.value.requestNonce), windows)
    then Config.Writes(image, Config.StoreActive(0)) else []
  }

  // ---------------------------------------------------------------- what a round stores

  /** The configurations before and after a round: an accept that answers the request is
      stored field by field, a stored membership keeps every field, and it is active from
      the first matching complete on. */
  predicate RoundStores(
    deviceUid: Uid, nonce: uint32, reply: Window<JoinAccept>, windows: seq<Window<JoinConfirm>>,
    before: Option<Config.NetworkConfig>, after: Option<Config.NetworkConfig>)
  {
    if before.Some? then
      var b := before.value;
      && after.Some? && SameMembership(b, after.value)
      && (after.value.state.Active? <==>
            b.state.Active? || exists i :: 0 <= i < |windows| && windows[i] == Some(JoinConfirm(deviceUid, b.requestNonce)))
    else if reply.Some? && DecodableAccept(reply.value) && reply.value.deviceUid == deviceUid &&
            reply.value.requestNonce == nonce && reply.value.gatewayNodeId == NODE_GATEWAY_ID then
      && after.Some?
      && after.value.nodeId == reply.value.assignedNodeId && after.value.gatewayId == reply.value.gatewayNodeId
      && after.value.networkId == reply.value.networkId && after.value.installationKey == reply.value.installationKey
      && after.value.requestNonce == reply.value.requestNonce
      && (after.value.state.Active? <==> exists i :: 0 <= i < |windows| && windows[i] == Some(JoinConfirm(deviceUid, nonce)))
    else after.None?
  }

  predicate SameMembership(a: Config.NetworkConfig, b: Config.NetworkConfig) {
    && a.nodeId == b.nodeId && a.gatewayId == b.gatewayId && a.networkId == b.networkId
    && a.installationKey == b.installationKey && a.requestNonce == b.requestNonce
  }

  lemma RoundMeaning(
    image: Image, deviceUid: Uid, nonce: uint32, reply: Window<JoinAccept>, windows: seq<Window<JoinConfirm>>)
    ensures
      RoundStores(
        deviceUid, nonce, reply, windows, Config.Loaded(image),
        Config.Loaded(Apply(image, AdvanceWrites(image, deviceUid, nonce, reply, windows))))
  {
    hide Config.SaveWrites, Config.Loaded, Config.Decode;
    var before, writes := Config.Loaded(image), AdvanceWrites(image, deviceUid, nonce, reply, windows);
    if before.Some? {
      if before.value.state.Provisional? {
        StoredActive(image);
      }
    } else {
      var config := Accepted(deviceUid, nonce, reply);
      if config.Some? {
        StoredProvisional(image, config.value);
        var first := Config.SaveWrites(image, config.value);
        var middle := Apply(image, first);
        StoredActive(middle);
        ApplyConcat(image, first, ConfirmWrites(middle, deviceUid, windows));
      }
    }
  }

  class Service {
    const deviceUid: Uid
    const profileId: uint16
    const firmware: Registry.Firmware
    const maxPowerLevel: byte
    const store: Config.Store
    var config: Config.NetworkConfig

    /** The configuration in memory is the stored one. */
    ghost predicate Valid()
      reads this, store, store.storage.cells
    {
      && store.Valid() && store.initialized
      && config == (if Config.Loaded(store.storage.Contents()).Some? then Config.Loaded(store.storage.Contents()).value
                    else NO_CONFIG)
    }

    constructor (deviceUid: Uid, profileId: uint16, firmware: Registry.Firmware, maxPowerLevel: byte, storage: Device)
      requires storage.Valid() && profileId != 0 && maxPowerLevel <= Registry.MAX_RADIO_POWER_LEVEL
      ensures Valid() && store.storage == storage && this.deviceUid == deviceUid
      ensures this.profileId == profileId && this.maxPowerLevel == maxPowerLevel
    {
      this.deviceUid, this.profileId, this.firmware, this.maxPowerLevel := deviceUid, profileId, firmware, maxPowerLevel;
      var s := new Config.Store(storage);
      store, config := s, NO_CONFIG;
      new;
      hide Config.Decode;
      var loaded := store.Load();
      if loaded.Some? {
        config := loaded.value;
      }
    }

    method Active() returns (active: bool)
      requires Valid()
      ensures active <==> Config.Loaded(store.storage.Contents()).Some? &&
                          Config.Loaded(store.storage.Contents()).value.state.Active?
    {
      LoadedIds(store.storage.Contents());
      active := config.state.Active? && config.nodeId != 0;
    }

    /** Clears the membership; `credentials` is whether the factory key is valid. */
    method ResetNetwork(credentials: bool) returns (ok: bool)
      requires Valid()
      modifies this, store, store.storage.cells, store.storage`log
      ensures Valid() && ok == credentials
      ensures store.storage.log == old(store.storage.log) + if ok then Config.RESET_WRITES else []
      ensures ok ==> Config.Loaded(store.storage.Contents()).None?
    {
      hide Config.Decode;
      if !credentials {
        return false;
      }
      store.FactoryReset();
      config := NO_CONFIG;
      ok := true;
    }

    /** One round of the handshake. `reply` and `windows` are what the radio receives. */
    method Advance(nonce: uint32, reply: Window<JoinAccept>, windows: seq<Window<JoinConfirm>>)
      returns (joined: bool, request: Option<Registry.JoinRequest>)
      requires Valid() && |windows| == CONFIRM_ATTEMPTS
      modifies this, store, store.storage.cells, store.storage`log
      ensures Valid()
      ensures
        var image := old(store.storage.Contents());
        var writes := AdvanceWrites(image, deviceUid, nonce, reply, windows);
        && store.storage.log == old(store.storage.log) + writes
        && store.storage.Contents() == Apply(image, writes)
      ensures joined <==> Config.Loaded(store.storage.Contents()).Some? &&
                          Config.Loaded(store.storage.Contents()).value.state.Active?
      ensures request == if old(Config.Loaded(store.storage.Contents())).Some? then None
                         else Some(Registry.JoinRequest(deviceUid, profileId, firmware, nonce, maxPowerLevel))
      ensures RoundStores(
                deviceUid, nonce, reply, windows, old(Config.Loaded(store.storage.Contents())),
                Config.Loaded(store.storage.Contents()))
    {
      hide RoundStores;
      RoundMeaning(store.storage.Contents(), deviceUid, nonce, reply, windows);
      hide Config.Decode, Config.SaveWrites;
      LoadedIds(store.storage.Contents());
      request := None;
      var active := Active();
      if active {
        return true, request;
      }
      if config.nodeId != 0 {
        joined := ConfirmJoin(windows);
        return;
      }
      request := Some(Registry.JoinRequest(deviceUid, profileId, firmware, nonce, maxPowerLevel));
      joined := RequestJoin(nonce, reply, windows);
    }

    method RequestJoin(nonce: uint32, reply: Window<JoinAccept>, windows: seq<Window<JoinConfirm>>)
      returns (joined: bool)
      requires Valid() && |windows| == CONFIRM_ATTEMPTS && Config.Loaded(store.storage.Contents()).None?
      modifies this, store, store.storage.cells, store.storage`log
      ensures Valid()
      ensures
        var image := old(store.storage.Contents());
        var writes := AdvanceWrites(image, deviceUid, nonce, reply, windows);
        && store.storage.log == old(store.storage.log) + writes
        && store.storage.Contents() == Apply(image, writes)
      ensures joined <==> Config.Loaded(store.storage.Contents()).Some? &&
                          Config.Loaded(store.storage.Contents()).value.state.Active?
      ensures RoundStores(
                deviceUid, nonce, reply, windows, old(Config.Loaded(store.storage.Contents())),
                Config.Loaded(store.storage.Contents()))
    {
      hide Config.Decode, Config.SaveWrites, Config.LoadedSlot, ConfirmWrites, Completes, RoundStores, Apply;
      RoundMeaning(store.storage.Contents(), deviceUid, nonce, reply, windows);
      NothingApplied(store.storage.Contents());
      if reply.None? || !DecodableAccept(reply.value) || !Matches(deviceUid, nonce, reply.value) {
        return false;
      }
      ghost var image := store.storage.Contents();
      var wanted := ConfigFrom(reply.value);
      ghost var first := Config.Writes(image, Config.StoreProvisional(wanted, 0));
      var saved, stored := store.Save(wanted);
      config := stored;
      StoredProvisional(image, wanted);
      ghost var middle := store.storage.Contents();
      joined := ConfirmJoin(windows);
      ApplyConcat(image, first, ConfirmWrites(middle, deviceUid, windows));
    }

    /** Up to three attempts; the first matching Join complete ends them. */
    method ConfirmJoin(windows: seq<Window<JoinConfirm>>) returns (joined: bool)
      requires Valid() && |windows| == CONFIRM_ATTEMPTS
      requires Config.Loaded(store.storage.Contents()).Some?
      requires Config.Loaded(store.storage.Contents()).value.state.Provisional?
      modifies this, store, store.storage.cells, store.storage`log
      ensures Valid()
      ensures store.storage.log ==
                old(store.storage.log) + ConfirmWrites(old(store.storage.Contents()), deviceUid, windows)
      ensures store.storage.Contents() ==
                Apply(old(store.storage.Contents()), ConfirmWrites(old(store.storage.Contents()), deviceUid, windows))
      ensures joined <==> Config.Loaded(store.storage.Contents()).Some? &&
                          Config.Loaded(store.storage.Contents()).value.state.Active?
    {
      hide Config.Decode, Config.SaveWrites, Config.LoadedSlot;
      ghost var image := store.storage.Contents();
      var confirm := JoinConfirm(deviceUid, config.requestNonce);
      for attempt := 0 to CONFIRM_ATTEMPTS
        invariant Valid() && store.storage.Contents() == image && config == old(config)
        invariant store.storage.log == old(store.storage.log)
        invariant !Completes(confirm, windows[..attempt])
      {
        if windows[attempt] == Some(confirm) {
          config := config.(state := Config.Active);
          var saved, stored := store.Save(config);
          config := stored;
          StoredActive(image);
          assert Completes(confirm, windows);
          return true;
        }
        assert windows[..attempt + 1] == windows[..attempt] + [windows[attempt]];
      }
      assert windows[..CONFIRM_ATTEMPTS] == windows;
      joined := false;
    }
  }

  lemma NothingApplied(image: Image)
    ensures Apply(image, []) == image
  {
  }

  lemma LoadedIds(image: Image)
    ensures Config.Loaded(image).Some? ==> Config.Loaded(image).value.nodeId != 0
  {
  }

  lemma StoredProvisional(image: Image, config: Config.NetworkConfig)
    requires Config.Loaded(image).None? && Config.ValidIds(config.nodeId, config.gatewayId) && config.state.Provisional?
    ensures
      var writes := Config.Writes(image, Config.StoreProvisional(config, 0));
      && writes == Config.SaveWrites(image, config)
      && Config.Loaded(Apply(image, writes)) == Some(Config.Stamped(image, config))
  {
    hide Config.Decode, Config.SaveWrites;
    assert config.(state := Config.Provisional) == config;
    var writes := Config.SaveWrites(image, config);
    Config.SaveIsAtomic(image, config, |writes|);
    CutWhole(image, writes);
  }

  lemma StoredActive(image: Image)
    requires Config.Loaded(image).Some? && Config.Loaded(image).value.state.Provisional?
    ensures
      var config := Config.Loaded(image).value.(state := Config.Active);
      var writes := Config.Writes(image, Config.StoreActive(0));
      && Config.ValidIds(config.nodeId, config.gatewayId)
      && writes == Config.SaveWrites(image, config)
      && Config.Loaded(Apply(image, writes)) == Some(Config.Stamped(image, config))
  {
    hide Config.SaveWrites;
    var config := Config.Loaded(image).value.(state := Config.Active);
    var writes := Config.SaveWrites(image, config);
    hide Config.Decode;
    Config.SaveIsAtomic(image, config, |writes|);
    CutWhole(image, writes);
  }

  /** A power cut inside `advance` leaves what one or two cut store events leave. */
  lemma AdvanceCut(
    image: Image, deviceUid: Uid, nonce: uint32, reply: Window<JoinAccept>,
    windows: seq<Window<JoinConfirm>>, k: nat)
    requires k <= |AdvanceWrites(image, deviceUid, nonce, reply, windows)|
    ensures
      var after := Cut(image, AdvanceWrites(image, deviceUid, nonce, reply, windows), k);
      var before, config := Config.Loaded(image), Accepted(deviceUid, nonce, reply);
      || after == image
      || (before.Some? && after == Config.Step(image, Config.StoreActive(k)))
      || (before.None? && config.Some? && after == Config.Step(image, Config.StoreProvisional(config.value, k)))
      || (before.None? && config.Some? && k >= 34 &&
          after == Config.Step(Config.Step(image, Config.StoreProvisional(config.value, k)), Config.StoreActive(k - 34)))
  {
    hide Config.SaveWrites, Config.LoadedSlot, Config.Decode, Completes;
    var writes := AdvanceWrites(image, deviceUid, nonce, reply, windows);
    var before, config := Config.Loaded(image), Accepted(deviceUid, nonce, reply);
    if writes == [] {
      assert writes[..k] == [];
    } else if before.None? {
      var first := Config.Writes(image, Config.StoreProvisional(config.value, 0));
      var second := ConfirmWrites(Apply(image, first), deviceUid, windows);
      CutConcat(image, first, second, k);
      CutWhole(image, first);
    }
  }
}
