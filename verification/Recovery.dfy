/** Backup restore and factory reset over five flash namespaces, made
    all-or-nothing by a marker kept outside them. */
module Recovery {
  import opened Bytes
  import opened Options
  import Slots = DualSlotStore

  // ---------------------------------------------------------------- flash

  /** One namespace of the key-value flash. */
  type Namespace = map<string, seq<byte>>

  datatype StoreName = GatewayConfig | GatewayAuth | GatewaySecrets | NodeReg | NodeCmd

  datatype Contents = Contents(
    config: Namespace, auth: Namespace, secrets: Namespace, nodeReg: Namespace, nodeCmd: Namespace)
  {
    function Get(name: StoreName): Namespace {
      match name
      case GatewayConfig => config
      case GatewayAuth => auth
      case GatewaySecrets => secrets
      case NodeReg => nodeReg
      case NodeCmd => nodeCmd
    }

    function Put(name: StoreName, value: Namespace): (c: Contents)
      ensures c.Get(name) == value
      ensures forall other :: other != name ==> c.Get(other) == Get(other)
    {
      match name
      case GatewayConfig => this.(config := value)
      case GatewayAuth => this.(auth := value)
      case GatewaySecrets => this.(secrets := value)
      case NodeReg => this.(nodeReg := value)
      case NodeCmd => this.(nodeCmd := value)
    }
  }

  const EMPTY := Contents(map[], map[], map[], map[], map[])

  datatype Marker = Absent | Value(value: byte) | Unreadable

  datatype Flash = Flash(stores: Contents, marker: Marker)

  const IDLE: byte := 0
  const RESTORE_INCOMPLETE: byte := 1
  const RESET_REQUESTED: byte := 2
  const STORAGE_UNAVAILABLE: byte := 3
  const RESTARTING: byte := 4

  /** One flash operation with its commit. */
  datatype Op = WriteMarker(value: byte) | Erase(store: StoreName) | WriteBlob(store: StoreName, key: string, bytes: seq<byte>)

  function Perform(f: Flash, op: Op): Flash {
    match op
    case WriteMarker(value) => f.(marker := Value(value))
    case Erase(store) => f.(stores := f.stores.Put(store, map[]))
    case WriteBlob(store, key, bytes) => f.(stores := f.stores.Put(store, f.stores.Get(store)[key := bytes]))
  }

  function PerformAll(f: Flash, ops: seq<Op>): Flash {
    if ops == [] then f
    else Perform(PerformAll(f, ops[..|ops| - 1]), ops[|ops| - 1])
  }

  /** What an operation that fails or loses power may leave: a marker is old, new
      or unreadable; an erase leaves any part of its namespace; a blob write leaves
      anything under its key. */
  predicate Torn(f: Flash, op: Op, g: Flash) {
    match op
    case WriteMarker(value) => g == f || g == Perform(f, op) || g == f.(marker := Unreadable)
    case Erase(store) =>
      && g == f.(stores := f.stores.Put(store, g.stores.Get(store)))
      && g.stores.Get(store).Items <= f.stores.Get(store).Items
    case WriteBlob(store, key, _) =>
      && g == f.(stores := f.stores.Put(store, g.stores.Get(store)))
      && g.stores.Get(store) - {key} == f.stores.Get(store) - {key}
  }

  /** `ops` stopped inside its operation `k`, by an error or by a power cut. */
  predicate Stopped(f: Flash, ops: seq<Op>, k: nat, g: Flash)
    requires k < |ops|
  {
    Torn(PerformAll(f, ops[..k]), ops[k], g)
  }

  // ---------------------------------------------------------------- the two operations

  /** The encoded stores of a snapshot. */
  datatype Encoded = Encoded(registry: seq<byte>, settings: seq<byte>, secrets: seq<byte>, auth: seq<byte>)

  const ERASE_ALL: seq<Op> :=
    [Erase(GatewayConfig), Erase(GatewayAuth), Erase(GatewaySecrets), Erase(NodeReg), Erase(NodeCmd)]

  function ImageWrites(e: Encoded): seq<Op> {
    [WriteBlob(NodeReg, "registry_a", e.registry), WriteBlob(GatewayConfig, "config_a", e.settings),
     WriteBlob(GatewaySecrets, "secret_a", e.secrets), WriteBlob(GatewaySecrets, "secret_b", e.secrets),
     WriteBlob(GatewayAuth, "auth_a", e.auth)]
  }

  function RestoreOps(e: Encoded): seq<Op> {
    [WriteMarker(RESTORE_INCOMPLETE)] + ERASE_ALL + ImageWrites(e) + [WriteMarker(IDLE)]
  }

  /** What a boot with a reset request does. */
  const RESET_OPS: seq<Op> := ERASE_ALL + [WriteMarker(IDLE)]

  /** The five stores a completed restore leaves, whatever was there before. */
  function ImageOf(e: Encoded): Contents {
    Contents(
      map["config_a" := e.settings], map["auth_a" := e.auth],
      map["secret_a" := e.secrets, "secret_b" := e.secrets], map["registry_a" := e.registry], map[])
  }

  lemma {:induction false} PerformConcat(f: Flash, a: seq<Op>, b: seq<Op>)
    ensures PerformAll(f, a + b) == PerformAll(PerformAll(f, a), b)
  {
    if b == [] {
      assert a + b == a;
    } else {
      PerformConcat(f, a, b[..|b| - 1]);
      assert (a + b)[..|a + b| - 1] == a + b[..|b| - 1];
    }
  }

  lemma PerformOne(f: Flash, op: Op)
    ensures PerformAll(f, [op]) == Perform(f, op)
  {
    assert [op][..0] == [];
    assert PerformAll(f, []) == f;
  }

  lemma PerformNext(f: Flash, ops: seq<Op>, k: nat)
    requires k < |ops|
    ensures PerformAll(f, ops[..k + 1]) == Perform(PerformAll(f, ops[..k]), ops[k])
  {
    assert ops[..k + 1][..k] == ops[..k];
  }

  lemma FiveSteps(f: Flash, ops: seq<Op>)
    requires |ops| == 5
    ensures PerformAll(f, ops) ==
            Perform(Perform(Perform(Perform(Perform(f, ops[0]), ops[1]), ops[2]), ops[3]), ops[4])
  {
    hide Perform;
    PerformNothing(f);
    assert ops[..0] == [] && ops[..5] == ops;
    PerformNext(f, ops, 0);
    PerformNext(f, ops, 1);
    PerformNext(f, ops, 2);
    PerformNext(f, ops, 3);
    PerformNext(f, ops, 4);
  }

  lemma EraseAllEmpties(f: Flash)
    ensures PerformAll(f, ERASE_ALL) == f.(stores := EMPTY)
  {
    FiveSteps(f, ERASE_ALL);
  }

  lemma ImageWritten(f: Flash, e: Encoded)
    requires f.stores == EMPTY
    ensures PerformAll(f, ImageWrites(e)) == f.(stores := ImageOf(e))
  {
    FiveSteps(f, ImageWrites(e));
  }

  /** A restore that completes leaves exactly the image of its snapshot. */
  lemma RestoreLeavesImage(f: Flash, e: Encoded)
    ensures PerformAll(f, RestoreOps(e)) == Flash(ImageOf(e), Value(IDLE))
  {
    var mark, body, image := [WriteMarker(RESTORE_INCOMPLETE)], ERASE_ALL, ImageWrites(e);
    PerformConcat(f, mark + body + image, [WriteMarker(IDLE)]);
    PerformConcat(f, mark + body, image);
    PerformConcat(f, mark, body);
    PerformOne(f, mark[0]);
    EraseAllEmpties(PerformAll(f, mark));
    ImageWritten(PerformAll(f, mark + body), e);
    PerformOne(PerformAll(f, mark + body + image), WriteMarker(IDLE));
  }

  lemma ResetLeavesNothing(f: Flash)
    ensures PerformAll(f, RESET_OPS) == Flash(EMPTY, Value(IDLE))
  {
    PerformConcat(f, ERASE_ALL, [WriteMarker(IDLE)]);
    EraseAllEmpties(f);
    PerformOne(PerformAll(f, ERASE_ALL), WriteMarker(IDLE));
  }

  predicate IdleMarker(m: Marker) {
    m == Absent || m == Value(IDLE)
  }

  /** Operations between the first and the last leave the marker alone. */
  lemma {:induction false} MarkerKept(f: Flash, ops: seq<Op>)
    requires forall op :: op in ops ==> !op.WriteMarker?
    ensures PerformAll(f, ops).marker == f.marker
  {
    if ops != [] {
      assert forall op :: op in ops[..|ops| - 1] ==> op in ops;
      MarkerKept(f, ops[..|ops| - 1]);
    }
  }

  /** Stopping between two marker writes shows as a marker that is not idle. */
  lemma StoppedInside(f: Flash, first: Op, middle: seq<Op>, last: Op, k: nat, g: Flash)
    requires first.WriteMarker? && first.value != IDLE && last == WriteMarker(IDLE)
    requires forall op :: op in middle ==> !op.WriteMarker?
    requires k < |[first] + middle + [last]| && Stopped(f, [first] + middle + [last], k, g)
    ensures IdleMarker(g.marker) ==> (k == 0 && g == f) || g == PerformAll(f, [first] + middle + [last])
    ensures g.marker in {f.marker, Value(first.value), Value(IDLE), Unreadable}
  {
    var ops := [first] + middle + [last];
    if k == 0 {
      assert ops[..0] == [];
    } else {
      assert ops[..k] == [first] + middle[..k - 1];
      PerformConcat(f, [first], middle[..k - 1]);
      PerformOne(f, first);
      assert forall op :: op in middle[..k - 1] ==> op in middle;
      MarkerKept(Perform(f, first), middle[..k - 1]);
      if k == |ops| - 1 {
        assert ops[..k] == [first] + middle;
        PerformConcat(f, [first] + middle, [last]);
        PerformOne(PerformAll(f, [first] + middle), last);
      } else {
        assert ops[k] == middle[k - 1] && middle[k - 1] in middle;
      }
    }
  }

  lemma RestoreStopped(f: Flash, e: Encoded, k: nat, g: Flash)
    requires k < |RestoreOps(e)| && Stopped(f, RestoreOps(e), k, g)
    ensures IdleMarker(g.marker) ==> g == f || g == Flash(ImageOf(e), Value(IDLE))
    ensures g.marker in {f.marker, Value(RESTORE_INCOMPLETE), Value(IDLE), Unreadable}
  {
    var middle := ERASE_ALL + ImageWrites(e);
    assert RestoreOps(e) == [WriteMarker(RESTORE_INCOMPLETE)] + middle + [WriteMarker(IDLE)];
    StoppedInside(f, WriteMarker(RESTORE_INCOMPLETE), middle, WriteMarker(IDLE), k, g);
    RestoreLeavesImage(f, e);
  }

  lemma ResetStopped(f: Flash, k: nat, g: Flash)
    requires f.marker == Value(RESET_REQUESTED)
    requires k < |RESET_OPS| && Stopped(f, RESET_OPS, k, g)
    ensures IdleMarker(g.marker) ==> g == Flash(EMPTY, Value(IDLE))
    ensures !IdleMarker(g.marker) ==> g.marker == Value(RESET_REQUESTED) || g.marker == Unreadable
  {
    if k < |ERASE_ALL| {
      assert RESET_OPS[..k] == ERASE_ALL[..k] && RESET_OPS[k] == ERASE_ALL[k];
      assert forall op :: op in ERASE_ALL[..k] ==> op in ERASE_ALL;
      MarkerKept(f, ERASE_ALL[..k]);
    } else {
      assert RESET_OPS[..k] == ERASE_ALL;
      MarkerKept(f, ERASE_ALL);
      EraseAllEmpties(f);
    }
  }

  // ---------------------------------------------------------------- runs

  datatype Power = Off | Up(state: byte)

  /** `legal` is what the stores may hold at the next unblocked boot. */
  datatype System = System(flash: Flash, power: Power, legal: set<Contents>)

  predicate Blocked(power: Power) {
    power != Up(IDLE)
  }

  /** How an operation ends: completed, stopped by an error the code sees, or by a
      power cut; `after` is the flash a stop leaves. */
  datatype End = Completed | Failed(k: nat, after: Flash) | PowerCut(k: nat, after: Flash)

  predicate PossibleEnd(f: Flash, ops: seq<Op>, end: End) {
    end.Completed? || (end.k < |ops| && Stopped(f, ops, end.k, end.after))
  }

  function FlashAt(f: Flash, ops: seq<Op>, end: End): Flash {
    if end.Completed? then PerformAll(f, ops) else end.after
  }

  datatype Event =
    | Boot(controlOpens: bool, end: End)
    | Restore(encoded: Encoded, end: End)
    | RequestReset(end: End)
    | NormalOperation(stores: Contents)
    | LosePower

  predicate Enabled(s: System, e: Event) {
    match e
    case Boot(opens, end) =>
      s.power.Off? && (opens && s.flash.marker == Value(RESET_REQUESTED) ==> PossibleEnd(s.flash, RESET_OPS, end))
    case Restore(encoded, end) => !Blocked(s.power) && PossibleEnd(s.flash, RestoreOps(encoded), end)
    case RequestReset(end) => s.power.Up? && PossibleEnd(s.flash, [WriteMarker(RESET_REQUESTED)], end)
    case NormalOperation(_) => !Blocked(s.power)
    case LosePower => true
  }

  /** The state a boot chooses from a marker that needs no erasing. */
  function BootState(m: Marker): byte {
    if IdleMarker(m) then IDLE
    else if m == Value(RESTORE_INCOMPLETE) then RESTORE_INCOMPLETE
    else STORAGE_UNAVAILABLE
  }

  function Next(s: System, e: Event): System {
    match e
    case Boot(opens, end) =>
      if !opens then s.(power := Up(STORAGE_UNAVAILABLE))
      else if s.flash.marker == Value(RESET_REQUESTED) then
        System(
          FlashAt(s.flash, RESET_OPS, end),
          if end.Completed? then Up(IDLE) else if end.Failed? then Up(RESET_REQUESTED) else Off,
          s.legal)
      else s.(power := Up(BootState(s.flash.marker)))
    case Restore(encoded, end) =>
      System(
        FlashAt(s.flash, RestoreOps(encoded), end),
        if end.Completed? then Up(RESTARTING) else if end.Failed? then Up(RESTORE_INCOMPLETE) else Off,
        {s.flash.stores, ImageOf(encoded)})
    case RequestReset(end) =>
      System(
        FlashAt(s.flash, [WriteMarker(RESET_REQUESTED)], end),
        if end.Failed? then Up(STORAGE_UNAVAILABLE) else Off,
        s.legal + {EMPTY})
    case NormalOperation(stores) => System(s.flash.(stores := stores), s.power, {stores})
    case LosePower => s.(power := Off)
  }

  function RunFrom(s: System, events: seq<Event>): System {
    if events == [] then s
    else Next(RunFrom(s, events[..|events| - 1]), events[|events| - 1])
  }

  predicate Possible(s: System, events: seq<Event>) {
    forall i :: 0 <= i < |events| ==> Enabled(RunFrom(s, events[..i]), events[i])
  }

  predicate Safe(s: System) {
    && (IdleMarker(s.flash.marker) ==> s.flash.stores in s.legal)
    && (s.power == Up(IDLE) ==> IdleMarker(s.flash.marker))
    && (s.flash.marker == Value(RESET_REQUESTED) ==> EMPTY in s.legal)
  }

  lemma StepSafe(s: System, e: Event)
    requires Safe(s) && Enabled(s, e)
    ensures Safe(Next(s, e))
  {
    hide PerformAll;
    match e {
      case Boot(opens, end) =>
        if opens && s.flash.marker == Value(RESET_REQUESTED) {
          if end.Completed? {
            ResetLeavesNothing(s.flash);
          } else {
            ResetStopped(s.flash, end.k, end.after);
          }
        }
      case Restore(encoded, end) =>
        if end.Completed? {
          RestoreLeavesImage(s.flash, encoded);
        } else {
          RestoreStopped(s.flash, encoded, end.k, end.after);
        }
      case RequestReset(end) =>
        PerformOne(s.flash, WriteMarker(RESET_REQUESTED));
        if !end.Completed? {
          assert [WriteMarker(RESET_REQUESTED)][..0] == [];
          PerformNothing(s.flash);
        }
      case NormalOperation(_) =>
      case LosePower =>
    }
  }

  lemma PerformNothing(f: Flash)
    ensures PerformAll(f, []) == f
  {
  }

  /** Over any run with any number of power cuts and errors, every boot that is not
      blocked finds one of the legal contents. */
  lemma {:induction false} UnblockedStoresAreLegal(s: System, events: seq<Event>)
    requires Safe(s) && Possible(s, events)
    ensures Safe(RunFrom(s, events))
    ensures !Blocked(RunFrom(s, events).power) ==> RunFrom(s, events).flash.stores in RunFrom(s, events).legal
  {
    if events != [] {
      var front, last := events[..|events| - 1], events[|events| - 1];
      forall i | 0 <= i < |front|
        ensures Enabled(RunFrom(s, front[..i]), front[i])
      {
        assert front[..i] == events[..i];
      }
      UnblockedStoresAreLegal(s, front);
      StepSafe(RunFrom(s, front), last);
    }
  }

  /** After a restore began, until normal operation resumes, the legal contents are
      the ones before it, the image of its snapshot, and nothing at all. */
  lemma {:induction false} RestoreIsAllOrNothing(s: System, encoded: Encoded, end: End, events: seq<Event>)
    requires Safe(s) && Enabled(s, Restore(encoded, end))
    requires Possible(Next(s, Restore(encoded, end)), events)
    requires forall e :: e in events ==> !e.Restore? && !e.NormalOperation?
    ensures
      var after := RunFrom(Next(s, Restore(encoded, end)), events);
      && after.legal <= {s.flash.stores, ImageOf(encoded), EMPTY}
      && (!Blocked(after.power) ==> after.flash.stores in {s.flash.stores, ImageOf(encoded), EMPTY})
  {
    var started := Next(s, Restore(encoded, end));
    StepSafe(s, Restore(encoded, end));
    UnblockedStoresAreLegal(started, events);
    LegalAfter(started, events);
  }

  lemma {:induction false} LegalAfter(s: System, events: seq<Event>)
    requires forall e :: e in events ==> !e.Restore? && !e.NormalOperation?
    ensures RunFrom(s, events).legal <= s.legal + {EMPTY}
  {
    if events != [] {
      assert forall e :: e in events[..|events| - 1] ==> e in events;
      assert events[|events| - 1] in events;
      LegalAfter(s, events[..|events| - 1]);
    }
  }

  /** From any blocked boot, a reset request followed by an uninterrupted boot
      reaches an unblocked one with empty stores. */
  lemma ResetUnblocks(s: System)
    requires s.power.Up? && Blocked(s.power)
    ensures
      var requested := Next(s, RequestReset(Completed));
      var booted := Next(requested, Boot(true, Completed));
      && Enabled(s, RequestReset(Completed)) && Enabled(requested, Boot(true, Completed))
      && !Blocked(booted.power) && booted.flash == Flash(EMPTY, Value(IDLE))
  {
    PerformOne(s.flash, WriteMarker(RESET_REQUESTED));
    ResetLeavesNothing(PerformAll(s.flash, [WriteMarker(RESET_REQUESTED)]));
  }

  // ---------------------------------------------------------------- what a restored installation loads

  function SlotsOf(n: Namespace, a: string, b: string): Slots.Flash {
    [if a in n then Some(n[a]) else None, if b in n then Some(n[b]) else None]
  }

  /** The four codecs, and the encodings a restore writes. */
  ghost predicate Encodes<S(!new), X(!new), A(!new), R(!new)>(
    settings: Slots.Codec<S>, secrets: Slots.Codec<X>, auth: Slots.Codec<A>, registry: Slots.Codec<R>,
    s: S, x: X, a: A, r: R, e: Encoded)
  {
    && Slots.Faithful(settings) && Slots.Faithful(secrets) && Slots.Faithful(auth) && Slots.Faithful(registry)
    && settings.encode(s, 1) == Some(e.settings) && secrets.encode(x, 2) == Some(e.secrets)
    && auth.encode(a, 1) == Some(e.auth) && registry.encode(r, 1) == Some(e.registry)
  }

  /** Every store of the image loads the value of the snapshot; the two equal
      generations of the secrets load the first slot, and the command book is empty. */
  lemma ImageLoadsSnapshot<S(!new), X(!new), A(!new), R(!new), C>(
    settings: Slots.Codec<S>, secrets: Slots.Codec<X>, auth: Slots.Codec<A>, registry: Slots.Codec<R>,
    commands: Slots.Codec<C>, s: S, x: X, a: A, r: R, e: Encoded)
    requires Encodes(settings, secrets, auth, registry, s, x, a, r, e)
    ensures
      var image := ImageOf(e);
      && Slots.LoadedValue(settings, SlotsOf(image.config, "config_a", "config_b")) == s
      && Slots.LoadedValue(secrets, SlotsOf(image.secrets, "secret_a", "secret_b")) == x
      && Slots.LoadedValue(auth, SlotsOf(image.auth, "auth_a", "auth_b")) == a
      && Slots.LoadedValue(registry, SlotsOf(image.nodeReg, "registry_a", "registry_b")) == r
      && Slots.LoadedSlot(commands, SlotsOf(image.nodeCmd, "commands_a", "commands_b")) == -1
  {
    DistinctKeys();
  }

  lemma DistinctKeys()
    ensures "config_a" != "config_b" && "secret_a" != "secret_b"
    ensures "auth_a" != "auth_b" && "registry_a" != "registry_b"
  {
    assert "config_a"[7] != "config_b"[7] && "secret_a"[7] != "secret_b"[7];
    assert "auth_a"[5] != "auth_b"[5] && "registry_a"[9] != "registry_b"[9];
  }
}
