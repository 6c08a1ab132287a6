/** The gateway's dual-slot stores: a value and a 32-bit serial-number generation
    in each of two flash slots, read back after every write.

    `Generic` is the template used for settings, users, secrets and commands;
    `Registry` is the node registry's own store, which neither skips an equal value
    nor compares the value it reads back. */
module DualSlotStore {
  import opened Bytes
  import opened Options

  datatype Variant = Generic | Registry

  /** A model type with its snapshot codec; `encode` and `decode` carry the generation. */
  datatype Codec<!M(==)> = Codec(
    encode: (M, uint32) -> Option<seq<byte>>,
    decode: seq<byte> -> Option<(M, uint32)>,
    defaultValue: M)

  ghost predicate Faithful<M(!new)>(c: Codec<M>) {
    forall m: M, g: uint32 :: c.encode(m, g).Some? ==> c.decode(c.encode(m, g).value) == Some((m, g))
  }

  /** The two slots; an absent blob is `None`. */
  type Flash = s: seq<Option<seq<byte>>> | |s| == 2 witness [None, None]

  function Decoded<M(==)>(c: Codec<M>, cell: Option<seq<byte>>): Option<(M, uint32)> {
    if cell.None? then None else c.decode(cell.value)
  }

  function GenerationIsNewer(candidate: uint32, current: uint32): bool {
    0 < (candidate - current) % 0x1_0000_0000 < 0x8000_0000
  }

  function NextGeneration(generation: uint32): uint32 {
    (generation + 1) % 0x1_0000_0000
  }

  /** The slot `load` chooses, -1 when neither decodes. */
  function LoadedSlot<M(==)>(c: Codec<M>, flash: Flash): (slot: int)
    ensures -1 <= slot <= 1
    ensures slot >= 0 ==> Decoded(c, flash[slot]).Some?
  {
    var a, b := Decoded(c, flash[0]), Decoded(c, flash[1]);
    if a.None? && b.None? then -1
    else if b.Some? && (a.None? || GenerationIsNewer(b.value.1, a.value.1)) then 1
    else 0
  }

  function LoadedValue<M(==)>(c: Codec<M>, flash: Flash): M {
    var slot := LoadedSlot(c, flash);
    if slot < 0 then c.defaultValue else Decoded(c, flash[slot]).value.0
  }

  datatype Ram<M(==)> = Ram(current: M, generation: uint32, activeSlot: int, loaded: bool)

  function LoadedRam<M(==)>(c: Codec<M>, flash: Flash): Ram<M> {
    var slot := LoadedSlot(c, flash);
    if slot < 0 then Ram(c.defaultValue, 0, -1, false)
    else Ram(Decoded(c, flash[slot]).value.0, Decoded(c, flash[slot]).value.1, slot, true)
  }

  /** What a write that fails, or loses power, does to its slot. */
  datatype Effect = Kept | Torn(cell: Option<seq<byte>>) | Written

  /** The environment of one save: the write's effect and whether the write and
      the read-back report success. */
  datatype Env = Env(effect: Effect, writeReported: bool, readReported: bool)

  /** A torn slot does not decode; the registry relies on a reported write being
      a real one. */
  predicate Plausible<M(==)>(variant: Variant, c: Codec<M>, env: Env) {
    && (env.effect.Torn? ==> Decoded(c, env.effect.cell).None?)
    && (variant.Registry? && env.writeReported ==> env.effect.Written?)
  }

  function CellAfter(before: Option<seq<byte>>, data: seq<byte>, effect: Effect): Option<seq<byte>> {
    match effect
    case Kept => before
    case Torn(cell) => cell
    case Written => Some(data)
  }

  function TargetSlot(activeSlot: int): (slot: nat)
    ensures slot < 2
  {
    if activeSlot == 0 then 1 else 0
  }

  datatype Saved<M(==)> = Saved(flash: Flash, ram: Ram<M>, ok: bool, verified: bool)

  predicate Skips<M(==)>(variant: Variant, ram: Ram<M>, value: M) {
    variant.Generic? && ram.loaded && ram.current == value
  }

  /** The read-back check on the cell the write left. */
  predicate Verifies<M(==)>(variant: Variant, c: Codec<M>, cell: Option<seq<byte>>, value: M, generation: uint32) {
    var read := Decoded(c, cell);
    read.Some? && read.value.1 == generation && (variant.Generic? ==> read.value.0 == value)
  }

  function Save<M(==)>(variant: Variant, c: Codec<M>, flash: Flash, ram: Ram<M>, value: M, env: Env): Saved<M> {
    if Skips(variant, ram, value) then Saved(flash, ram, true, false)
    else
      var next := NextGeneration(ram.generation);
      var data := c.encode(value, next);
      if data.None? then Saved(flash, ram, false, false)
      else
        var target := TargetSlot(ram.activeSlot);
        var after := flash[target := CellAfter(flash[target], data.value, env.effect)];
        if env.writeReported && env.readReported && Verifies(variant, c, after[target], value, next)
        then Saved(after, Ram(value, next, target, true), true, true)
        else Saved(after, ram, false, false)
  }

  // ---------------------------------------------------------------- the refinement

  /** A run of the store: saves, and boots that reload the RAM copy. A power cut
      inside a save is that save followed by a boot. */
  datatype Event<M(==)> = DoSave(value: M, env: Env) | Boot

  datatype State<M(==)> = State(flash: Flash, ram: Ram<M>)

  function Step<M(==)>(variant: Variant, c: Codec<M>, s: State<M>, e: Event<M>): State<M> {
    match e
    case DoSave(value, env) =>
      var saved := Save(variant, c, s.flash, s.ram, value, env);
      State(saved.flash, saved.ram)
    case Boot => State(s.flash, LoadedRam(c, s.flash))
  }

  function Run<M(==)>(variant: Variant, c: Codec<M>, flash: Flash, events: seq<Event<M>>): State<M> {
    if events == [] then State(flash, LoadedRam(c, flash))
    else Step(variant, c, Run(variant, c, flash, events[..|events| - 1]), events[|events| - 1])
  }

  /** The values `load` may return: that of the last save that wrote and verified,
      or of the last boot, and every value attempted since. */
  function Allowed<M(==)>(variant: Variant, c: Codec<M>, flash: Flash, events: seq<Event<M>>): set<M> {
    if events == [] then {LoadedValue(c, flash)}
    else
      var front, last := events[..|events| - 1], events[|events| - 1];
      var before := Allowed(variant, c, flash, front);
      var s := Run(variant, c, flash, front);
      if last.Boot? then {LoadedValue(c, s.flash)}
      else if Skips(variant, s.ram, last.value) then before
      else if Save(variant, c, s.flash, s.ram, last.value, last.env).verified then {last.value}
      else before + {last.value}
  }

  /** The RAM copy matches its slot; the other slot cannot surprise. */
  predicate Matches<M(==)>(c: Codec<M>, s: State<M>, allowed: set<M>) {
    && s.ram.current in allowed
    && LoadedValue(c, s.flash) in allowed
    && if s.ram.loaded
       then 0 <= s.ram.activeSlot <= 1 &&
            Decoded(c, s.flash[s.ram.activeSlot]) == Some((s.ram.current, s.ram.generation))
       else s.ram == Ram(c.defaultValue, 0, -1, false) && Decoded(c, s.flash[1]).None?
  }

  lemma SuccessorIsNewer(generation: uint32)
    ensures GenerationIsNewer(NextGeneration(generation), generation)
    ensures !GenerationIsNewer(generation, NextGeneration(generation))
  {
  }

  lemma SaveMatches<M(!new)>(
    variant: Variant, c: Codec<M>, s: State<M>, allowed: set<M>, value: M, env: Env)
    requires Faithful(c) && Plausible(variant, c, env) && Matches(c, s, allowed)
    requires !Skips(variant, s.ram, value)
    ensures
      var saved := Save(variant, c, s.flash, s.ram, value, env);
      && Matches(c, State(saved.flash, saved.ram), if saved.verified then {value} else allowed + {value})
      && (saved.verified ==> saved.ok && LoadedValue(c, saved.flash) == value)
  {
    var next := NextGeneration(s.ram.generation);
    SuccessorIsNewer(s.ram.generation);
    var data := c.encode(value, next);
    if data.Some? {
      var target := TargetSlot(s.ram.activeSlot);
      var cell := CellAfter(s.flash[target], data.value, env.effect);
      assert env.effect.Written? ==> Decoded(c, cell) == Some((value, next));
    }
  }

  /** The slot a store in step does not use: the other one, or the first. */
  predicate NotInUse<M(==)>(ram: Ram<M>, slot: nat) {
    slot < 2 && slot != ram.activeSlot && (ram.activeSlot == -1 ==> slot == 0)
  }

  /** When a save answers true, of either variant and into either slot: its value was
      in use already; or it encodes with the next generation, write and read report
      success, and the slot not in use then reads back with that generation and, in the
      generic store, that value. False leaves memory alone. */
  lemma SaveAnswers<M>(variant: Variant, c: Codec<M>, s: State<M>, value: M, env: Env, slot: nat)
    requires -1 <= s.ram.activeSlot <= 1 && NotInUse(s.ram, slot)
    ensures
      var saved := Save(variant, c, s.flash, s.ram, value, env);
      var next := (s.ram.generation + 1) % 0x1_0000_0000;
      var skipped := variant.Generic? && s.ram.loaded && s.ram.current == value;
      var data, read := c.encode(value, next), Decoded(c, saved.flash[slot]);
      && (saved.ok <==>
            skipped ||
            (data.Some? && env.writeReported && env.readReported &&
             read.Some? && read.value.1 == next && (variant.Generic? ==> read.value.0 == value)))
      && saved.flash[1 - slot] == s.flash[1 - slot]
      && (if skipped || data.None? || env.effect.Kept? then saved.flash[slot] == s.flash[slot]
          else saved.flash[slot] == if env.effect.Written? then data else env.effect.cell)
      && saved.ram == if saved.ok && !skipped then Ram(value, next, slot, true) else s.ram
  {
  }

  /** A value that encodes, written and read back without an error, is taken over,
      whatever memory and flash hold. */
  lemma WrittenIsOk<M(!new)>(variant: Variant, c: Codec<M>, s: State<M>, value: M)
    requires Faithful(c) && c.encode(value, NextGeneration(s.ram.generation)).Some?
    ensures
      var saved := Save(variant, c, s.flash, s.ram, value, Env(Written, true, true));
      saved.ok && saved.ram.current == value && saved.ram.loaded
  {
    var next := NextGeneration(s.ram.generation);
    assert c.decode(c.encode(value, next).value) == Some((value, next));
  }

  /** From a store in step, the next boot then loads it into the same memory. */
  lemma WrittenIsSaved<M(!new)>(variant: Variant, c: Codec<M>, s: State<M>, allowed: set<M>, value: M)
    requires Faithful(c) && Matches(c, s, allowed)
    requires c.encode(value, NextGeneration(s.ram.generation)).Some?
    ensures
      var saved := Save(variant, c, s.flash, s.ram, value, Env(Written, true, true));
      && saved.ok && saved.ram.current == value && saved.ram.loaded
      && (!Skips(variant, s.ram, value) ==>
            LoadedValue(c, saved.flash) == value && LoadedRam(c, saved.flash) == saved.ram)
  {
    var next := NextGeneration(s.ram.generation);
    SuccessorIsNewer(s.ram.generation);
    assert c.decode(c.encode(value, next).value) == Some((value, next));
  }

  /** Over any run, from any flash contents whatever their generations: `load`
      returns the last value that was written and verified, or one attempted
      since. */
  lemma {:induction false} StoreIsAtomic<M(!new)>(
    variant: Variant, c: Codec<M>, flash: Flash, events: seq<Event<M>>)
    requires Faithful(c)
    requires forall e :: e in events && e.DoSave? ==> Plausible(variant, c, e.env)
    ensures LoadedValue(c, Run(variant, c, flash, events).flash) in Allowed(variant, c, flash, events)
    ensures Matches(c, Run(variant, c, flash, events), Allowed(variant, c, flash, events))
  {
    if events != [] {
      hide Save, LoadedSlot;
      var front, last := events[..|events| - 1], events[|events| - 1];
      assert last in events;
      StoreIsAtomic(variant, c, flash, front);
      var s := Run(variant, c, flash, front);
      if last.Boot? {
        BootMatches(c, s.flash);
      } else if Skips(variant, s.ram, last.value) {
        SkippedSave(variant, c, s, last.value, last.env);
      } else {
        SaveMatches(variant, c, s, Allowed(variant, c, flash, front), last.value, last.env);
      }
    } else {
      BootMatches(c, flash);
    }
  }

  lemma BootMatches<M>(c: Codec<M>, flash: Flash)
    ensures Matches(c, State(flash, LoadedRam(c, flash)), {LoadedValue(c, flash)})
  {
  }

  /** A boot settles on a value that was allowed before it, so every allowed value
      is the last verified one or was attempted since. */
  function SinceVerified<M(==)>(variant: Variant, c: Codec<M>, flash: Flash, events: seq<Event<M>>): set<M> {
    if events == [] then {LoadedValue(c, flash)}
    else
      var front, last := events[..|events| - 1], events[|events| - 1];
      var s := Run(variant, c, flash, front);
      if last.Boot? || Skips(variant, s.ram, last.value) then SinceVerified(variant, c, flash, front)
      else if Save(variant, c, s.flash, s.ram, last.value, last.env).verified then {last.value}
      else SinceVerified(variant, c, flash, front) + {last.value}
  }

  lemma {:induction false} AllowedSinceVerified<M(!new)>(
    variant: Variant, c: Codec<M>, flash: Flash, events: seq<Event<M>>)
    requires Faithful(c)
    requires forall e :: e in events && e.DoSave? ==> Plausible(variant, c, e.env)
    ensures Allowed(variant, c, flash, events) <= SinceVerified(variant, c, flash, events)
  {
    if events != [] {
      hide Save, Matches, Skips;
      var front := events[..|events| - 1];
      AllowedSinceVerified(variant, c, flash, front);
      StoreIsAtomic(variant, c, flash, front);
    }
  }

  lemma SkippedSave<M>(variant: Variant, c: Codec<M>, s: State<M>, value: M, env: Env)
    requires Skips(variant, s.ram, value)
    ensures Save(variant, c, s.flash, s.ram, value, env) == Saved(s.flash, s.ram, true, false)
  {
  }

  /** Whether, since the last boot or verified save, the last attempt that reached its
      slot left a whole record there although it reported failure. */
  predicate Overtaken<M(==)>(c: Codec<M>, flash: Flash, events: seq<Event<M>>) {
    if events == [] then false
    else
      var front, last := events[..|events| - 1], events[|events| - 1];
      var s := Run(Generic, c, flash, front);
      if last.Boot? then false
      else if Skips(Generic, s.ram, last.value) then Overtaken(c, flash, front)
      else if Save(Generic, c, s.flash, s.ram, last.value, last.env).verified then false
      else if c.encode(last.value, NextGeneration(s.ram.generation)).None? || last.env.effect.Kept?
      then Overtaken(c, flash, front)
      else last.env.effect.Written?
  }

  /** Whether a save has returned false since the last boot or verified save. */
  predicate FailedSince<M(==)>(variant: Variant, c: Codec<M>, flash: Flash, events: seq<Event<M>>) {
    if events == [] then false
    else
      var front, last := events[..|events| - 1], events[|events| - 1];
      var s := Run(variant, c, flash, front);
      if last.Boot? then false
      else
        var saved := Save(variant, c, s.flash, s.ram, last.value, last.env);
        !saved.verified && (!saved.ok || FailedSince(variant, c, flash, front))
  }

  /** What the slot not in use holds: after an overtaking attempt a newer record of
      another value, otherwise none that would win. */
  predicate OtherSlot<M(==)>(c: Codec<M>, s: State<M>, overtaken: bool) {
    s.ram.loaded ==>
      && 0 <= s.ram.activeSlot <= 1
      && if !overtaken then LoadedSlot(c, s.flash) == s.ram.activeSlot
         else
           var other := Decoded(c, s.flash[1 - s.ram.activeSlot]);
           other.Some? && other.value.1 == NextGeneration(s.ram.generation) && other.value.0 != s.ram.current
  }

  lemma SaveOvertakes<M(!new)>(c: Codec<M>, s: State<M>, allowed: set<M>, overtaken: bool, value: M, env: Env)
    requires Faithful(c) && Plausible(Generic, c, env) && Matches(c, s, allowed) && OtherSlot(c, s, overtaken)
    requires !Skips(Generic, s.ram, value)
    ensures
      var saved := Save(Generic, c, s.flash, s.ram, value, env);
      var reached := c.encode(value, NextGeneration(s.ram.generation)).Some? && !env.effect.Kept?;
      OtherSlot(
        c, State(saved.flash, saved.ram),
        if saved.verified then false else if reached then env.effect.Written? else overtaken)
  {
    SuccessorIsNewer(s.ram.generation);
    var next := NextGeneration(s.ram.generation);
    var data := c.encode(value, next);
    assert data.Some? ==> c.decode(data.value) == Some((value, next));
  }

  lemma {:induction false} OtherSlotAfter<M(!new)>(c: Codec<M>, flash: Flash, events: seq<Event<M>>)
    requires Faithful(c)
    requires forall e :: e in events && e.DoSave? ==> Plausible(Generic, c, e.env)
    ensures OtherSlot(c, Run(Generic, c, flash, events), Overtaken(c, flash, events))
  {
    if events != [] {
      var front, last := events[..|events| - 1], events[|events| - 1];
      assert last in events;
      OtherSlotAfter(c, flash, front);
      StoreIsAtomic(Generic, c, flash, front);
      hide Save, Matches, OtherSlot, LoadedSlot;
      var s := Run(Generic, c, flash, front);
      if last.Boot? {
        BootHasNoOther(c, s.flash);
      } else if Skips(Generic, s.ram, last.value) {
        SkippedSave(Generic, c, s, last.value, last.env);
      } else {
        SaveOvertakes(c, s, Allowed(Generic, c, flash, front), Overtaken(c, flash, front), last.value, last.env);
      }
    } else {
      BootHasNoOther(c, flash);
    }
  }

  lemma BootHasNoOther<M>(c: Codec<M>, flash: Flash)
    ensures OtherSlot(c, State(flash, LoadedRam(c, flash)), false)
  {
  }

  /** `save` also returns true when it skips an equal value, and then `load` may return
      another one: exactly when, since the last boot or verified save, the last attempt
      that reached its slot left a whole record there. */
  lemma SkippedSaveIsDurable<M(!new)>(c: Codec<M>, flash: Flash, events: seq<Event<M>>, value: M, env: Env)
    requires Faithful(c)
    requires forall e :: e in events && e.DoSave? ==> Plausible(Generic, c, e.env)
    requires Skips(Generic, Run(Generic, c, flash, events).ram, value)
    ensures
      var s := Run(Generic, c, flash, events);
      var saved := Save(Generic, c, s.flash, s.ram, value, env);
      && saved.ok
      && (LoadedValue(c, saved.flash) == value <==> !Overtaken(c, flash, events))
  {
    hide Overtaken, Run, Allowed, Matches, OtherSlot, Save, LoadedValue, Skips;
    StoreIsAtomic(Generic, c, flash, events);
    OtherSlotAfter(c, flash, events);
    SkippedHere(c, Run(Generic, c, flash, events), Allowed(Generic, c, flash, events), Overtaken(c, flash, events), value, env);
  }

  lemma SkippedHere<M(!new)>(c: Codec<M>, s: State<M>, allowed: set<M>, overtaken: bool, value: M, env: Env)
    requires Matches(c, s, allowed) && OtherSlot(c, s, overtaken) && Skips(Generic, s.ram, value)
    ensures
      var saved := Save(Generic, c, s.flash, s.ram, value, env);
      saved.ok && (LoadedValue(c, saved.flash) == value <==> !overtaken)
  {
    SuccessorIsNewer(s.ram.generation);
  }

  /** Over any run: a value that encodes, written and read back without an error, is
      taken over, and the next boot loads it unless it was in memory already. */
  lemma WrittenIsSavedAfterRun<M(!new)>(
    variant: Variant, c: Codec<M>, flash: Flash, events: seq<Event<M>>, value: M)
    requires Faithful(c)
    requires forall e :: e in events && e.DoSave? ==> Plausible(variant, c, e.env)
    requires c.encode(value, NextGeneration(Run(variant, c, flash, events).ram.generation)).Some?
    ensures
      var s := Run(variant, c, flash, events);
      var saved := Save(variant, c, s.flash, s.ram, value, Env(Written, true, true));
      && saved.ok && saved.ram.current == value
      && (!Skips(variant, s.ram, value) ==> LoadedValue(c, saved.flash) == value && LoadedRam(c, saved.flash) == saved.ram)
  {
    hide Run, Allowed, Matches, Save, LoadedValue, LoadedRam, Skips;
    StoreIsAtomic(variant, c, flash, events);
    WrittenIsSaved(variant, c, Run(variant, c, flash, events), Allowed(variant, c, flash, events), value);
  }

  lemma {:induction false} OvertakenOnlyAfterFailure<M(!new)>(c: Codec<M>, flash: Flash, events: seq<Event<M>>)
    ensures Overtaken(c, flash, events) ==> FailedSince(Generic, c, flash, events)
  {
    if events != [] {
      OvertakenOnlyAfterFailure(c, flash, events[..|events| - 1]);
    }
  }

  /** What a caller can check: while no save has returned false since the last boot or
      verified save, every save that returns true is durable, skipped or not. */
  lemma DurableUntilFailure<M(!new)>(c: Codec<M>, flash: Flash, events: seq<Event<M>>, value: M, env: Env)
    requires Faithful(c) && Plausible(Generic, c, env)
    requires forall e :: e in events && e.DoSave? ==> Plausible(Generic, c, e.env)
    requires !FailedSince(Generic, c, flash, events)
    requires
      var s := Run(Generic, c, flash, events);
      Save(Generic, c, s.flash, s.ram, value, env).ok
    ensures
      var s := Run(Generic, c, flash, events);
      LoadedValue(c, Save(Generic, c, s.flash, s.ram, value, env).flash) == value
  {
    var s := Run(Generic, c, flash, events);
    OvertakenOnlyAfterFailure(c, flash, events);
    StoreIsAtomic(Generic, c, flash, events);
    hide Run, FailedSince, LoadedValue, Allowed, Overtaken, Matches;
    if Skips(Generic, s.ram, value) {
      SkippedSaveIsDurable(c, flash, events, value, env);
    } else {
      SaveMatches(Generic, c, s, Allowed(Generic, c, flash, events), value, env);
    }
  }

  /** The shortest such run: an attempt whose read-back fails, then the old value again. */
  lemma SkippedSaveCounterexample<M(!new)>(c: Codec<M>, flash: Flash, value: M) returns (events: seq<Event<M>>)
    requires Faithful(c)
    requires LoadedSlot(c, flash) >= 0 && value != LoadedValue(c, flash)
    requires c.encode(value, NextGeneration(LoadedRam(c, flash).generation)).Some?
    ensures |events| == 2 && events[1].DoSave? && events[1].value == LoadedValue(c, flash)
    ensures
      var s := Run(Generic, c, flash, events[..1]);
      Save(Generic, c, s.flash, s.ram, events[1].value, events[1].env).ok
    ensures LoadedValue(c, Run(Generic, c, flash, events).flash) == value
  {
    var failed := DoSave(value, Env(Written, true, false));
    events := [failed, DoSave(LoadedValue(c, flash), Env(Written, true, true))];
    assert events[..1] == [failed] && [failed][..0] == [];
    var start := State(flash, LoadedRam(c, flash));
    assert Run(Generic, c, flash, []) == start;
    assert Run(Generic, c, flash, [failed]) == Step(Generic, c, start, failed);
    SuccessorIsNewer(start.ram.generation);
  }

  // ---------------------------------------------------------------- the registry's read-back

  /** All that is asked of the registry's flash here; `Plausible` moreover rules out a
      write that is reported and did not happen. */
  predicate TornIsUnreadable<M(==)>(c: Codec<M>, env: Env) {
    env.effect.Torn? ==> Decoded(c, env.effect.cell).None?
  }

  /** The registry's read-back checks the generation alone: if a reported write can
      leave the slot as it was, which `Plausible` excludes, a save that reports success
      may have stored the value of an earlier failed attempt instead. */
  lemma RegistryTrustsGeneration<M(!new)>(c: Codec<M>, s: State<M>, earlier: M, value: M)
    requires Faithful(c) && s.ram == LoadedRam(c, s.flash) && earlier != value
    requires c.encode(earlier, NextGeneration(s.ram.generation)).Some?
    requires c.encode(value, NextGeneration(s.ram.generation)).Some?
    ensures
      var failed := Save(Registry, c, s.flash, s.ram, earlier, Env(Written, false, false));
      var saved := Save(Registry, c, failed.flash, failed.ram, value, Env(Kept, true, true));
      && !failed.ok && saved.ok && LoadedValue(c, saved.flash) == earlier
      && !Plausible(Registry, c, Env(Kept, true, true)) && TornIsUnreadable(c, Env(Kept, true, true))
  {
    SuccessorIsNewer(s.ram.generation);
  }

  /** The RAM copy has the generation of its slot, whatever the value there. */
  predicate GenerationMatches<M(==)>(c: Codec<M>, s: State<M>) {
    if s.ram.loaded
    then 0 <= s.ram.activeSlot <= 1 && Decoded(c, s.flash[s.ram.activeSlot]).Some? &&
         Decoded(c, s.flash[s.ram.activeSlot]).value.1 == s.ram.generation
    else s.ram.activeSlot == -1 && s.ram.generation == 0 && Decoded(c, s.flash[1]).None?
  }

  /** A registry save that reports success is durable exactly if the write happened, or
      did nothing and the slot held this value with this generation before. */
  lemma RegistrySaveIsDurable<M(!new)>(c: Codec<M>, s: State<M>, value: M, env: Env)
    requires Faithful(c) && GenerationMatches(c, s) && TornIsUnreadable(c, env)
    requires Save(Registry, c, s.flash, s.ram, value, env).ok
    ensures
      var target, next := TargetSlot(s.ram.activeSlot), NextGeneration(s.ram.generation);
      LoadedValue(c, Save(Registry, c, s.flash, s.ram, value, env).flash) == value <==>
        env.effect.Written? || (env.effect.Kept? && Decoded(c, s.flash[target]) == Some((value, next)))
  {
    SuccessorIsNewer(s.ram.generation);
    var next := NextGeneration(s.ram.generation);
    var data := c.encode(value, next);
    assert env.effect.Written? ==> c.decode(data.value) == Some((value, next));
  }

  /** The slot a save will write does not hold the generation it will write. */
  predicate TargetIsOther<M(==)>(c: Codec<M>, s: State<M>) {
    var old_ := Decoded(c, s.flash[TargetSlot(s.ram.activeSlot)]);
    old_.Some? ==> old_.value.1 != NextGeneration(s.ram.generation)
  }

  lemma {:induction false} RegistryGenerations<M(!new)>(c: Codec<M>, flash: Flash, events: seq<Event<M>>)
    requires Faithful(c) && forall e :: e in events && e.DoSave? ==> TornIsUnreadable(c, e.env)
    ensures GenerationMatches(c, Run(Registry, c, flash, events))
    ensures !FailedSince(Registry, c, flash, events) ==> TargetIsOther(c, Run(Registry, c, flash, events))
  {
    if events == [] {
      BootGenerations(c, flash);
    } else {
      var front, last := events[..|events| - 1], events[|events| - 1];
      assert last in events;
      RegistryGenerations(c, flash, front);
      hide GenerationMatches, TargetIsOther, Save, LoadedSlot;
      var s := Run(Registry, c, flash, front);
      if last.Boot? {
        BootGenerations(c, s.flash);
      } else {
        SaveGenerations(c, s, last.value, last.env);
      }
    }
  }

  lemma BootGenerations<M>(c: Codec<M>, flash: Flash)
    ensures GenerationMatches(c, State(flash, LoadedRam(c, flash))) && TargetIsOther(c, State(flash, LoadedRam(c, flash)))
  {
    if Decoded(c, flash[0]).Some? {
      SuccessorIsNewer(Decoded(c, flash[0]).value.1);
    }
    if Decoded(c, flash[1]).Some? {
      SuccessorIsNewer(Decoded(c, flash[1]).value.1);
    }
  }

  lemma SaveGenerations<M(!new)>(c: Codec<M>, s: State<M>, value: M, env: Env)
    requires Faithful(c) && GenerationMatches(c, s) && TornIsUnreadable(c, env)
    ensures
      var saved := Save(Registry, c, s.flash, s.ram, value, env);
      && saved.ok == saved.verified && GenerationMatches(c, State(saved.flash, saved.ram))
      && (saved.ok ==> TargetIsOther(c, State(saved.flash, saved.ram)))
  {
    SuccessorIsNewer(s.ram.generation);
  }

  /** What a caller can check: while no save has returned false since the last boot or
      success, a registry save that returns true is durable, even if a write may be
      reported that did not happen. */
  lemma RegistryDurableUntilFailure<M(!new)>(c: Codec<M>, flash: Flash, events: seq<Event<M>>, value: M, env: Env)
    requires Faithful(c) && forall e :: e in events && e.DoSave? ==> TornIsUnreadable(c, e.env)
    requires TornIsUnreadable(c, env) && !FailedSince(Registry, c, flash, events)
    requires
      var s := Run(Registry, c, flash, events);
      Save(Registry, c, s.flash, s.ram, value, env).ok
    ensures
      var s := Run(Registry, c, flash, events);
      LoadedValue(c, Save(Registry, c, s.flash, s.ram, value, env).flash) == value
  {
    var s := Run(Registry, c, flash, events);
    RegistryGenerations(c, flash, events);
    RegistrySaveIsDurable(c, s, value, env);
    hide Run, FailedSince, LoadedValue;
  }

  // ---------------------------------------------------------------- the class

  class SlotStorage {
    var slots: Flash

    constructor (slots: Flash)
      ensures this.slots == slots
    {
      this.slots := slots;
    }

    method Exists(slot: nat) returns (exists_: bool)
      requires slot < 2
      ensures exists_ == slots[slot].Some?
    {
      exists_ := slots[slot].Some?;
    }

    /** `readable` is the environment's choice; a failed read looks like no blob. */
    method Read(slot: nat, readable: bool) returns (cell: Option<seq<byte>>)
      requires slot < 2
      ensures cell == if readable then slots[slot] else None
    {
      cell := if readable then slots[slot] else None;
    }

    method Write(slot: nat, data: seq<byte>, env: Env) returns (reported: bool)
      requires slot < 2
      modifies this
      ensures slots == old(slots)[slot := CellAfter(old(slots)[slot], data, env.effect)]
      ensures reported == env.writeReported
    {
      slots := slots[slot := CellAfter(slots[slot], data, env.effect)];
      reported := env.writeReported;
    }
  }

  /** What a load sees of the slots. */
  function Visible(flash: Flash, readable: (bool, bool)): Flash {
    [if readable.0 then flash[0] else None, if readable.1 then flash[1] else None]
  }

  /** A boot that can read the slot it should choose loads what it should; one that
      cannot loads the value of the other slot, or none. */
  lemma LoadsWhatIsReadable<M>(c: Codec<M>, flash: Flash, readable: (bool, bool))
    ensures Visible(flash, (true, true)) == flash
    ensures
      var slot, seen := LoadedSlot(c, flash), Visible(flash, readable);
      slot >= 0 ==>
        if (if slot == 0 then readable.0 else readable.1)
        then LoadedSlot(c, seen) == slot && LoadedRam(c, seen) == LoadedRam(c, flash)
        else LoadedSlot(c, seen) != slot
  {
    assert Visible(flash, (true, true)) == flash;
  }

  datatype LoadStatus = Loaded | Empty | Corrupt

  class Store<M(==)> {
    const variant: Variant
    const codec: Codec<M>
    const storage: SlotStorage
    var current: M
    var generation: uint32
    var activeSlot: int
    var loaded: bool

    ghost function Memory(): Ram<M>
      reads this
    {
      Ram(current, generation, activeSlot, loaded)
    }

    constructor (variant: Variant, codec: Codec<M>, storage: SlotStorage)
      ensures this.variant == variant && this.codec == codec && this.storage == storage
      ensures Memory() == Ram(codec.defaultValue, 0, -1, false)
    {
      this.variant, this.codec, this.storage := variant, codec, storage;
      current, generation, activeSlot, loaded := codec.defaultValue, 0, -1, false;
    }

    /** `readable` says of each slot whether its read succeeds. */
    method Load(readable: (bool, bool)) returns (status: LoadStatus, value: M)
      modifies this
      ensures Memory() == LoadedRam(codec, Visible(storage.slots, readable))
      ensures value == LoadedValue(codec, Visible(storage.slots, readable))
      ensures status == if LoadedSlot(codec, Visible(storage.slots, readable)) >= 0 then Loaded
                        else if variant.Registry? || storage.slots == [None, None] then Empty else Corrupt
    {
      ghost var seen := Visible(storage.slots, readable);
      var newest: Option<(M, uint32)> := None;
      var newestSlot := -1;
      var anySlotExists := false;
      for slot := 0 to 2
        invariant slot == 0 ==> newestSlot == -1
        invariant slot == 1 ==> newestSlot == if Decoded(codec, seen[0]).Some? then 0 else -1
        invariant slot == 2 ==> newestSlot == LoadedSlot(codec, seen)
        invariant newestSlot >= 0 ==> newestSlot < 2 && newest == Decoded(codec, seen[newestSlot])
        invariant newestSlot >= 0 <==> newest.Some?
        invariant anySlotExists <==> exists i :: 0 <= i < slot && storage.slots[i].Some?
      {
        var found := storage.Exists(slot);
        anySlotExists := anySlotExists || found;
        var cell := storage.Read(slot, if slot == 0 then readable.0 else readable.1);
        var candidate := Decoded(codec, cell);
        if candidate.Some? && (newestSlot < 0 || GenerationIsNewer(candidate.value.1, newest.value.1)) {
          newest, newestSlot := candidate, slot;
        }
      }
      if newestSlot < 0 {
        current, generation, activeSlot, loaded := codec.defaultValue, 0, -1, false;
        assert storage.slots == [None, None] <==> !anySlotExists;
        return if variant.Generic? && anySlotExists then Corrupt else Empty, current;
      }
      current, generation, activeSlot, loaded := newest.value.0, newest.value.1, newestSlot, true;
      return Loaded, current;
    }

    /** `env` is the environment's choice, not an argument of the code. */
    method DoSave(value: M, env: Env) returns (ok: bool)
      modifies this, storage
      ensures
        var saved := Save(variant, codec, old(storage.slots), old(Memory()), value, env);
        storage.slots == saved.flash && Memory() == saved.ram && ok == saved.ok
      ensures
        var next := (old(generation) + 1) % 0x1_0000_0000;
        var data := codec.encode(value, next);
        data.Some? && codec.decode(data.value) == Some((value, next)) && env == Env(Written, true, true) ==>
          ok && current == value && loaded
    {
      if variant.Generic? && loaded && current == value {
        return true;
      }
      var nextGeneration := (generation + 1) % 0x1_0000_0000;
      var data := codec.encode(value, nextGeneration);
      if data.None? {
        return false;
      }
      var targetSlot := if activeSlot == 0 then 1 else 0;
      var reported := storage.Write(targetSlot, data.value, env);
      if !reported {
        return false;
      }
      var cell := storage.Read(targetSlot, env.readReported);
      var verified := Decoded(codec, cell);
      if verified.None? || verified.value.1 != nextGeneration || (variant.Generic? && verified.value.0 != value) {
        return false;
      }
      current, generation, activeSlot, loaded := value, nextGeneration, targetSlot, true;
      ok := true;
    }
  }
}
