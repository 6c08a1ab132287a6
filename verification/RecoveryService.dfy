/** The gateway code that performs the two operations: the recovery service with
    its in-memory state, and the restore of a backup. */
module RecoveryService {
  import opened Bytes
  import opened Options
  import opened Recovery

  /** The key-value flash, each operation with its commit and read-back. What the
      environment decides are inputs: `remaining` operations succeed, the next one fails
      and leaves `ruin`, if that is something it may leave; `opens` is whether the
      control namespace can be opened. */
  class Nvs {
    const ruin: Flash
    const opens: bool
    var flash: Flash
    var remaining: nat

    constructor (flash: Flash, remaining: nat, ruin: Flash, opens: bool)
      ensures this.flash == flash && this.remaining == remaining && this.ruin == ruin && this.opens == opens
    {
      this.flash, this.remaining, this.ruin, this.opens := flash, remaining, ruin, opens;
    }

    method Do(op: Op) returns (ok: bool)
      modifies this
      ensures ok <==> old(remaining) > 0
      ensures ok ==> flash == Perform(old(flash), op) && remaining == old(remaining) - 1
      ensures !ok ==> Torn(old(flash), op, flash) && remaining == 0
      ensures !ok && Torn(old(flash), op, ruin) ==> flash == ruin
    {
      ok := remaining > 0;
      if ok {
        flash, remaining := Perform(flash, op), remaining - 1;
      } else if Torn(flash, op, ruin) {
        flash := ruin;
      } else {
        TornNothing(flash, op);
      }
    }

    method ReadMarker() returns (readable: bool, marker: Marker)
      ensures readable == opens && marker == if opens then flash.marker else Unreadable
    {
      readable, marker := opens, if opens then flash.marker else Unreadable;
    }
  }

  lemma TornNothing(f: Flash, op: Op)
    ensures Torn(f, op, f)
  {
    if op.Erase? || op.WriteBlob? {
      assert f == f.(stores := f.stores.Put(op.store, f.stores.Get(op.store)));
    }
  }

  /** `flash` is where `ops` stand after `done` of them, or where they stopped. */
  ghost predicate At(start: Flash, ops: seq<Op>, done: nat, ok: bool, flash: Flash) {
    if ok then done <= |ops| && flash == PerformAll(start, ops[..done])
    else done < |ops| && Stopped(start, ops, done, flash)
  }

  /** After `count` more operations all is well exactly if it was and that many succeed. */
  ghost predicate Lasts(ok: bool, count: nat, before: nat, still: bool, after: nat) {
    && (still <==> ok && before >= count)
    && (still ==> after == before - count)
    && (ok && !still ==> after == 0)
    && (!ok ==> after == before)
  }

  ghost function EndOf(ok: bool, done: nat, flash: Flash): End {
    if ok then Completed else Failed(done, flash)
  }

  lemma Begun(start: Flash, ops: seq<Op>)
    ensures At(start, ops, 0, true, start)
  {
    assert ops[..0] == [];
    PerformNothing(start);
  }

  lemma Finished(start: Flash, ops: seq<Op>, done: nat, ok: bool, flash: Flash)
    requires At(start, ops, done, ok, flash) && (ok ==> done == |ops|)
    ensures PossibleEnd(start, ops, EndOf(ok, done, flash))
    ensures FlashAt(start, ops, EndOf(ok, done, flash)) == flash
  {
    assert ops[..|ops|] == ops;
  }

  lemma RestoreLayout(e: Encoded)
    ensures
      var ops := RestoreOps(e);
      && |ops| == 12 && ops[0] == WriteMarker(RESTORE_INCOMPLETE)
      && ops[1..1 + |ERASE_ALL|] == ERASE_ALL
      && ops[6] == WriteBlob(NodeReg, "registry_a", e.registry)
      && ops[7] == WriteBlob(GatewayConfig, "config_a", e.settings)
      && ops[8] == WriteBlob(GatewaySecrets, "secret_a", e.secrets)
      && ops[9] == WriteBlob(GatewaySecrets, "secret_b", e.secrets)
      && ops[10] == WriteBlob(GatewayAuth, "auth_a", e.auth)
      && ops[11] == WriteMarker(IDLE)
  {
  }

  class Service {
    const nvs: Nvs
    var state: byte

    constructor (nvs: Nvs)
      ensures this.nvs == nvs && state == STORAGE_UNAVAILABLE
    {
      this.nvs, state := nvs, STORAGE_UNAVAILABLE;
    }

    predicate IsBlocked()
      reads this
    {
      state != IDLE
    }

    /** One operation of a list, unless an earlier one failed. */
    method Continue(ok: bool, op: Op, ghost start: Flash, ghost ops: seq<Op>, ghost done: nat)
      returns (still: bool, ghost next: nat)
      requires At(start, ops, done, ok, nvs.flash)
      requires ok ==> done < |ops| && ops[done] == op
      modifies nvs
      ensures At(start, ops, next, still, nvs.flash)
      ensures still ==> ok && next == done + 1
      ensures Lasts(ok, 1, old(nvs.remaining), still, nvs.remaining)
    {
      still, next := ok, done;
      if ok {
        PerformNext(start, ops, done);
        still := nvs.Do(op);
        next := if still then done + 1 else done;
      }
    }

    method EraseStores(ok: bool, ghost start: Flash, ghost ops: seq<Op>, ghost done: nat)
      returns (still: bool, ghost next: nat)
      requires At(start, ops, done, ok, nvs.flash)
      requires ok ==> done + |ERASE_ALL| <= |ops| && ops[done..done + |ERASE_ALL|] == ERASE_ALL
      modifies nvs
      ensures At(start, ops, next, still, nvs.flash)
      ensures still ==> ok && next == done + |ERASE_ALL|
      ensures Lasts(ok, |ERASE_ALL|, old(nvs.remaining), still, nvs.remaining)
    {
      still, next := ok, done;
      for index := 0 to |ERASE_ALL|
        invariant At(start, ops, next, still, nvs.flash)
        invariant still ==> ok && next == done + index
        invariant Lasts(ok, index, old(nvs.remaining), still, nvs.remaining)
      {
        if still {
          assert ops[done..done + |ERASE_ALL|][index] == ops[done + index];
        }
        still, next := Continue(still, ERASE_ALL[index], start, ops, next);
      }
    }

    /** Boot, before any other service. */
    method Begin(ghost legal: set<Contents>) returns (ghost e: Event)
      modifies this, nvs
      ensures e.Boot? && Enabled(System(old(nvs.flash), Off, legal), e)
      ensures Next(System(old(nvs.flash), Off, legal), e) == System(nvs.flash, Up(state), legal)
      ensures state == IDLE <==>
                && nvs.opens
                && (old(nvs.flash.marker) in {Absent, Value(IDLE)} ||
                    (old(nvs.flash.marker) == Value(RESET_REQUESTED) && old(nvs.remaining) >= 6))
      ensures nvs.opens && old(nvs.flash.marker) == Value(RESET_REQUESTED) ==>
                && (state == IDLE ==> nvs.flash == Flash(EMPTY, Value(IDLE)))
                && (state != IDLE ==> state == RESET_REQUESTED && nvs.remaining == 0)
      ensures nvs.opens && old(nvs.flash.marker) == Value(RESTORE_INCOMPLETE) ==> state == RESTORE_INCOMPLETE
      ensures !nvs.opens || old(nvs.flash.marker) != Value(RESET_REQUESTED) ==> nvs.flash == old(nvs.flash)
    {
      state := STORAGE_UNAVAILABLE;
      ghost var start := nvs.flash;
      var opens, marker := nvs.ReadMarker();
      e := Boot(opens, Completed);
      if !opens || marker == Unreadable {
        return;
      }
      var value := if marker == Absent then IDLE else marker.value;
      if value == RESET_REQUESTED {
        PerformNothing(start);
        assert RESET_OPS[..0] == [] && RESET_OPS[0..|ERASE_ALL|] == ERASE_ALL;
        var erased, done := EraseStores(true, start, RESET_OPS, 0);
        erased, done := Continue(erased, WriteMarker(IDLE), start, RESET_OPS, done);
        assert RESET_OPS[..|RESET_OPS|] == RESET_OPS;
        ResetLeavesNothing(start);
        state := if erased then IDLE else RESET_REQUESTED;
        e := Boot(true, EndOf(erased, done, nvs.flash));
      } else if value == RESTORE_INCOMPLETE {
        state := value;
      } else if value == IDLE {
        state := value;
      }
    }

    /** Records the request, unless a backup or a write to a store is `busy`; on success
        the gateway restarts. */
    method RequestFactoryReset(busy: bool, ghost legal: set<Contents>) returns (ok: bool, ghost e: Event)
      modifies this, nvs
      ensures busy ==> !ok && nvs.flash == old(nvs.flash) && state == old(state)
      ensures !busy ==>
                var before := System(old(nvs.flash), Up(old(state)), legal);
                && e.RequestReset? && Enabled(before, e)
                && Next(before, e).flash == nvs.flash
                && Next(before, e).power == (if ok then Off else Up(state))
                && Blocked(Up(state))
      ensures !busy ==> (ok <==> old(nvs.remaining) > 0)
      ensures !busy && ok ==> nvs.flash == old(nvs.flash).(marker := Value(RESET_REQUESTED)) && state == RESET_REQUESTED
      ensures !busy && !ok ==> nvs.flash.stores == old(nvs.flash.stores) && state == STORAGE_UNAVAILABLE
    {
      e := LosePower;
      if busy {
        return false, e;
      }
      var ops := [WriteMarker(RESET_REQUESTED)];
      PerformNothing(nvs.flash);
      assert ops[..0] == [] && ops[..1] == ops;
      ghost var start := nvs.flash;
      ghost var done;
      ok, done := Continue(true, WriteMarker(RESET_REQUESTED), start, ops, 0);
      state := if ok then RESET_REQUESTED else STORAGE_UNAVAILABLE;
      e := RequestReset(EndOf(ok, done, nvs.flash));
    }

    /** Restores a clean, unblocked gateway. `encoded` is absent when a part of the
        snapshot does not encode; then nothing is written. */
    method RestoreBackup(encoded: Option<Encoded>, clean: bool, ghost legal: set<Contents>)
      returns (ok: bool, ghost e: Event)
      modifies this, nvs
      ensures encoded.None? || !clean || Blocked(Up(old(state))) ==>
                !ok && nvs.flash == old(nvs.flash) && state == old(state)
      ensures encoded.Some? && clean && !Blocked(Up(old(state))) ==>
                && e.Restore? && e.encoded == encoded.value
                && Enabled(System(old(nvs.flash), Up(old(state)), legal), e)
                && Next(System(old(nvs.flash), Up(old(state)), legal), e) ==
                   System(nvs.flash, Up(state), {old(nvs.flash).stores, ImageOf(encoded.value)})
                && ok == (state == RESTARTING)
      ensures encoded.Some? && clean && !Blocked(Up(old(state))) ==>
                && (ok <==> old(nvs.remaining) >= 12)
                && (ok ==> nvs.flash == Flash(ImageOf(encoded.value), Value(IDLE)))
                && (!ok ==> nvs.remaining == 0 && state == RESTORE_INCOMPLETE)
    {
      hide Perform, PerformAll, Stopped, At, RestoreOps, ImageOf;
      e := LosePower;
      if IsBlocked() || !clean || encoded.None? {
        return false, e;
      }
      var bytes := encoded.value;
      ghost var ops := RestoreOps(bytes);
      ghost var start := nvs.flash;
      ghost var done := 0;
      RestoreLayout(bytes);
      Begun(start, ops);
      state := RESTORE_INCOMPLETE;
      ok, done := Continue(true, WriteMarker(RESTORE_INCOMPLETE), start, ops, done);
      ok, done := EraseStores(ok, start, ops, done);
      ok, done := Continue(ok, WriteBlob(NodeReg, "registry_a", bytes.registry), start, ops, done);
      ok, done := Continue(ok, WriteBlob(GatewayConfig, "config_a", bytes.settings), start, ops, done);
      ok, done := Continue(ok, WriteBlob(GatewaySecrets, "secret_a", bytes.secrets), start, ops, done);
      ok, done := Continue(ok, WriteBlob(GatewaySecrets, "secret_b", bytes.secrets), start, ops, done);
      ok, done := Continue(ok, WriteBlob(GatewayAuth, "auth_a", bytes.auth), start, ops, done);
      ok, done := Continue(ok, WriteMarker(IDLE), start, ops, done);
      Finished(start, ops, done, ok, nvs.flash);
      if ok {
        state := RESTARTING;
        RestoreLeavesImage(start, bytes);
      }
      e := Restore(bytes, EndOf(ok, done, nvs.flash));
    }
  }
}
