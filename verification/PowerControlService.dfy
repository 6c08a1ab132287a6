/** The gateway's power control service: one controller a node, and the two published
    values the radio task reads when it acknowledges a report. */
module PowerControlService {
  import opened Bytes
  import opened Protocol
  import opened Options
  import opened NodeRegistry
  import opened PowerControl

  const NODE_SLOTS := 100

  /** What the registry says about an active node's power. */
  datatype RadioPolicy = RadioPolicy(ceiling: byte, policy: byte)

  function LevelOf(radioState: byte): Level {
    radioState % 0x20
  }

  predicate FallbackIn(radioState: byte) {
    radioState / 0x20 % 2 == 1
  }

  predicate ValidNode(nodeId: byte) {
    FIRST_NODE_ID <= nodeId <= LAST_NODE_ID
  }

  class Service {
    const states: array<ControlState>
    /** Wanted level + 1, zero while there is none. */
    const desired: array<byte>
    const fallbackObserved: array<bool>

    /** What is published agrees with the controllers: a published level is the wanted
        one, and a fallback counts as observed while the last report seen was one. */
    ghost predicate Valid()
      reads this, states, desired, fallbackObserved
    {
      && states.Length == NODE_SLOTS && desired.Length == NODE_SLOTS && fallbackObserved.Length == NODE_SLOTS
      && forall n :: 0 <= n < NODE_SLOTS ==>
           && (desired[n] == 0 || desired[n] == states[n].desired + 1)
           && fallbackObserved[n] == states[n].fallback
           && states[n].desired < 0xFF
    }

    constructor ()
      ensures Valid() && fresh(states) && fresh(desired) && fresh(fallbackObserved)
      ensures forall n :: 0 <= n < NODE_SLOTS ==> states[n] == INITIAL && desired[n] == 0
    {
      states := new ControlState[NODE_SLOTS](_ => INITIAL);
      desired := new byte[NODE_SLOTS](_ => 0);
      fallbackObserved := new bool[NODE_SLOTS](_ => false);
    }

    /** A decoded report of a node the registry knows as active. */
    method Observe(nodeId: byte, radioState: byte, rssi: int16, known: Option<RadioPolicy>)
      requires Valid() && nodeId < NODE_SLOTS
      requires known.Some? ==> known.value.ceiling <= MAX_RADIO_POWER_LEVEL
      modifies states, desired, fallbackObserved
      ensures Valid()
      ensures states[..] ==
                if !ValidNode(nodeId) || known.None? then old(states[..])
                else old(states[..])[nodeId := PowerControl.Observe(
                  old(states[nodeId]), known.value.policy, known.value.ceiling,
                  Report(LevelOf(radioState), FallbackIn(radioState), rssi))]
      ensures ValidNode(nodeId) && known.Some? ==> desired[nodeId] == states[nodeId].desired + 1
      ensures forall n :: 0 <= n < NODE_SLOTS && n != nodeId ==> desired[n] == old(desired[n])
    {
      hide Recorded, Adjusted;
      if !ValidNode(nodeId) || known.None? {
        return;
      }
      var report := Report(LevelOf(radioState), FallbackIn(radioState), rssi);
      ReportedFallback(states[nodeId], known.value.policy, known.value.ceiling, report);
      states[nodeId] := PowerControl.Observe(states[nodeId], known.value.policy, known.value.ceiling, report);
      desired[nodeId] := states[nodeId].desired + 1;
      fallbackObserved[nodeId] := report.fallback;
    }

    method PolicyChanged(nodeId: byte, policy: byte, ceiling: byte)
      requires Valid() && nodeId < NODE_SLOTS && ceiling <= MAX_RADIO_POWER_LEVEL
      modifies states, desired
      ensures Valid()
      ensures states[..] ==
                if ValidNode(nodeId) then old(states[..])[nodeId := ChangePolicy(old(states[nodeId]), policy, ceiling).1]
                else old(states[..])
      ensures ValidNode(nodeId) ==>
                desired[nodeId] == if FixedPolicy(policy) || old(states[nodeId].known) then states[nodeId].desired + 1 else 0
      ensures forall n :: 0 <= n < NODE_SLOTS && n != nodeId ==> desired[n] == old(desired[n])
    {
      if !ValidNode(nodeId) {
        return;
      }
      var (level, after) := ChangePolicy(states[nodeId], policy, ceiling);
      states[nodeId] := after;
      desired[nodeId] := if level == NO_LEVEL then 0 else level + 1;
    }

    /** The target an acknowledgement of a report carries. A report sent in a fallback
        gets one only if the last report observed was itself a fallback. */
    method TargetFor(nodeId: byte, radioState: byte) returns (target: Target)
      requires Valid() && nodeId < NODE_SLOTS
      ensures target.Target? <==>
                && ValidNode(nodeId) && desired[nodeId] != 0 && states[nodeId].desired != LevelOf(radioState)
                && (FallbackIn(radioState) ==> states[nodeId].fallback)
      ensures target.Target? ==> target.level == states[nodeId].desired
    {
      if !ValidNode(nodeId) {
        return NoTarget;
      }
      if FallbackIn(radioState) && !fallbackObserved[nodeId] {
        return NoTarget;
      }
      var stored := desired[nodeId];
      if stored == 0 {
        return NoTarget;
      }
      var level := stored - 1;
      return if level != LevelOf(radioState) then Target(level) else NoTarget;
    }

    method Forget(nodeId: byte)
      requires Valid() && nodeId < NODE_SLOTS
      modifies states, desired, fallbackObserved
      ensures Valid()
      ensures states[..] == if ValidNode(nodeId) then old(states[..])[nodeId := INITIAL] else old(states[..])
      ensures desired[..] == if ValidNode(nodeId) then old(desired[..])[nodeId := 0] else old(desired[..])
    {
      if !ValidNode(nodeId) {
        return;
      }
      states[nodeId] := INITIAL;
      desired[nodeId] := 0;
      fallbackObserved[nodeId] := false;
    }

    method Clear()
      requires Valid()
      modifies states, desired, fallbackObserved
      ensures Valid()
      ensures forall n: byte :: n < NODE_SLOTS && ValidNode(n) ==> states[n] == INITIAL && desired[n] == 0
    {
      for nodeId := 1 to NODE_SLOTS
        invariant Valid()
        invariant forall n: byte :: 1 <= n < nodeId ==> states[n] == INITIAL && desired[n] == 0
      {
        ghost var statesBefore, desiredBefore := states[..], desired[..];
        Forget(nodeId);
        assert forall n: byte :: 1 <= n < nodeId ==> states[n] == states[..][n] == statesBefore[n];
        assert forall n: byte :: 1 <= n < nodeId ==> desired[n] == desired[..][n] == desiredBefore[n];
        assert states[..][nodeId] == INITIAL && desired[..][nodeId] == 0;
      }
    }
  }

  lemma ReportedFallback(c: ControlState, policy: byte, ceiling: byte, report: Report)
    requires ceiling <= MAX_RADIO_POWER_LEVEL
    ensures PowerControl.Observe(c, policy, ceiling, report).fallback == report.fallback
    ensures PowerControl.Observe(c, policy, ceiling, report).desired <= ceiling
  {
  }
}
