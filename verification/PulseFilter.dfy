/** Confirmation of the reed contact: the debounced input and the minimum-phase
    filter that turns its levels into counted pulses. */
module PulseFilter {
  import opened Bytes

  datatype InputChange = NoChange | Fell | Rose

  const TICK_MS := 250
  const MINIMUM_PHASE_MS: uint32 := 500

  /** Time since `since`, across the wrap of the millisecond clock. */
  function Elapsed(now: uint32, since: uint32): uint32 {
    (now - since) % 0x1_0000_0000
  }

  function Change(high: bool): InputChange {
    if high then Rose else Fell
  }

  /** A polled contact: a read that disagrees with the confirmed level counts only
      if the debounce burst settles on the other level. */
  class ConfirmedInput {
    var high: bool

    constructor (initialHigh: bool)
      ensures high == initialHigh
    {
      high := initialHigh;
    }

    /** `burst` is the settled level of the debounce burst, if it settles. */
    method Update(read: bool, settles: bool, burst: bool) returns (change: InputChange)
      modifies this
      ensures high == if read != old(high) && settles then burst else old(high)
      ensures change == if high != old(high) then Change(high) else NoChange
    {
      if read == high {
        return NoChange;
      }
      if !settles || burst == high {
        return NoChange;
      }
      high := burst;
      change := if high then Rose else Fell;
    }
  }

  datatype Filter = Filter(minimumPhaseMs: uint32, pendingSince: uint32, accepted: bool, pending: bool)

  function Start(minimumPhaseMs: uint32, initialHigh: bool): Filter {
    Filter(minimumPhaseMs, 0, initialHigh, false)
  }

  function Next(f: Filter, now: uint32, high: bool): Filter {
    if high == f.accepted then f.(pending := false)
    else if !f.pending then f.(pending := true, pendingSince := now)
    else if Elapsed(now, f.pendingSince) < f.minimumPhaseMs then f
    else f.(accepted := high, pending := false)
  }

  class MinimumPhaseFilter {
    const minimumPhaseMs: uint32
    var pendingSince: uint32
    var accepted: bool
    var pending: bool

    ghost function State(): Filter
      reads this
    {
      Filter(minimumPhaseMs, pendingSince, accepted, pending)
    }

    constructor (minimumPhaseMs: uint32, initialHigh: bool)
      ensures State() == Start(minimumPhaseMs, initialHigh)
    {
      this.minimumPhaseMs := minimumPhaseMs;
      pendingSince, accepted, pending := 0, initialHigh, false;
    }

    method Update(now: uint32, high: bool) returns (change: InputChange)
      modifies this
      ensures State() == Next(old(State()), now, high)
      ensures change == if accepted != old(accepted) then Change(accepted) else NoChange
    {
      if high == accepted {
        pending := false;
        return NoChange;
      }
      if !pending {
        pending, pendingSince := true, now;
        return NoChange;
      }
      if Elapsed(now, pendingSince) < minimumPhaseMs {
        return NoChange;
      }
      accepted, pending := high, false;
      change := if high then Rose else Fell;
    }
  }

  // ---------------------------------------------------------------- runs on the 250 ms tick

  function Clock(start: uint32, tick: nat): uint32 {
    (start + TICK_MS * tick) % 0x1_0000_0000
  }

  /** The filter after the first `n` samples. */
  function After(start: uint32, samples: seq<bool>, n: nat): Filter
    requires n <= |samples|
  {
    if n == 0 then Start(MINIMUM_PHASE_MS, true)
    else Next(After(start, samples, n - 1), Clock(start, n - 1), samples[n - 1])
  }

  function Accepted(start: uint32, samples: seq<bool>, n: nat): bool
    requires n <= |samples|
  {
    After(start, samples, n).accepted
  }

  /** The number of latest samples that contradict the accepted level. */
  function Contradicting(start: uint32, samples: seq<bool>, n: nat): nat
    requires n <= |samples|
  {
    if n == 0 || samples[n - 1] == Accepted(start, samples, n) then 0
    else if n == 1 || samples[n - 2] == Accepted(start, samples, n) then 1
    else 2
  }

  lemma ClockDistance(start: uint32, from: nat, to: nat)
    requires from <= to <= from + 2
    ensures Elapsed(Clock(start, to), Clock(start, from)) == TICK_MS * (to - from)
  {
  }

  lemma {:induction false} FilterState(start: uint32, samples: seq<bool>, n: nat)
    requires n <= |samples|
    ensures
      var f := After(start, samples, n);
      var run := Contradicting(start, samples, n);
      && f.minimumPhaseMs == MINIMUM_PHASE_MS
      && (f.pending <==> run > 0)
      && run <= n
      && (run > 0 ==> f.pendingSince == Clock(start, n - run))
      && (run == 2 && n > 2 ==> samples[n - 3] == f.accepted)
  {
    if n > 0 {
      FilterState(start, samples, n - 1);
      var run := Contradicting(start, samples, n - 1);
      if run > 0 {
        ClockDistance(start, n - 1 - run, n - 1);
      }
    }
  }

  predicate LastThreeAre(samples: seq<bool>, i: nat, level: bool)
    requires i < |samples|
  {
    i >= 2 && samples[i - 2] == samples[i - 1] == samples[i] == level
  }

  /** The accepted level flips exactly on the third consecutive opposite sample,
      wherever the clock wraps. */
  lemma FlipsOnThird(start: uint32, samples: seq<bool>, i: nat)
    requires i < |samples|
    ensures Accepted(start, samples, i + 1) != Accepted(start, samples, i) <==>
            LastThreeAre(samples, i, !Accepted(start, samples, i))
  {
    FilterState(start, samples, i);
    var run := Contradicting(start, samples, i);
    if run > 0 {
      ClockDistance(start, i - run, i);
    }
  }

  /** Number of accepted rises among the first `n` samples. */
  function Rises(start: uint32, samples: seq<bool>, n: nat): nat
    requires n <= |samples|
  {
    if n == 0 then 0
    else Rises(start, samples, n - 1) +
         if !Accepted(start, samples, n - 1) && Accepted(start, samples, n) then 1 else 0
  }

  /** The contact as a function of time, sampled every tick from `origin`. */
  function Sampled(level: int -> bool, origin: int, n: nat): (s: seq<bool>)
    ensures |s| == n
  {
    seq(n, i requires 0 <= i < n => level(origin + TICK_MS * i))
  }

  /** A contact phase of at least 750 ms is accepted before it ends. */
  lemma LongPhaseAccepted(start: uint32, level: int -> bool, origin: int, n: nat, from: int, to: int, high: bool)
    returns (tick: nat)
    requires origin <= from && to - from >= 750 && to <= origin + TICK_MS * n
    requires forall t :: from <= t < to ==> level(t) == high
    ensures tick < n && origin + TICK_MS * tick < to
    ensures Accepted(start, Sampled(level, origin, n), tick + 1) == high
  {
    var first := (from - origin + TICK_MS - 1) / TICK_MS;
    tick := first + 2;
    var samples := Sampled(level, origin, n);
    assert samples[first] == samples[first + 1] == samples[first + 2] == high;
    FlipsOnThird(start, samples, tick);
  }

  /** A contact phase of less than 500 ms between phases of the other level leaves
      the accepted level alone at every tick inside it. */
  lemma {:induction false} ShortPhaseIgnored(
    start: uint32, level: int -> bool, origin: int, n: nat, from: int, to: int, high: bool, before: nat, tick: nat)
    requires from < to < from + 500
    requires before <= tick < n
    requires origin + TICK_MS * before < from <= origin + TICK_MS * (before + 1)
    requires origin + TICK_MS * tick < to
    requires level(origin + TICK_MS * before) == !high
    requires forall t :: from <= t < to ==> level(t) == high
    requires Accepted(start, Sampled(level, origin, n), before + 1) == !high
    ensures Accepted(start, Sampled(level, origin, n), tick + 1) == !high
    decreases tick
  {
    if tick > before {
      ShortPhaseIgnored(start, level, origin, n, from, to, high, before, tick - 1);
      var samples := Sampled(level, origin, n);
      FlipsOnThird(start, samples, tick);
      assert tick <= before + 2;
      assert samples[before] == !high;
    }
  }
}
