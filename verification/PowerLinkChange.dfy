/** The power loop after its link has changed: the controller still averages what it
    heard before. When it leaves that average behind, and when it never does. */
module PowerLinkChange {
  import opened Bytes
  import opened NodeRegistry
  import opened PowerControl

  /** A node the gateway knows, outside any fallback and between floor and ceiling;
      nothing is said of what the controller has averaged. */
  predicate Ordinary(s: Loop, ceiling: Level) {
    var c := s.control;
    && s.published && c.known && !s.fallback && !c.fallback
    && c.floor <= s.level <= ceiling && c.floor <= c.desired <= ceiling
  }

  predicate InWindow(rssi: int) {
    TARGET_RSSI_LOW <= rssi <= TARGET_RSSI_HIGH
  }

  /** What is averaged at the present level, if anything, comes from this link. */
  predicate Fitting(s: Loop, link: Link, ceiling: Level) {
    var c := s.control;
    c.reportedLevel == s.level ==>
      && c.rssiSum == c.reports * link[s.level]
      && (c.reports >= REPORTS_PER_DECISION && !InWindow(link[s.level]) ==>
            c.desired == Decide(link, c.floor, ceiling, s.level))
  }

  // ---------------------------------------------------------------- one round

  lemma OrdinaryRound(s: Loop, link: Link, ceiling: Level, round: Round)
    requires Ordinary(s, ceiling) && Quiet(s, link, ceiling, round)
    ensures
      var after := Next(s, link, ceiling, round);
      && Ordinary(after, ceiling) && after.control.floor == s.control.floor
      && after.level == (if round.heard && round.acknowledged then s.control.desired else s.level)
      && (round.heard ==> after.control.reportedLevel == s.level)
      && (!round.heard ==> after.control == s.control)
  {
    hide Truncated, Adjusted;
  }

  /** What one report adds to the average, and what it then asks for. */
  lemma ObserveFitting(s: Loop, link: Link, ceiling: Level)
    requires Ordinary(s, ceiling) && Fitting(s, link, ceiling)
    ensures
      var c, after := s.control, Observe(s.control, POLICY_AUTO, ceiling, Report(s.level, false, link[s.level]));
      && after.rssiSum == after.reports * link[s.level]
      && after.reports == (if c.reportedLevel != s.level then 1 else if c.reports < 0xFF then c.reports + 1 else 0xFF)
      && after.desired == if after.reports >= REPORTS_PER_DECISION && !InWindow(link[s.level])
                          then Decide(link, c.floor, ceiling, s.level) else c.desired
  {
    var c := s.control;
    var r := Recorded(c, ceiling, Report(s.level, false, link[s.level]));
    if c.reportedLevel == s.level {
      assert (c.reports + 1) * link[s.level] == c.reports * link[s.level] + link[s.level];
    }
    assert r.rssiSum == r.reports * link[s.level];
    AverageOfEqual(link[s.level], r.reports);
  }

  lemma FittingRound(s: Loop, link: Link, ceiling: Level, round: Round)
    requires Ordinary(s, ceiling) && Fitting(s, link, ceiling) && Quiet(s, link, ceiling, round)
    ensures Fitting(Next(s, link, ceiling, round), link, ceiling)
  {
    OrdinaryRound(s, link, ceiling, round);
    if round.heard {
      ObserveFitting(s, link, ceiling);
      hide Observe, Decide;
    }
  }

  /** A level just left takes its average with it. */
  lemma ChangeFits(s: Loop, link: Link, ceiling: Level, round: Round)
    requires Ordinary(s, ceiling) && Quiet(s, link, ceiling, round)
    requires Next(s, link, ceiling, round).level != s.level
    ensures Fitting(Next(s, link, ceiling, round), link, ceiling)
  {
    OrdinaryRound(s, link, ceiling, round);
    hide Observe, Decide, Next;
  }

  // ---------------------------------------------------------------- convergence of a fitting loop

  function Need(s: Loop): (need: nat)
    ensures need <= 3
  {
    if s.control.reportedLevel != s.level then 3
    else if s.control.reports >= REPORTS_PER_DECISION then 0 else REPORTS_PER_DECISION - s.control.reports
  }

  /** What is wanted is the level itself or the decision at it. */
  predicate Calm(s: Loop, link: Link, ceiling: Level) {
    var c := s.control;
    c.desired == s.level || (Need(s) == 0 && c.desired == Decide(link, c.floor, ceiling, s.level))
  }

  /** The levels of a node that is not calm alternate between two courses, its own and
      that of the level wanted; each comes closer with every other move. */
  function Remaining(s: Loop, link: Link, ceiling: Level): nat
    requires Steady(link) && Ordinary(s, ceiling)
  {
    var c := s.control;
    var own, other := Moves(link, c.floor, ceiling, s.level), Moves(link, c.floor, ceiling, c.desired);
    if Calm(s, link, ceiling) then 4 * own + Need(s)
    else 8 * (own + other) + (if own == 0 && !InWindow(link[s.level]) then 8 else 4) + Need(s)
  }

  lemma OneBoundary(link: Link, floor: byte, ceiling: Level, a: Level, b: Level)
    requires Steady(link) && floor <= a <= ceiling && floor <= b <= ceiling
    requires Decide(link, floor, ceiling, a) == a && Decide(link, floor, ceiling, b) == b
    requires !InWindow(link[a]) && !InWindow(link[b])
    ensures a == b
  {
  }

  lemma MovesNext(link: Link, floor: byte, ceiling: Level, level: Level)
    requires Steady(link) && floor <= level <= ceiling
    ensures
      var next, moves := Decide(link, floor, ceiling, level), Moves(link, floor, ceiling, level);
      && moves <= 11 && (next == level <==> moves == 0)
      && (next != level ==> moves == 1 + Moves(link, floor, ceiling, next))
      && (InWindow(link[level]) ==> moves == 0)
  {
    MovesBounded(link, floor, ceiling, level);
  }

  lemma FittingApproaches(s: Loop, link: Link, ceiling: Level, round: Round)
    requires Steady(link) && Ordinary(s, ceiling) && Fitting(s, link, ceiling) && Quiet(s, link, ceiling, round)
    ensures Ordinary(Next(s, link, ceiling, round), ceiling)
    ensures
      var before, after := Remaining(s, link, ceiling), Remaining(Next(s, link, ceiling, round), link, ceiling);
      && after <= before
      && (round.heard && round.acknowledged && before > 0 ==> after < before)
  {
    OrdinaryRound(s, link, ceiling, round);
    var c := s.control;
    MovesNext(link, c.floor, ceiling, s.level);
    MovesNext(link, c.floor, ceiling, c.desired);
    if round.heard {
      ObserveFitting(s, link, ceiling);
      var decided := Decide(link, c.floor, ceiling, s.level);
      if decided == s.level && Decide(link, c.floor, ceiling, c.desired) == c.desired &&
         !InWindow(link[s.level]) && !InWindow(link[c.desired]) {
        OneBoundary(link, c.floor, ceiling, s.level, c.desired);
      }
      hide Observe, Decide, Moves, InWindow, Steady;
    }
  }

  lemma {:induction false} FittingRuns(s: Loop, link: Link, ceiling: Level, rounds: seq<Round>)
    requires Steady(link) && Ordinary(s, ceiling) && Fitting(s, link, ceiling) && QuietRun(s, link, ceiling, rounds)
    ensures
      var t, start := RunLoop(s, link, ceiling, rounds), Remaining(s, link, ceiling);
      && Ordinary(t, ceiling) && Fitting(t, link, ceiling) && t.control.floor == s.control.floor
      && Remaining(t, link, ceiling) <= if Acknowledged(rounds) <= start then start - Acknowledged(rounds) else 0
  {
    hide Fitting, Remaining, Quiet, Next, Ordinary;
    if rounds != [] {
      var front, last := rounds[..|rounds| - 1], rounds[|rounds| - 1];
      FittingRuns(s, link, ceiling, front);
      var t := RunLoop(s, link, ceiling, front);
      OrdinaryRound(t, link, ceiling, last);
      FittingRound(t, link, ceiling, last);
      FittingApproaches(t, link, ceiling, last);
    }
  }

  const MOST_REMAINING := 187

  lemma RemainingBounded(s: Loop, link: Link, ceiling: Level)
    requires Steady(link) && Ordinary(s, ceiling)
    ensures Remaining(s, link, ceiling) <= MOST_REMAINING
  {
    MovesNext(link, s.control.floor, ceiling, s.level);
    MovesNext(link, s.control.floor, ceiling, s.control.desired);
  }

  /** The node is at a level that suits the link or is the best there is, it is the one
      wanted, and no round without a fallback changes it. */
  ghost predicate Arrived(t: Loop, link: Link, floor: byte, ceiling: Level) {
    && floor <= ceiling && t.level <= ceiling && Settled(link, floor, ceiling, t.level)
    && t.control.desired == t.control.reportedLevel == t.level
    && forall round :: Quiet(t, link, ceiling, round) ==> Next(t, link, ceiling, round).level == t.level
  }

  lemma FittingArrives(s: Loop, link: Link, ceiling: Level, rounds: seq<Round>)
    requires Steady(link) && Ordinary(s, ceiling) && Fitting(s, link, ceiling) && QuietRun(s, link, ceiling, rounds)
    requires Acknowledged(rounds) >= MOST_REMAINING
    ensures Arrived(RunLoop(s, link, ceiling, rounds), link, s.control.floor, ceiling)
  {
    FittingRuns(s, link, ceiling, rounds);
    RemainingBounded(s, link, ceiling);
    var t := RunLoop(s, link, ceiling, rounds);
    MovesNext(link, t.control.floor, ceiling, t.level);
    SettledIsFixed(link, t.control.floor, ceiling, t.level);
    hide Quiet, RunLoop, QuietRun, Acknowledged, Next, Fitting, Settled, Decide, Moves;
    forall round | Quiet(t, link, ceiling, round)
      ensures Next(t, link, ceiling, round).level == t.level
    {
      OrdinaryRound(t, link, ceiling, round);
    }
  }

  // ---------------------------------------------------------------- once the level has changed

  lemma {:induction false} RunStaysOrdinary(s: Loop, link: Link, ceiling: Level, rounds: seq<Round>)
    requires Ordinary(s, ceiling) && QuietRun(s, link, ceiling, rounds)
    ensures
      var t := RunLoop(s, link, ceiling, rounds);
      Ordinary(t, ceiling) && t.control.floor == s.control.floor
  {
    hide Ordinary, Quiet, Next;
    if rounds != [] {
      var front := rounds[..|rounds| - 1];
      RunStaysOrdinary(s, link, ceiling, front);
      OrdinaryRound(RunLoop(s, link, ceiling, front), link, ceiling, rounds[|rounds| - 1]);
    }
  }

  lemma {:induction false} RunSplits(s: Loop, link: Link, ceiling: Level, rounds: seq<Round>, i: nat)
    requires i <= |rounds| && QuietRun(s, link, ceiling, rounds)
    ensures
      var middle := RunLoop(s, link, ceiling, rounds[..i]);
      && QuietRun(s, link, ceiling, rounds[..i]) && QuietRun(middle, link, ceiling, rounds[i..])
      && RunLoop(s, link, ceiling, rounds) == RunLoop(middle, link, ceiling, rounds[i..])
      && Acknowledged(rounds) == Acknowledged(rounds[..i]) + Acknowledged(rounds[i..])
    decreases |rounds|
  {
    hide Quiet, Next;
    if i == |rounds| {
      assert rounds[..i] == rounds;
    } else {
      var front := rounds[..|rounds| - 1];
      RunSplits(s, link, ceiling, front, i);
      assert front[..i] == rounds[..i];
      assert rounds[i..][..|rounds[i..]| - 1] == front[i..];
    }
  }

  /** The first round that changes the level, if the run has one. */
  lemma {:induction false} FirstChange(s: Loop, link: Link, ceiling: Level, rounds: seq<Round>, i: nat) returns (first: nat)
    requires i <= |rounds| && RunLoop(s, link, ceiling, rounds[..i]).level != s.level
    ensures 0 < first <= i && RunLoop(s, link, ceiling, rounds[..first]).level != s.level
    ensures forall j :: 0 <= j < first ==> RunLoop(s, link, ceiling, rounds[..j]).level == s.level
  {
    hide Next;
    first := 0;
    assert rounds[..0] == [];
    while RunLoop(s, link, ceiling, rounds[..first]).level == s.level
      invariant first <= i
      invariant forall j :: 0 <= j < first ==> RunLoop(s, link, ceiling, rounds[..j]).level == s.level
      decreases i - first
    {
      first := first + 1;
    }
  }

  /** Wherever the controller starts from, what it averaged before: once the level has
      changed, 187 more acknowledged reports bring the node to where it belongs. */
  lemma ArrivesAfterChange(s: Loop, link: Link, ceiling: Level, rounds: seq<Round>, i: nat)
    requires Steady(link) && Ordinary(s, ceiling) && QuietRun(s, link, ceiling, rounds)
    requires i <= |rounds| && RunLoop(s, link, ceiling, rounds[..i]).level != s.level
    requires Acknowledged(rounds) - Acknowledged(rounds[..i]) >= MOST_REMAINING
    ensures Arrived(RunLoop(s, link, ceiling, rounds), link, s.control.floor, ceiling)
  {
    hide Quiet, Next, Ordinary, Fitting, Arrived, Steady;
    var first := FirstChange(s, link, ceiling, rounds, i);
    ChangeFitsRun(s, link, ceiling, rounds, first);
    RunSplits(s, link, ceiling, rounds, first);
    RunSplits(s, link, ceiling, rounds, i);
    RunSplits(s, link, ceiling, rounds[..i], first);
    assert rounds[..i][..first] == rounds[..first];
    RunStaysOrdinary(s, link, ceiling, rounds[..first]);
    FittingArrives(RunLoop(s, link, ceiling, rounds[..first]), link, ceiling, rounds[first..]);
  }

  lemma ChangeFitsRun(s: Loop, link: Link, ceiling: Level, rounds: seq<Round>, first: nat)
    requires Ordinary(s, ceiling) && QuietRun(s, link, ceiling, rounds) && 0 < first <= |rounds|
    requires RunLoop(s, link, ceiling, rounds[..first]).level != s.level
    requires RunLoop(s, link, ceiling, rounds[..first - 1]).level == s.level
    ensures Fitting(RunLoop(s, link, ceiling, rounds[..first]), link, ceiling)
  {
    hide Quiet, Next, Ordinary, Fitting;
    RunSplits(s, link, ceiling, rounds, first);
    var upTo := rounds[..first];
    assert upTo[..first - 1] == rounds[..first - 1];
    RunStaysOrdinary(s, link, ceiling, rounds[..first - 1]);
    ChangeFits(RunLoop(s, link, ceiling, rounds[..first - 1]), link, ceiling, upTo[first - 1]);
  }

  // ---------------------------------------------------------------- a level that was wanted on another link

  /** A sum over so many reports whose average leaves the level alone. */
  predicate Holds(sum: int, reports: nat, floor: byte, ceiling: Level, level: Level) {
    && (sum > TARGET_RSSI_HIGH * reports ==> level == floor)
    && (sum <= (TARGET_RSSI_LOW - 1) * reports ==> level == ceiling)
  }

  /** A node at the level wanted of it, whatever has been averaged there so far. */
  predicate Resting(s: Loop, ceiling: Level) {
    Ordinary(s, ceiling) && s.control.desired == s.control.reportedLevel == s.level
  }

  /** The reports counted, and their sum, once so many more are heard from this link. */
  function Counted(c: ControlState, heard: nat): (n: byte)
    ensures c.reports <= n && (n < 0xFF ==> n == c.reports + heard)
  {
    if c.reports + heard < 0xFF then c.reports + heard else 0xFF
  }

  function SumAfter(c: ControlState, rssi: int16, heard: nat): int {
    c.rssiSum + (Counted(c, heard) - c.reports) * rssi
  }

  /** The decision after so many more reports, if there is one, leaves the level alone. */
  predicate HoldsAfter(s: Loop, rssi: int16, ceiling: Level, heard: nat) {
    var n := Counted(s.control, heard);
    n >= REPORTS_PER_DECISION ==> Holds(SumAfter(s.control, rssi, heard), n, s.control.floor, ceiling, s.level)
  }

  predicate AllHold(s: Loop, rssi: int16, ceiling: Level, heard: nat) {
    forall j :: 1 <= j <= heard ==> HoldsAfter(s, rssi, ceiling, j)
  }

  /** Every average up to that of 255 reports leaves the level alone. */
  predicate Unnoticed(s: Loop, rssi: int16, ceiling: Level) {
    AllHold(s, rssi, ceiling, 0xFF)
  }

  function FirstDecision(c: ControlState): nat {
    if c.reports >= REPORTS_PER_DECISION - 1 then 1 else REPORTS_PER_DECISION - c.reports
  }

  lemma Between(a: int, b: int, k: nat, n: nat)
    requires k <= n
    ensures a <= 0 && a + n * b <= 0 ==> a + k * b <= 0
    ensures a > 0 && a + n * b > 0 ==> a + k * b > 0
  {
    if b >= 0 {
      Monotone(b, k, n);
    } else {
      Monotone(-b, k, n);
      assert k * -b == -(k * b) && n * -b == -(n * b);
    }
  }

  /** The average moves in one direction: the first and the last one decide. */
  lemma UnnoticedAtEnds(s: Loop, rssi: int16, ceiling: Level)
    ensures
      Unnoticed(s, rssi, ceiling) <==>
        HoldsAfter(s, rssi, ceiling, FirstDecision(s.control)) && HoldsAfter(s, rssi, ceiling, 0xFF)
  {
    var first := FirstDecision(s.control);
    hide HoldsAfter;
    if HoldsAfter(s, rssi, ceiling, first) && HoldsAfter(s, rssi, ceiling, 0xFF) {
      forall j | 1 <= j <= 0xFF
        ensures HoldsAfter(s, rssi, ceiling, j)
      {
        if j < first {
          NoDecisionYet(s, rssi, ceiling, j);
        } else {
          HoldsBetween(s, rssi, ceiling, first, j);
        }
      }
    }
  }

  lemma NoDecisionYet(s: Loop, rssi: int16, ceiling: Level, heard: nat)
    requires s.control.reports + heard < REPORTS_PER_DECISION
    ensures HoldsAfter(s, rssi, ceiling, heard)
  {
  }

  lemma HoldsBetween(s: Loop, rssi: int16, ceiling: Level, first: nat, j: nat)
    requires first <= j <= 0xFF && s.control.reports + first >= REPORTS_PER_DECISION
    requires HoldsAfter(s, rssi, ceiling, first) && HoldsAfter(s, rssi, ceiling, 0xFF)
    ensures HoldsAfter(s, rssi, ceiling, j)
  {
    var c := s.control;
    var from, at := Counted(c, first), Counted(c, j);
    var k, n := at - from, 0xFF - from;
    SumFrom(c, rssi, first, j);
    SumFrom(c, rssi, first, 0xFF);
    var sum := SumAfter(c, rssi, first);
    Between(sum - TARGET_RSSI_HIGH * from, rssi - TARGET_RSSI_HIGH, k, n);
    Between(sum - (TARGET_RSSI_LOW - 1) * from, rssi - (TARGET_RSSI_LOW - 1), k, n);
    Distributed(k, rssi);
    Distributed(n, rssi);
    hide SumAfter;
  }

  lemma Distributed(k: nat, rssi: int16)
    ensures k * (rssi - TARGET_RSSI_HIGH) == k * rssi - TARGET_RSSI_HIGH * k
    ensures k * (rssi - (TARGET_RSSI_LOW - 1)) == k * rssi - (TARGET_RSSI_LOW - 1) * k
  {
  }

  lemma SumFrom(c: ControlState, rssi: int16, first: nat, j: nat)
    requires first <= j
    ensures Counted(c, first) <= Counted(c, j)
    ensures SumAfter(c, rssi, j) == SumAfter(c, rssi, first) + (Counted(c, j) - Counted(c, first)) * rssi
  {
    var a, b := Counted(c, first) - c.reports, Counted(c, j) - Counted(c, first);
    assert (a + b) * rssi == a * rssi + b * rssi;
  }

  /** From 255 reports on nothing is added. */
  lemma SameWhenFull(s: Loop, rssi: int16, ceiling: Level, i: nat, j: nat)
    requires Counted(s.control, i) == Counted(s.control, j)
    ensures HoldsAfter(s, rssi, ceiling, i) == HoldsAfter(s, rssi, ceiling, j)
  {
  }

  /** One report at the level reported before: what is averaged, and what is wanted. */
  lemma HoldsDecides(s: Loop, link: Link, ceiling: Level)
    requires Ordinary(s, ceiling) && s.control.reportedLevel == s.level
    ensures
      var c, after := s.control, Observe(s.control, POLICY_AUTO, ceiling, Report(s.level, false, link[s.level]));
      var n, level, sum := Counted(c, 1), s.level, SumAfter(c, link[s.level], 1);
      && after == c.(reports := n, rssiSum := sum, desired := after.desired)
      && (n < REPORTS_PER_DECISION ==> after.desired == c.desired)
      && (n >= REPORTS_PER_DECISION ==>
            && (!Holds(sum, n, c.floor, ceiling, level) ==> after.desired != level)
            && (c.desired == level && Holds(sum, n, c.floor, ceiling, level) ==> after.desired == level)
            && (c.desired != level && after.desired == level ==>
                  || (sum > TARGET_RSSI_HIGH * n && level == c.floor)
                  || (sum <= (TARGET_RSSI_LOW - 1) * n && level == ceiling)))
  {
    var r := Recorded(s.control, ceiling, Report(s.level, false, link[s.level]));
    AverageBands(r.rssiSum, r.reports);
    hide Truncated;
  }

  lemma NextObserves(s: Loop, link: Link, ceiling: Level, round: Round)
    requires Ordinary(s, ceiling) && round.heard
    ensures Next(s, link, ceiling, round).control ==
            Observe(s.control, POLICY_AUTO, ceiling, Report(s.level, false, link[s.level]))
  {
    hide Observe;
  }

  /** The loop has averaged `heard` more reports of the link and not moved. */
  predicate Averaging(s: Loop, t: Loop, rssi: int16, heard: nat) {
    && t.level == s.level
    && t.control == s.control.(
         reports := Counted(s.control, heard), rssiSum := SumAfter(s.control, rssi, heard), desired := t.control.desired)
  }

  /** One more report in such a state. */
  lemma OneMoreHeard(s: Loop, t: Loop, link: Link, ceiling: Level, heard: nat, round: Round)
    requires Resting(s, ceiling) && Ordinary(t, ceiling) && Averaging(s, t, link[s.level], heard) && round.heard
    ensures
      var control, next := Next(t, link, ceiling, round).control, heard + 1;
      var n, level, sum := Counted(s.control, next), s.level, SumAfter(s.control, link[s.level], next);
      && control == s.control.(reports := n, rssiSum := sum, desired := control.desired)
      && (n < REPORTS_PER_DECISION ==> control.desired == t.control.desired)
      && (!HoldsAfter(s, link[s.level], ceiling, next) ==> control.desired != level)
      && (t.control.desired == level && HoldsAfter(s, link[s.level], ceiling, next) ==> control.desired == level)
      && (t.control.desired != level && control.desired == level ==>
            && n >= REPORTS_PER_DECISION
            && ((sum > TARGET_RSSI_HIGH * n && level == s.control.floor) ||
                (sum <= (TARGET_RSSI_LOW - 1) * n && level == ceiling)))
  {
    hide Observe, Holds;
    HoldsDecides(t, link, ceiling);
    NextObserves(t, link, ceiling, round);
    SumFrom(s.control, link[s.level], heard, heard + 1);
  }

  /** An unnoticed link never changes the level, whatever it has become. */
  lemma {:induction false} RestsForever(s: Loop, link: Link, ceiling: Level, rounds: seq<Round>) returns (heard: nat)
    requires Resting(s, ceiling) && QuietRun(s, link, ceiling, rounds) && Unnoticed(s, link[s.level], ceiling)
    ensures
      var t := RunLoop(s, link, ceiling, rounds);
      Ordinary(t, ceiling) && Averaging(s, t, link[s.level], heard) && t.control.desired == t.level == s.level
  {
    hide Quiet, Next, HoldsAfter, SumAfter;
    heard := 0;
    if rounds == [] {
      NoneHeard(s, link[s.level]);
    } else {
      var front, last := rounds[..|rounds| - 1], rounds[|rounds| - 1];
      heard := RestsForever(s, link, ceiling, front);
      var t := RunLoop(s, link, ceiling, front);
      OrdinaryRound(t, link, ceiling, last);
      if last.heard {
        OneMoreHeard(s, t, link, ceiling, heard, last);
        heard := heard + 1;
        if heard > 0xFF {
          SameWhenFull(s, link[s.level], ceiling, heard, 0xFF);
        }
      }
    }
  }

  lemma NoneHeard(s: Loop, rssi: int16)
    ensures Counted(s.control, 0) == s.control.reports && SumAfter(s.control, rssi, 0) == s.control.rssiSum
  {
  }

  /** What is known while the level has not changed: the level is wanted again after it
      was not only if it suits the link. */
  predicate Tracked(s: Loop, t: Loop, link: Link, ceiling: Level, heard: nat, acknowledged: nat) {
    var rssi, wanted := link[s.level], t.control.desired == s.level;
    && Ordinary(t, ceiling) && Averaging(s, t, rssi, heard)
    && (heard == 0 ==> wanted && acknowledged == 0)
    && (!wanted ==> !AllHold(s, rssi, ceiling, heard))
    && (heard > 0 && wanted ==>
          && HoldsAfter(s, rssi, ceiling, heard)
          && (AllHold(s, rssi, ceiling, heard) || Settled(link, s.control.floor, ceiling, s.level)))
    && acknowledged <= heard
    && (acknowledged > 0x100 ==> Fixed(s, t, heard))
  }

  /** All reports that count are counted, and the level is wanted. */
  predicate Fixed(s: Loop, t: Loop, heard: nat) {
    heard > 0 && Counted(s.control, heard) == 0xFF && t.control.desired == s.level
  }

  /** The link itself is beyond the window where its reports carried the average from
      one side of it to the other. */
  lemma OtherSide(s: Loop, link: Link, ceiling: Level, i: nat, j: nat)
    requires Resting(s, ceiling) && i <= j && !HoldsAfter(s, link[s.level], ceiling, i)
    requires
      var n, sum := Counted(s.control, j), SumAfter(s.control, link[s.level], j);
      && n >= REPORTS_PER_DECISION
      && ((sum > TARGET_RSSI_HIGH * n && s.level == s.control.floor) ||
          (sum <= (TARGET_RSSI_LOW - 1) * n && s.level == ceiling))
    ensures Settled(link, s.control.floor, ceiling, s.level)
  {
    var rssi := link[s.level];
    var m, n := Counted(s.control, i), Counted(s.control, j);
    SumFrom(s.control, rssi, i, j);
    var a, b := SumAfter(s.control, rssi, i), SumAfter(s.control, rssi, j);
    hide SumAfter;
    if m < n {
      Crossing(a, b, m, n, rssi);
    }
  }

  lemma Crossing(a: int, b: int, m: nat, n: nat, rssi: int)
    requires m < n && b == a + (n - m) * rssi
    ensures a > TARGET_RSSI_HIGH * m && b <= (TARGET_RSSI_LOW - 1) * n ==> rssi < TARGET_RSSI_LOW
    ensures a <= (TARGET_RSSI_LOW - 1) * m && b > TARGET_RSSI_HIGH * n ==> rssi > TARGET_RSSI_HIGH
  {
    var k := n - m;
    if rssi >= TARGET_RSSI_LOW {
      Monotone(rssi - TARGET_RSSI_LOW, 0, k);
      assert k * (rssi - TARGET_RSSI_LOW) == k * rssi - TARGET_RSSI_LOW * k;
    }
    if rssi <= TARGET_RSSI_HIGH {
      Monotone(TARGET_RSSI_HIGH - rssi, 0, k);
      assert k * (TARGET_RSSI_HIGH - rssi) == TARGET_RSSI_HIGH * k - k * rssi;
    }
  }

  lemma TrackRound(s: Loop, t: Loop, link: Link, ceiling: Level, heard: nat, acknowledged: nat, round: Round)
    requires Resting(s, ceiling) && Tracked(s, t, link, ceiling, heard, acknowledged) && Quiet(t, link, ceiling, round)
    requires Next(t, link, ceiling, round).level == s.level
    ensures
      Tracked(s, Next(t, link, ceiling, round), link, ceiling, if round.heard then heard + 1 else heard,
              if round.heard && round.acknowledged then acknowledged + 1 else acknowledged)
  {
    hide Next, HoldsAfter, SumAfter, Settled;
    OrdinaryRound(t, link, ceiling, round);
    if round.heard {
      var rssi, after := link[s.level], Next(t, link, ceiling, round);
      OneMoreHeard(s, t, link, ceiling, heard, round);
      if t.control.desired != s.level && after.control.desired == s.level {
        var i :| 1 <= i <= heard && !HoldsAfter(s, rssi, ceiling, i);
        OtherSide(s, link, ceiling, i, heard + 1);
      }
      if heard > 0 && Counted(s.control, heard) == 0xFF {
        SameWhenFull(s, rssi, ceiling, heard, heard + 1);
      }
    }
  }

  lemma {:induction false} TrackedRun(s: Loop, link: Link, ceiling: Level, rounds: seq<Round>) returns (heard: nat)
    requires Resting(s, ceiling) && QuietRun(s, link, ceiling, rounds)
    requires forall j :: 0 <= j <= |rounds| ==> RunLoop(s, link, ceiling, rounds[..j]).level == s.level
    ensures Tracked(s, RunLoop(s, link, ceiling, rounds), link, ceiling, heard, Acknowledged(rounds))
  {
    hide Quiet, Next, HoldsAfter, SumAfter, Settled;
    heard := 0;
    if rounds == [] {
      NoneHeard(s, link[s.level]);
    } else {
      hide Tracked;
      var front, last := rounds[..|rounds| - 1], rounds[|rounds| - 1];
      forall j | 0 <= j <= |front|
        ensures RunLoop(s, link, ceiling, front[..j]).level == s.level
      {
        assert front[..j] == rounds[..j];
      }
      heard := TrackedRun(s, link, ceiling, front);
      assert rounds[..|rounds|] == rounds;
      TrackRound(s, RunLoop(s, link, ceiling, front), link, ceiling, heard, Acknowledged(front), last);
      if last.heard {
        heard := heard + 1;
      }
    }
  }

  const MOST_REPORTS := 444

  /** A node at the level wanted of it, the link then being another one, whatever was
      averaged before: after 444 acknowledged reports it is where that link wants it
      exactly if the level suits the link anyway, or some average up to that of 255
      reports does not leave it alone. Otherwise it stays, however weak the link is. */
  lemma ArrivesExactlyIfNoticed(s: Loop, link: Link, ceiling: Level, rounds: seq<Round>)
    requires Steady(link) && Resting(s, ceiling) && QuietRun(s, link, ceiling, rounds)
    requires Acknowledged(rounds) >= MOST_REPORTS
    ensures
      var t, floor := RunLoop(s, link, ceiling, rounds), s.control.floor;
      var unnoticed := Unnoticed(s, link[s.level], ceiling);
      && (Settled(link, floor, ceiling, t.level) <==> !unnoticed || Settled(link, floor, ceiling, s.level))
      && (unnoticed ==> t.level == s.level)
      && (!unnoticed ==> Arrived(t, link, floor, ceiling))
  {
    hide Quiet, Next, HoldsAfter, QuietRun, Settled, Steady, AllHold, RunLoop;
    if Unnoticed(s, link[s.level], ceiling) {
      var heard := RestsForever(s, link, ceiling, rounds);
    } else if forall j :: 0 <= j <= |rounds| ==> RunLoop(s, link, ceiling, rounds[..j]).level == s.level {
      StaysWhereItBelongs(s, link, ceiling, rounds);
    } else {
      var any :| 0 <= any <= |rounds| && RunLoop(s, link, ceiling, rounds[..any]).level != s.level;
      var i := ChangesSoon(s, link, ceiling, rounds, any);
      ArrivesAfterChange(s, link, ceiling, rounds, i);
    }
  }

  lemma StaysWhereItBelongs(s: Loop, link: Link, ceiling: Level, rounds: seq<Round>)
    requires Resting(s, ceiling) && QuietRun(s, link, ceiling, rounds) && Acknowledged(rounds) > 0x100
    requires !Unnoticed(s, link[s.level], ceiling)
    requires forall j :: 0 <= j <= |rounds| ==> RunLoop(s, link, ceiling, rounds[..j]).level == s.level
    ensures Arrived(RunLoop(s, link, ceiling, rounds), link, s.control.floor, ceiling)
  {
    hide Quiet, Next, HoldsAfter, QuietRun, Settled, RunLoop, SumAfter;
    var t, rssi := RunLoop(s, link, ceiling, rounds), link[s.level];
    var heard := TrackedRun(s, link, ceiling, rounds);
    var j :| 1 <= j <= 0xFF && !HoldsAfter(s, rssi, ceiling, j);
    if AllHold(s, rssi, ceiling, heard) {
      SameWhenFull(s, rssi, ceiling, heard, j);
    }
    forall round | Quiet(t, link, ceiling, round)
      ensures Next(t, link, ceiling, round).level == t.level
    {
      OrdinaryRound(t, link, ceiling, round);
    }
  }

  /** The first change comes with one of the first 257 acknowledged reports. */
  lemma ChangesSoon(s: Loop, link: Link, ceiling: Level, rounds: seq<Round>, any: nat) returns (i: nat)
    requires Resting(s, ceiling) && QuietRun(s, link, ceiling, rounds)
    requires any <= |rounds| && RunLoop(s, link, ceiling, rounds[..any]).level != s.level
    ensures i <= |rounds| && RunLoop(s, link, ceiling, rounds[..i]).level != s.level
    ensures Acknowledged(rounds[..i]) <= 0x101
  {
    hide Next, QuietRun, HoldsAfter, AllHold, Averaging, Settled, Quiet, Ordinary;
    i := FirstChange(s, link, ceiling, rounds, any);
    var before := rounds[..i - 1];
    RunSplits(s, link, ceiling, rounds, i - 1);
    RunSplits(s, link, ceiling, rounds, i);
    forall j | 0 <= j <= |before|
      ensures RunLoop(s, link, ceiling, before[..j]).level == s.level
    {
      assert before[..j] == rounds[..j];
    }
    var heard := TrackedRun(s, link, ceiling, before);
    assert rounds[..i][..i - 1] == before;
    var t := RunLoop(s, link, ceiling, before);
    LastQuiet(s, link, ceiling, rounds[..i]);
    OrdinaryRound(t, link, ceiling, rounds[i - 1]);
  }

  lemma LastQuiet(s: Loop, link: Link, ceiling: Level, rounds: seq<Round>)
    requires QuietRun(s, link, ceiling, rounds) && rounds != []
    ensures Quiet(RunLoop(s, link, ceiling, rounds[..|rounds| - 1]), link, ceiling, rounds[|rounds| - 1])
  {
  }

  /** After 255 reports of -80 dBm at level 10 the link loses 20 dB: the node stays. */
  lemma FrozenNodeStaysWeak(s: Loop, link: Link, rounds: seq<Round>)
    requires s == Loop(10, false, 0, PowerControl.Run(Equals(0xFF, 20, 10, -80)), true)
    requires (forall i :: 0 <= i < 32 ==> link[i] == -100) && QuietRun(s, link, 20, rounds)
    ensures Steady(link) && RunLoop(s, link, 20, rounds).level == 10 && !Settled(link, 0, 20, 10)
  {
    hide QuietRun, RunLoop, PowerControl.Run, Equals;
    EqualReports(0xFF, 20, 10, -80);
    var heard := RestsForever(s, link, 20, rounds);
  }
}
