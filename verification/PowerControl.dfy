/** The radio power loop: the gateway averages the RSSI a node's reports arrive with
    and asks for a level; the node applies it when an acknowledgement carries it. */
module PowerControl {
  import opened Bytes
  import opened NodeRegistry

  type int16 = x: int | -0x8000 <= x < 0x8000

  const TARGET_RSSI_LOW := -85
  const TARGET_RSSI_HIGH := -75
  const TARGET_RSSI_CENTER := -80
  const REPORTS_PER_DECISION := 3
  const MAX_STEP_DOWN := 3
  const MAX_STEP_UP := 6
  const FALLBACK_MARGIN := 3
  const NO_LEVEL: byte := 0xFF

  /** A report's level is five bits of its radio state. */
  type Level = x: int | 0 <= x <= 31

  datatype Report = Report(level: Level, fallback: bool, rssi: int16)

  datatype ControlState = ControlState(
    known: bool, reportedLevel: Level, fallback: bool, reports: byte, rssiSum: int, floor: byte, desired: byte)

  const INITIAL := ControlState(false, 0, false, 0, 0, 0, 0)

  function MinLevel(left: byte, right: byte): byte {
    if left < right then left else right
  }

  /** Division as the source's language does it, towards zero. */
  function Truncated(a: int, b: nat): int
    requires b > 0
  {
    if a >= 0 then a / b else -(-a / b)
  }

  // ---------------------------------------------------------------- the gateway's half

  function ChangePolicy(c: ControlState, policy: byte, ceiling: byte): (r: (byte, ControlState)) {
    var restarted := c.(reports := 0, rssiSum := 0);
    if FixedPolicy(policy) then
      var level := MinLevel(FixedLevel(policy), ceiling);
      (level, restarted.(desired := level))
    else if c.known then
      var level := MinLevel(c.reportedLevel, ceiling);
      (level, restarted.(desired := level))
    else (NO_LEVEL, restarted)
  }

  /** The state after recording a report, before anything is decided. */
  function Recorded(c: ControlState, ceiling: byte, report: Report): ControlState {
    var floored :=
      if report.fallback && c.known && !c.fallback
      then c.(floor := MinLevel(ceiling, (c.reportedLevel + FALLBACK_MARGIN) % 0x100)) else c;
    var averaged :=
      if !c.known || report.level != c.reportedLevel then floored.(reports := 0, rssiSum := 0) else floored;
    var counted :=
      if averaged.reports < 0xFF
      then averaged.(reports := averaged.reports + 1, rssiSum := averaged.rssiSum + report.rssi) else averaged;
    counted.(known := true, reportedLevel := report.level, fallback := report.fallback)
  }

  function StepDown(excess: int): int {
    if excess > MAX_STEP_DOWN then MAX_STEP_DOWN else excess
  }

  function StepUp(deficit: int): int {
    if deficit > MAX_STEP_UP then MAX_STEP_UP else deficit
  }

  /** The level automatic control moves to from `level` on this average. */
  function Adjusted(level: Level, average: int, kept: byte): byte {
    if average > TARGET_RSSI_HIGH then
      var step := StepDown(average - TARGET_RSSI_CENTER);
      if level > step then level - step else 0
    else if average < TARGET_RSSI_LOW then level + StepUp(TARGET_RSSI_CENTER - average)
    else kept
  }

  /** One report: the next state, whose `desired` is the level wanted next. */
  function Observe(c: ControlState, policy: byte, ceiling: byte, report: Report): ControlState {
    var r := Recorded(c, ceiling, report);
    var kept: byte := if c.known && !report.fallback then c.desired else report.level;
    var wanted: byte :=
      if FixedPolicy(policy) then FixedLevel(policy)
      else if r.reports >= REPORTS_PER_DECISION then
        var adjusted := Adjusted(report.level, Truncated(r.rssiSum, r.reports), kept);
        if adjusted < r.floor then r.floor else adjusted
      else kept;
    r.(desired := MinLevel(wanted, ceiling))
  }

  // ---------------------------------------------------------------- the node's half

  const FALLBACK_REPORTS := 3

  datatype PowerDecision = PowerDecision(change: bool, level: Level, fallback: bool)

  function AfterAcknowledged(level: Level, fallback: bool, target: Target, ceiling: Level): PowerDecision {
    if target.NoTarget? then PowerDecision(false, level, fallback)
    else
      var wanted := if target.level > ceiling then ceiling else target.level;
      if wanted == level && !fallback then PowerDecision(false, level, fallback) else PowerDecision(true, wanted, false)
  }

  function AfterUnacknowledged(level: Level, fallback: bool, failures: byte, ceiling: Level): PowerDecision {
    if failures < FALLBACK_REPORTS || level >= ceiling then PowerDecision(false, level, fallback)
    else PowerDecision(true, ceiling, true)
  }

  /** What an acknowledgement may carry. */
  datatype Target = NoTarget | Target(level: byte)

  // ---------------------------------------------------------------- bounds over any history

  datatype Input = Reported(policy: byte, ceiling: byte, report: Report) | PolicyChanged(policy: byte, ceiling: byte)

  function Step(c: ControlState, input: Input): ControlState {
    match input
    case Reported(policy, ceiling, report) => Observe(c, policy, ceiling, report)
    case PolicyChanged(policy, ceiling) => ChangePolicy(c, policy, ceiling).1
  }

  function Run(inputs: seq<Input>): ControlState {
    if inputs == [] then INITIAL else Step(Run(inputs[..|inputs| - 1]), inputs[|inputs| - 1])
  }

  /** Over any history of reports and policy changes the RSSI sum stays far inside 32
      bits, and a wanted level is within the ceiling it was computed with. */
  lemma {:induction false} SumNeverOverflows(inputs: seq<Input>)
    ensures
      var c := Run(inputs);
      && -0x8000 * (c.reports as int) <= c.rssiSum <= 0x7FFF * (c.reports as int)
      && -0x8000_0000 <= c.rssiSum < 0x8000_0000
    ensures
      inputs != [] && inputs[|inputs| - 1].Reported? ==> Run(inputs).desired <= inputs[|inputs| - 1].ceiling
  {
    if inputs != [] {
      SumNeverOverflows(inputs[..|inputs| - 1]);
    }
  }

  // ---------------------------------------------------------------- what a history leaves

  /** The latest report of a history, or -1. */
  function LastReport(inputs: seq<Input>): (i: int)
    ensures -1 <= i < |inputs| && (i >= 0 ==> inputs[i].Reported?)
    ensures forall j :: i < j < |inputs| ==> inputs[j].PolicyChanged?
  {
    if inputs == [] then -1
    else if inputs[|inputs| - 1].Reported? then |inputs| - 1
    else LastReport(inputs[..|inputs| - 1])
  }

  /** Input `i` reports a fallback and the report before it did not. */
  predicate Fell(inputs: seq<Input>, i: nat)
    requires i < |inputs|
  {
    var before := LastReport(inputs[..i]);
    inputs[i].Reported? && inputs[i].report.fallback && before >= 0 && !inputs[before].report.fallback
  }

  /** The level a fallback at input `i` showed to be too low, and the floor it sets. */
  function FailedLevel(inputs: seq<Input>, i: nat): Level
    requires i < |inputs| && Fell(inputs, i)
  {
    inputs[LastReport(inputs[..i])].report.level
  }

  lemma {:induction false} KnowsLastReport(inputs: seq<Input>)
    ensures
      var c, i := Run(inputs), LastReport(inputs);
      && (c.known <==> i >= 0)
      && (i >= 0 ==> c.reportedLevel == inputs[i].report.level && c.fallback == inputs[i].report.fallback)
  {
    hide Truncated, Adjusted;
    if inputs != [] {
      KnowsLastReport(inputs[..|inputs| - 1]);
    }
  }

  /** The last input at which a level failed, or -1. */
  function LastFailure(inputs: seq<Input>): (i: int)
    ensures -1 <= i < |inputs| && (i >= 0 ==> Fell(inputs, i))
    ensures forall j :: i < j < |inputs| ==> !Fell(inputs, j)
  {
    if inputs == [] then -1
    else if Fell(inputs, |inputs| - 1) then |inputs| - 1
    else FellBefore(inputs); LastFailure(inputs[..|inputs| - 1])
  }

  lemma FellBefore(inputs: seq<Input>)
    ensures forall i :: 0 <= i < |inputs| - 1 ==> (Fell(inputs, i) <==> Fell(inputs[..|inputs| - 1], i))
    ensures forall i :: 0 <= i < |inputs| - 1 && Fell(inputs, i) ==>
                          FailedLevel(inputs, i) == FailedLevel(inputs[..|inputs| - 1], i)
  {
    forall i | 0 <= i < |inputs| - 1
      ensures Fell(inputs, i) <==> Fell(inputs[..|inputs| - 1], i)
      ensures Fell(inputs, i) ==> FailedLevel(inputs, i) == FailedLevel(inputs[..|inputs| - 1], i)
    {
      assert inputs[..|inputs| - 1][..i] == inputs[..i];
    }
  }

  /** Over any history of reports and policy changes: the floor is three levels above
      the level that failed last, as far as the ceiling of that report allows, and zero
      as long as none has failed. */
  lemma {:induction false} FloorIsLastFailure(inputs: seq<Input>)
    ensures
      var i := LastFailure(inputs);
      Run(inputs).floor ==
        if i < 0 then 0 else MinLevel(inputs[i].ceiling, FailedLevel(inputs, i) + FALLBACK_MARGIN)
  {
    hide Step, LastReport;
    if inputs != [] {
      var n := |inputs| - 1;
      var front := inputs[..n];
      FloorIsLastFailure(front);
      KnowsLastReport(front);
      FloorStep(Run(front), inputs[n]);
      hide Run;
      FellBefore(inputs);
    }
  }

  lemma FloorStep(c: ControlState, input: Input)
    ensures
      Step(c, input).floor ==
        if input.Reported? && input.report.fallback && c.known && !c.fallback
        then MinLevel(input.ceiling, c.reportedLevel + FALLBACK_MARGIN) else c.floor
  {
    hide Truncated, Adjusted;
  }

  /** The inputs from `from` on are reports of one level, and a new average starts there. */
  predicate Stretch(inputs: seq<Input>, from: nat)
    requires from < |inputs|
  {
    && inputs[from].Reported?
    && (forall i :: from <= i < |inputs| ==> inputs[i].Reported? && inputs[i].report.level == inputs[from].report.level)
    && (from == 0 || inputs[from - 1].PolicyChanged? || inputs[from - 1].report.level != inputs[from].report.level)
  }

  function RssiSum(inputs: seq<Input>, from: nat, count: nat): int
    requires from + count <= |inputs|
    requires forall i :: from <= i < |inputs| ==> inputs[i].Reported?
  {
    if count == 0 then 0 else RssiSum(inputs, from, count - 1) + inputs[from + count - 1].report.rssi
  }

  lemma {:induction false} RssiSumFront(inputs: seq<Input>, from: nat, count: nat)
    requires from + count < |inputs|
    requires forall i :: from <= i < |inputs| ==> inputs[i].Reported?
    ensures RssiSum(inputs[..|inputs| - 1], from, count) == RssiSum(inputs, from, count)
  {
    if count > 0 {
      RssiSumFront(inputs, from, count - 1);
    }
  }

  /** What is averaged are the first 255 reports since the level or the policy changed;
      later ones are counted out. */
  lemma {:induction false} AverageIsOfStretch(inputs: seq<Input>, from: nat)
    requires from < |inputs| && Stretch(inputs, from)
    ensures
      var count := if |inputs| - from < 0xFF then |inputs| - from else 0xFF;
      Run(inputs).reports == count && Run(inputs).rssiSum == RssiSum(inputs, from, count)
    decreases |inputs|
  {
    hide Step, LastReport;
    var n := |inputs| - 1;
    var front := inputs[..n];
    KnowsLastReport(front);
    AverageStep(Run(front), inputs[n]);
    if from < n {
      AverageIsOfStretch(front, from);
      LastIsReport(front);
      RssiSumFront(inputs, from, if n - from < 0xFF then n - from else 0xFF);
    } else if n > 0 {
      assert front[n - 1] == inputs[n - 1];
      LastIsReport(front);
      if inputs[n - 1].PolicyChanged? {
        JustChanged(front);
      }
      assert RssiSum(inputs, from, 1) == RssiSum(inputs, from, 0) + inputs[n].report.rssi;
    }
  }

  lemma AverageStep(c: ControlState, input: Input)
    requires input.Reported?
    ensures
      var after := Step(c, input);
      var same := c.known && input.report.level == c.reportedLevel;
      if same && c.reports == 0xFF then after.reports == 0xFF && after.rssiSum == c.rssiSum
      else
        && after.reports == (if same then c.reports + 1 else 1)
        && after.rssiSum == (if same then c.rssiSum else 0) + input.report.rssi
  {
    hide Truncated, Adjusted;
  }

  lemma LastIsReport(inputs: seq<Input>)
    requires inputs != []
    ensures inputs[|inputs| - 1].Reported? ==> LastReport(inputs) == |inputs| - 1
  {
  }

  lemma JustChanged(inputs: seq<Input>)
    requires inputs != [] && inputs[|inputs| - 1].PolicyChanged?
    ensures Run(inputs).reports == 0 && Run(inputs).rssiSum == 0
  {
  }

  // ---------------------------------------------------------------- what a history asks for

  lemma Monotone(b: nat, k: nat, n: nat)
    requires k <= n
    ensures 0 <= k * b <= n * b
  {
    assert n * b == k * b + (n - k) * b;
  }

  lemma QuotientBelow(a: nat, b: nat, c: nat)
    requires b > 0
    ensures a / b < c <==> a < c * b
  {
    var q, r := a / b, a % b;
    assert a == q * b + r;
    if q < c {
      Monotone(b, q + 1, c);
      assert (q + 1) * b == q * b + b;
    } else {
      Monotone(b, c, q);
    }
  }

  lemma AverageBands(sum: int, reports: nat)
    requires reports > 0
    ensures Truncated(sum, reports) > TARGET_RSSI_HIGH <==> sum > TARGET_RSSI_HIGH * reports
    ensures Truncated(sum, reports) < TARGET_RSSI_LOW <==> sum <= (TARGET_RSSI_LOW - 1) * reports
  {
    if sum < 0 {
      QuotientBelow(-sum, reports, -TARGET_RSSI_HIGH);
      QuotientBelow(-sum, reports, 1 - TARGET_RSSI_LOW);
    } else {
      QuotientBelow(sum, reports, 0);
    }
  }

  /** The level asked for at the end of a stretch under automatic control, from the
      history alone: with three reports or more it is three below the reported level if
      the first 255 of them average above the window, six above it if below, and inside it
      what was asked for before, or in a fallback the reported level itself; never under
      the floor nor over the ceiling. */
  lemma DecisionOfHistory(inputs: seq<Input>, from: nat)
    requires from + REPORTS_PER_DECISION <= |inputs| && Stretch(inputs, from)
    requires inputs[|inputs| - 1].policy == POLICY_AUTO
    ensures
      var c, last := Run(inputs), inputs[|inputs| - 1];
      var count := if |inputs| - from < 0xFF then |inputs| - from else 0xFF;
      var sum, level := RssiSum(inputs, from, count), last.report.level;
      && (sum > TARGET_RSSI_HIGH * count ==> c.desired == Clipped(level - MAX_STEP_DOWN, c.floor, last.ceiling))
      && (sum <= (TARGET_RSSI_LOW - 1) * count ==> c.desired == Clipped(level + MAX_STEP_UP, c.floor, last.ceiling))
      && (sum <= TARGET_RSSI_HIGH * count && sum > (TARGET_RSSI_LOW - 1) * count ==>
            var asked := if last.report.fallback then level else Run(inputs[..|inputs| - 1]).desired;
            c.desired == Clipped(asked, c.floor, last.ceiling))
  {
    hide Run, RssiSum, Truncated;
    AverageIsOfStretch(inputs, from);
    KnowsLastReport(inputs[..|inputs| - 1]);
    LastIsReport(inputs[..|inputs| - 1]);
    var c := Run(inputs);
    AverageBands(c.rssiSum, c.reports);
    RunLast(inputs);
  }

  lemma RunLast(inputs: seq<Input>)
    requires inputs != []
    ensures Run(inputs) == Step(Run(inputs[..|inputs| - 1]), inputs[|inputs| - 1])
  {
  }

  function Clipped(level: int, floor: byte, ceiling: byte): int {
    var floored := if level < floor then floor as int else level;
    if floored < ceiling then floored else ceiling
  }

  /** Inputs of a stretch that decide nothing: automatic control, no fallback. */
  predicate Undecided(inputs: seq<Input>, from: nat, level: byte)
    requires from <= |inputs|
  {
    forall i :: from <= i < |inputs| ==>
                  && inputs[i].Reported? && inputs[i].policy == POLICY_AUTO
                  && !inputs[i].report.fallback && level <= inputs[i].ceiling
  }

  /** While the first two reports of a level are averaged, what was asked for before is
      still asked for: a target whose acknowledgement was lost is not withdrawn. */
  lemma {:induction false} TargetIsKept(inputs: seq<Input>, from: nat)
    requires from < |inputs| < from + REPORTS_PER_DECISION && Stretch(inputs, from)
    requires LastReport(inputs[..from]) >= 0 && Undecided(inputs, from, Run(inputs[..from]).desired)
    ensures Run(inputs).desired == Run(inputs[..from]).desired
    decreases |inputs|
  {
    var front := inputs[..|inputs| - 1];
    hide Run, Truncated, Adjusted, LastReport;
    RunLast(inputs);
    AverageIsOfStretch(inputs, from);
    KnowsLastReport(front);
    if from < |front| {
      assert front[..from] == inputs[..from];
      TargetIsKept(front, from);
      LastIsReport(front);
    } else {
      assert front == inputs[..from];
    }
  }

  /** What the last input of a history makes wanted: a fixed level within the ceiling, whatever is
      reported; under automatic control just chosen the level last reported; and never
      less than the floor once three reports are averaged. */
  lemma WantedFollowsPolicy(inputs: seq<Input>)
    requires inputs != []
    ensures
      var c, last := Run(inputs), inputs[|inputs| - 1];
      && (last.policy > 0 ==> c.desired == MinLevel(last.policy - 1, last.ceiling))
      && (last.policy == 0 && last.PolicyChanged? && LastReport(inputs) >= 0 ==>
            c.desired == MinLevel(inputs[LastReport(inputs)].report.level, last.ceiling))
      && (last.policy == 0 && last.Reported? && c.reports >= REPORTS_PER_DECISION ==>
            c.desired >= MinLevel(c.floor, last.ceiling))
  {
    hide Recorded, Adjusted, Truncated;
    KnowsLastReport(inputs[..|inputs| - 1]);
  }

  /** So many equal reports of a level inside the window. */
  function Equals(n: nat, ceiling: byte, level: Level, rssi: int16): (inputs: seq<Input>)
    ensures |inputs| == n
  {
    if n == 0 then [] else Equals(n - 1, ceiling, level, rssi) + [Reported(POLICY_AUTO, ceiling, Report(level, false, rssi))]
  }

  lemma {:induction false} EqualReports(n: nat, ceiling: byte, level: Level, rssi: int16)
    requires 0 < n <= 0xFF && level <= ceiling && TARGET_RSSI_LOW <= rssi <= TARGET_RSSI_HIGH
    ensures Run(Equals(n, ceiling, level, rssi)) == ControlState(true, level, false, n, n * rssi, 0, level)
  {
    var inputs := Equals(n, ceiling, level, rssi);
    assert inputs[..n - 1] == Equals(n - 1, ceiling, level, rssi);
    RunLast(inputs);
    var before := Run(inputs[..n - 1]);
    assert n == 1 ==> before == INITIAL;
    hide Run, Equals;
    if n > 1 {
      EqualReports(n - 1, ceiling, level, rssi);
    }
    assert (n - 1) * rssi + rssi == n * rssi;
    EqualStep(before, n - 1, ceiling, level, rssi);
  }

  lemma EqualStep(c: ControlState, n: nat, ceiling: byte, level: Level, rssi: int16)
    requires n < 0xFF && level <= ceiling && TARGET_RSSI_LOW <= rssi <= TARGET_RSSI_HIGH
    requires c == if n == 0 then INITIAL else ControlState(true, level, false, n, n * rssi, 0, level)
    ensures
      Observe(c, POLICY_AUTO, ceiling, Report(level, false, rssi)) ==
        ControlState(true, level, false, n + 1, n * rssi + rssi, 0, level)
  {
    assert (n + 1) * rssi == n * rssi + rssi;
    AverageOfEqual(rssi, n + 1);
    hide Truncated;
  }

  // ---------------------------------------------------------------- the loop over a constant link

  /** The RSSI of each level: constant in time, monotone in the level, and changing by
      at most 11 dB over three levels down or six up. */
  type Link = s: seq<int16> | |s| == 32 witness seq(32, _ => 0)

  predicate Steady(link: Link) {
    && (forall i, j :: 0 <= i <= j < 32 ==> link[i] <= link[j])
    && (forall i, j :: 0 <= i <= j < 32 && j - i <= MAX_STEP_UP ==> link[j] as int - link[i] as int <= 11)
  }

  /** Node and controller; `published` is what acknowledgements carry. */
  datatype Loop = Loop(level: Level, fallback: bool, failures: byte, control: ControlState, published: bool)

  /** One report: heard by the gateway or not, its acknowledgement received or not. The
      acknowledgement leaves before the controller sees the report. */
  datatype Round = Round(heard: bool, acknowledged: bool)

  function CarriedTarget(s: Loop): Target {
    if !s.published || (s.fallback && !s.control.fallback) || s.control.desired == s.level then NoTarget
    else Target(s.control.desired)
  }

  function Next(s: Loop, link: Link, ceiling: Level, round: Round): Loop {
    var control :=
      if round.heard then Observe(s.control, POLICY_AUTO, ceiling, Report(s.level, s.fallback, link[s.level]))
      else s.control;
    var failures: byte :=
      if round.heard && round.acknowledged then 0 else if s.failures < 0xFF then s.failures + 1 else s.failures;
    var decision :=
      if round.heard && round.acknowledged then AfterAcknowledged(s.level, s.fallback, CarriedTarget(s), ceiling)
      else AfterUnacknowledged(s.level, s.fallback, failures, ceiling);
    Loop(decision.level, decision.fallback, failures, control, s.published || round.heard)
  }

  function RunLoop(s: Loop, link: Link, ceiling: Level, rounds: seq<Round>): Loop {
    if rounds == [] then s
    else Next(RunLoop(s, link, ceiling, rounds[..|rounds| - 1]), link, ceiling, rounds[|rounds| - 1])
  }

  /** The level a decision at `level` asks for. */
  function Decide(link: Link, floor: byte, ceiling: Level, level: Level): (next: Level)
    ensures next <= ceiling
  {
    var adjusted :=
      if link[level] > TARGET_RSSI_HIGH then (if level > 3 then level - 3 else 0)
      else if link[level] < TARGET_RSSI_LOW then level + 6
      else level;
    var floored := if adjusted < floor then floor else adjusted;
    if floored < ceiling then floored else ceiling
  }

  /** Levels that suit the link, or are the best there is. */
  predicate Settled(link: Link, floor: byte, ceiling: Level, level: Level) {
    || (TARGET_RSSI_LOW <= link[level] <= TARGET_RSSI_HIGH && level >= floor)
    || (link[level] > TARGET_RSSI_HIGH && (level == 0 || level == floor))
    || (link[level] < TARGET_RSSI_LOW && level == ceiling)
  }

  lemma SettledIsFixed(link: Link, floor: byte, ceiling: Level, level: Level)
    requires floor <= ceiling && level <= ceiling
    ensures Decide(link, floor, ceiling, level) == level <==> Settled(link, floor, ceiling, level) && level >= floor
  {
  }

  /** A decision never overshoots: what it moved away from does not call it back. */
  lemma NoOvershoot(link: Link, floor: byte, ceiling: Level, level: Level)
    requires Steady(link) && floor <= ceiling && level <= ceiling
    ensures
      var next := Decide(link, floor, ceiling, level);
      && next <= ceiling
      && (next > level ==> Decide(link, floor, ceiling, next) >= next)
      && (next < level ==> Decide(link, floor, ceiling, next) <= next)
  {
    var next := Decide(link, floor, ceiling, level);
    if level < next {
      assert next - level <= MAX_STEP_UP ==> link[next] as int - link[level] as int <= 11;
    } else {
      assert link[level] as int - link[next] as int <= 11;
    }
  }

  /** How many moves a level is away from a settled one. */
  function Moves(link: Link, floor: byte, ceiling: Level, level: Level): (moves: nat)
    requires Steady(link) && floor <= ceiling && level <= ceiling
    ensures moves == 0 <==> Decide(link, floor, ceiling, level) == level
    ensures Decide(link, floor, ceiling, level) < level ==> moves <= (level + 2) / 3
    ensures Decide(link, floor, ceiling, level) > level ==> moves <= (ceiling - level + 5) / 6 + 1
    decreases
      var next := Decide(link, floor, ceiling, level);
      if next < level then level else if next > level then ceiling - level else 0
  {
    NoOvershoot(link, floor, ceiling, level);
    var next := Decide(link, floor, ceiling, level);
    if next == level then 0 else 1 + Moves(link, floor, ceiling, next)
  }

  // ---------------------------------------------------------------- consistent states

  /** The controller's average is the link's RSSI at the reported level; what is wanted
      is that level or the one a decision there asks for; the node is at one of them. */
  predicate Consistent(s: Loop, link: Link, ceiling: Level) {
    var c := s.control;
    && !s.fallback && s.level <= ceiling && c.floor <= ceiling && s.published == c.known
    && (c.known ==>
          && !c.fallback && c.reportedLevel <= ceiling && c.rssiSum == c.reports * link[c.reportedLevel]
          && (s.level == c.reportedLevel || s.level == c.desired)
          && (c.desired == c.reportedLevel ||
              (c.reports >= REPORTS_PER_DECISION && c.desired == Decide(link, c.floor, ceiling, c.reportedLevel)))
          && (c.reports >= REPORTS_PER_DECISION ==> c.desired == Decide(link, c.floor, ceiling, c.reportedLevel)))
  }

  /** Without losses enough to fall back. */
  predicate Quiet(s: Loop, link: Link, ceiling: Level, round: Round) {
    !Next(s, link, ceiling, round).fallback
  }

  lemma DivideProduct(a: nat, b: nat)
    requires b > 0
    ensures b * a / b == a
  {
    var q, r := b * a / b, b * a % b;
    assert b * a == b * q + r;
    if a != q {
      var d := if a > q then a - q else q - a;
      assert b * d >= b by { AtLeastOnce(b, d); }
    }
  }

  lemma AtLeastOnce(b: nat, d: nat)
    requires d > 0
    ensures b * d >= b
  {
    assert b * d == b + b * (d - 1);
  }

  /** The average of equal values is that value, truncation or not. */
  lemma AverageOfEqual(rssi: int, reports: nat)
    requires reports > 0
    ensures Truncated(reports * rssi, reports) == rssi
  {
    if rssi >= 0 {
      DivideProduct(rssi, reports);
    } else {
      assert -(reports * rssi) == reports * -rssi;
      AtLeastOnce(reports, -rssi);
      DivideProduct(-rssi, reports);
    }
  }

  /** What the controller does with a report of a steady, constant link. */
  lemma ObserveSteady(s: Loop, link: Link, ceiling: Level)
    requires Consistent(s, link, ceiling)
    ensures
      var c, after := s.control, Observe(s.control, POLICY_AUTO, ceiling, Report(s.level, false, link[s.level]));
      && after.known && !after.fallback && after.reportedLevel == s.level && after.floor == c.floor
      && after.rssiSum == after.reports * link[s.level]
      && after.reports == (if !c.known || c.reportedLevel != s.level then 1
                           else if c.reports < 0xFF then c.reports + 1 else 0xFF)
      && after.desired == if after.reports >= REPORTS_PER_DECISION then Decide(link, c.floor, ceiling, s.level) else s.level
  {
    var c := s.control;
    var r := Recorded(c, ceiling, Report(s.level, false, link[s.level]));
    if c.known && c.reportedLevel == s.level {
      assert (c.reports + 1) * link[s.level] == c.reports * link[s.level] + link[s.level];
    }
    assert r.rssiSum == r.reports * link[s.level];
    AverageOfEqual(link[s.level], r.reports);
  }

  lemma RoundConsistent(s: Loop, link: Link, ceiling: Level, round: Round)
    requires Consistent(s, link, ceiling) && Quiet(s, link, ceiling, round)
    ensures
      var after := Next(s, link, ceiling, round);
      && Consistent(after, link, ceiling) && after.control.floor == s.control.floor
      && (after.level == s.level ||
          (after.level == s.control.desired == Decide(link, s.control.floor, ceiling, s.level) && round.heard && round.acknowledged))
      && (round.heard && round.acknowledged && s.published ==> after.level == s.control.desired)
  {
    hide Observe, Decide;
    if round.heard {
      ObserveSteady(s, link, ceiling);
    }
  }

  // ---------------------------------------------------------------- convergence

  predicate QuietRun(s: Loop, link: Link, ceiling: Level, rounds: seq<Round>) {
    rounds == [] ||
    (QuietRun(s, link, ceiling, rounds[..|rounds| - 1]) &&
     Quiet(RunLoop(s, link, ceiling, rounds[..|rounds| - 1]), link, ceiling, rounds[|rounds| - 1]))
  }

  function Acknowledged(rounds: seq<Round>): nat {
    if rounds == [] then 0
    else
      Acknowledged(rounds[..|rounds| - 1]) +
      if rounds[|rounds| - 1].heard && rounds[|rounds| - 1].acknowledged then 1 else 0
  }

  /** The acknowledged reports still needed: four for every move, and those that
      complete the average at the present level. */
  function Potential(s: Loop, link: Link, ceiling: Level): nat
    requires Steady(link) && Consistent(s, link, ceiling)
  {
    var c := s.control;
    4 * Moves(link, c.floor, ceiling, s.level) +
    if !c.known || s.level != c.reportedLevel then 3 else if c.reports >= 3 then 0 else 3 - c.reports
  }

  lemma MovesBounded(link: Link, floor: byte, ceiling: Level, level: Level)
    requires Steady(link) && floor <= ceiling && level <= ceiling
    ensures Moves(link, floor, ceiling, level) <= 11
  {
    hide Decide;
  }

  lemma RoundApproaches(s: Loop, link: Link, ceiling: Level, round: Round)
    requires Steady(link) && Consistent(s, link, ceiling) && Quiet(s, link, ceiling, round)
    ensures Consistent(Next(s, link, ceiling, round), link, ceiling)
    ensures
      var before, after := Potential(s, link, ceiling), Potential(Next(s, link, ceiling, round), link, ceiling);
      && after <= before
      && (round.heard && round.acknowledged && before > 0 ==> after == before - 1)
  {
    RoundConsistent(s, link, ceiling, round);
    var floor := s.control.floor;
    assert Moves(link, floor, ceiling, s.level) ==
           if Decide(link, floor, ceiling, s.level) == s.level then 0
           else 1 + Moves(link, floor, ceiling, Decide(link, floor, ceiling, s.level));
    hide Observe, Decide, Moves;
    if round.heard {
      ObserveSteady(s, link, ceiling);
    }
  }

  lemma {:induction false} RunApproaches(s: Loop, link: Link, ceiling: Level, rounds: seq<Round>)
    requires Steady(link) && Consistent(s, link, ceiling) && QuietRun(s, link, ceiling, rounds)
    ensures
      var t := RunLoop(s, link, ceiling, rounds);
      && Consistent(t, link, ceiling) && t.control.floor == s.control.floor
      && Potential(t, link, ceiling) <=
           if Acknowledged(rounds) <= Potential(s, link, ceiling) then Potential(s, link, ceiling) - Acknowledged(rounds) else 0
  {
    hide Consistent, Potential, Quiet, Next, Moves, Decide;
    if rounds != [] {
      var front, last := rounds[..|rounds| - 1], rounds[|rounds| - 1];
      RunApproaches(s, link, ceiling, front);
      var t := RunLoop(s, link, ceiling, front);
      RoundConsistent(t, link, ceiling, last);
      RoundApproaches(t, link, ceiling, last);
    }
  }

  /** On a steady link, after at most 47 acknowledged reports among any others, the node
      is and stays at a level inside the window, or at 0 or the floor with too much
      signal, or at the ceiling with too little; and that level is what is wanted. */
  lemma LoopConverges(s: Loop, link: Link, ceiling: Level, rounds: seq<Round>)
    requires Steady(link) && Consistent(s, link, ceiling) && QuietRun(s, link, ceiling, rounds)
    requires Acknowledged(rounds) >= 47
    ensures
      var t := RunLoop(s, link, ceiling, rounds);
      && Settled(link, s.control.floor, ceiling, t.level)
      && t.control.desired == t.control.reportedLevel == t.level
      && forall round :: Quiet(t, link, ceiling, round) ==> Next(t, link, ceiling, round).level == t.level
  {
    RunApproaches(s, link, ceiling, rounds);
    MovesBounded(link, s.control.floor, ceiling, s.level);
    var t := RunLoop(s, link, ceiling, rounds);
    hide Quiet, RunLoop, QuietRun, Acknowledged, Next;
    SettledIsFixed(link, s.control.floor, ceiling, t.level);
    forall round | Quiet(t, link, ceiling, round)
      ensures Next(t, link, ceiling, round).level == t.level
    {
      RoundConsistent(t, link, ceiling, round);
    }
  }

  lemma RoundKeepsDirection(s: Loop, link: Link, ceiling: Level, round: Round)
    requires Steady(link) && Consistent(s, link, ceiling) && Quiet(s, link, ceiling, round)
    ensures
      var floor, before, after := s.control.floor, s.level, Next(s, link, ceiling, round).level;
      && after <= ceiling
      && (Decide(link, floor, ceiling, before) >= before ==> after >= before && Decide(link, floor, ceiling, after) >= after)
      && (Decide(link, floor, ceiling, before) <= before ==> after <= before && Decide(link, floor, ceiling, after) <= after)
  {
    RoundConsistent(s, link, ceiling, round);
    NoOvershoot(link, s.control.floor, ceiling, s.level);
    hide Decide, Next, Steady;
  }

  lemma {:induction false} RunKeepsDirection(s: Loop, link: Link, ceiling: Level, rounds: seq<Round>, i: nat)
    requires Steady(link) && Consistent(s, link, ceiling) && QuietRun(s, link, ceiling, rounds) && i <= |rounds|
    ensures
      var floor := s.control.floor;
      var a, b := RunLoop(s, link, ceiling, rounds[..i]).level, RunLoop(s, link, ceiling, rounds).level;
      && a <= ceiling && b <= ceiling
      && (Decide(link, floor, ceiling, a) >= a ==> b >= a && Decide(link, floor, ceiling, b) >= b)
      && (Decide(link, floor, ceiling, a) <= a ==> b <= a && Decide(link, floor, ceiling, b) <= b)
    decreases |rounds|
  {
    RunApproaches(s, link, ceiling, rounds);
    LevelWithin(RunLoop(s, link, ceiling, rounds), link, ceiling);
    if i == |rounds| {
      assert rounds[..i] == rounds;
    } else {
      hide Consistent, Quiet, Decide, Next;
      var front, last := rounds[..|rounds| - 1], rounds[|rounds| - 1];
      RunKeepsDirection(s, link, ceiling, front, i);
      RunApproaches(s, link, ceiling, front);
      assert front[..i] == rounds[..i];
      RoundKeepsDirection(RunLoop(s, link, ceiling, front), link, ceiling, last);
    }
  }

  lemma LevelWithin(s: Loop, link: Link, ceiling: Level)
    requires Consistent(s, link, ceiling)
    ensures s.level <= ceiling
  {
  }

  lemma {:induction false} QuietPrefix(s: Loop, link: Link, ceiling: Level, rounds: seq<Round>, i: nat)
    requires QuietRun(s, link, ceiling, rounds) && i <= |rounds|
    ensures QuietRun(s, link, ceiling, rounds[..i])
  {
    hide Quiet;
    if i == |rounds| {
      assert rounds[..i] == rounds;
    } else {
      var front := rounds[..|rounds| - 1];
      QuietPrefix(s, link, ceiling, front, i);
      assert front[..i] == rounds[..i];
    }
  }

  /** The level never reverses its direction: once it has risen it never falls again,
      and once it has fallen it never rises. */
  lemma NeverReverses(s: Loop, link: Link, ceiling: Level, rounds: seq<Round>, i: nat, j: nat)
    requires Steady(link) && Consistent(s, link, ceiling) && QuietRun(s, link, ceiling, rounds)
    requires i <= j <= |rounds|
    ensures
      var a := RunLoop(s, link, ceiling, rounds[..i]).level;
      var b := RunLoop(s, link, ceiling, rounds[..j]).level;
      var c := RunLoop(s, link, ceiling, rounds).level;
      (b > a ==> c >= b) && (b < a ==> c <= b)
  {
    hide Steady, Consistent, QuietRun, RunLoop, Decide;
    QuietPrefix(s, link, ceiling, rounds, j);
    assert rounds[..j][..i] == rounds[..i];
    RunKeepsDirection(s, link, ceiling, rounds[..j], i);
    RunKeepsDirection(s, link, ceiling, rounds, j);
  }

  /** Steeper links can oscillate: 12 dB between two levels are enough. */
  lemma SteepLinkOscillates(link: Link)
    requires forall i :: 0 <= i < 32 ==> link[i] == if i < 10 then -86 else -74
    ensures Decide(link, 0, 31, 10) == 7 && Decide(link, 0, 31, 7) == 13 && Decide(link, 0, 31, 13) == 10
  {
  }

  // ---------------------------------------------------------------- fallbacks

  function RunAny(s: Loop, ceiling: Level, rounds: seq<(Link, Round)>): Loop {
    if rounds == [] then s
    else
      var last := rounds[|rounds| - 1];
      Next(RunAny(s, ceiling, rounds[..|rounds| - 1]), last.0, ceiling, last.1)
  }

  /** Neither the node nor what is wanted is below the floor. */
  predicate AboveFloor(s: Loop, ceiling: Level) {
    var c := s.control;
    && s.level <= ceiling && c.floor <= ceiling && c.floor <= s.level && s.published == c.known
    && (s.fallback ==> s.level == ceiling)
    && (if c.known then c.floor <= c.desired && c.floor <= c.reportedLevel else c.floor == 0 && !c.fallback)
  }

  lemma RoundAboveFloor(s: Loop, link: Link, ceiling: Level, round: Round)
    requires AboveFloor(s, ceiling)
    ensures
      var after := Next(s, link, ceiling, round);
      && AboveFloor(after, ceiling) && s.control.floor <= after.control.floor
      && (round.heard && s.fallback && s.control.known && !s.control.fallback ==>
            after.control.floor == MinLevel(ceiling, s.control.reportedLevel + FALLBACK_MARGIN))
  {
    hide Truncated, Adjusted;
  }

  /** Over any losses, fallbacks and changes of the link: once the gateway has seen a
      fallback from a level it had seen, the node never again goes below three levels
      above it, as far as the ceiling allows. */
  lemma {:induction false} FloorNeverCrossed(s: Loop, ceiling: Level, rounds: seq<(Link, Round)>, i: nat)
    requires AboveFloor(s, ceiling) && i <= |rounds|
    ensures
      var a, b := RunAny(s, ceiling, rounds[..i]), RunAny(s, ceiling, rounds);
      AboveFloor(b, ceiling) && a.control.floor <= b.control.floor <= b.level
    decreases |rounds|
  {
    hide Next, AboveFloor;
    if rounds == [] {
      FloorBelow(s, ceiling);
    } else {
      var front, last := rounds[..|rounds| - 1], rounds[|rounds| - 1];
      FloorNeverCrossed(s, ceiling, front, if i < |rounds| then i else |front|);
      RoundAboveFloor(RunAny(s, ceiling, front), last.0, ceiling, last.1);
      FloorBelow(RunAny(s, ceiling, rounds), ceiling);
      assert i < |rounds| ==> front[..i] == rounds[..i];
      assert i == |rounds| ==> rounds[..i] == rounds;
    }
  }

  // ---------------------------------------------------------------- when a node falls back

  /** The rounds without acknowledgement at the end of a run. */
  function Unanswered(rounds: seq<(Link, Round)>): (n: nat)
    ensures n <= |rounds|
  {
    if rounds == [] || (rounds[|rounds| - 1].1.heard && rounds[|rounds| - 1].1.acknowledged) then 0
    else 1 + Unanswered(rounds[..|rounds| - 1])
  }

  lemma {:induction false} FailuresCounted(s: Loop, ceiling: Level, rounds: seq<(Link, Round)>)
    requires s.failures == 0 && s.level <= ceiling
    ensures
      var t, n := RunAny(s, ceiling, rounds), Unanswered(rounds);
      && t.failures == (if n < 0xFF then n else 0xFF) && t.level <= ceiling
      && (n >= FALLBACK_REPORTS ==> t.level == ceiling)
  {
    hide Observe;
    if rounds != [] {
      FailuresCounted(s, ceiling, rounds[..|rounds| - 1]);
    }
  }

  /** What a node does after each round of any run. It falls back, to the ceiling, exactly
      with the third round in a row that is not acknowledged, or a later one, unless it is
      at the ceiling. It takes the level an acknowledgement carries, within the ceiling,
      and that ends a fallback; otherwise it stays as it is. */
  lemma NodeFollows(s: Loop, ceiling: Level, rounds: seq<(Link, Round)>)
    requires s.failures == 0 && s.level <= ceiling && rounds != []
    ensures
      var u, t := RunAny(s, ceiling, rounds[..|rounds| - 1]), RunAny(s, ceiling, rounds);
      var last, target := rounds[|rounds| - 1].1, CarriedTarget(u);
      if last.heard && last.acknowledged then
        if target.Target? then t.level == (if target.level <= ceiling then target.level else ceiling) && !t.fallback
        else t.level == u.level && t.fallback == u.fallback
      else if Unanswered(rounds) >= 3 && u.level < ceiling then t.level == ceiling && t.fallback
      else t.level == u.level && t.fallback == u.fallback
  {
    FailuresCounted(s, ceiling, rounds[..|rounds| - 1]);
    hide Observe;
  }

  predicate NeverFallsBack(s: Loop, ceiling: Level, rounds: seq<(Link, Round)>) {
    rounds == [] ||
    (NeverFallsBack(s, ceiling, rounds[..|rounds| - 1]) && !RunAny(s, ceiling, rounds).fallback)
  }

  /** Whenever three rounds in a row were not acknowledged, the node was at its ceiling. */
  predicate NeverDriven(s: Loop, ceiling: Level, rounds: seq<(Link, Round)>) {
    rounds == [] ||
    (NeverDriven(s, ceiling, rounds[..|rounds| - 1]) &&
     (Unanswered(rounds) >= 3 ==> RunAny(s, ceiling, rounds[..|rounds| - 1]).level == ceiling))
  }

  lemma {:induction false} FallsBackExactly(s: Loop, ceiling: Level, rounds: seq<(Link, Round)>)
    requires s.failures == 0 && s.level <= ceiling && !s.fallback
    ensures NeverFallsBack(s, ceiling, rounds) <==> NeverDriven(s, ceiling, rounds)
  {
    hide Next;
    if rounds != [] {
      var front := rounds[..|rounds| - 1];
      FallsBackExactly(s, ceiling, front);
      NodeFollows(s, ceiling, rounds);
      FailuresCounted(s, ceiling, front);
      assert NeverFallsBack(s, ceiling, front) ==> !RunAny(s, ceiling, front).fallback;
      hide RunAny;
    }
  }

  lemma FloorBelow(s: Loop, ceiling: Level)
    requires AboveFloor(s, ceiling)
    ensures s.control.floor <= s.level
  {
  }

  /** The guard on acknowledgements is needed: one that carried the target computed
      before the fallback was seen would send the node back below the new floor. */
  lemma UnguardedTargetCrosses(link: Link)
    ensures
      var c := ControlState(true, 3, false, 1, link[3], 0, 3);
      var s := Loop(20, true, 3, c, true);
      && AboveFloor(s, 20) && CarriedTarget(s) == NoTarget
      && AfterAcknowledged(s.level, s.fallback, Target(c.desired), 20).level <
           Next(s, link, 20, Round(true, true)).control.floor
  {
  }
}
