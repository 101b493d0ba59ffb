/**
 * Variable share difficulty. `Observe`, `Ticked` and `Rebind` give the controller's
 * transitions as functions on numeric targets; the class runs them on byte arrays.
 */
module Vardiff {
  import opened Bytes
  import opened Common
  import opened Target
  import opened WideArithmetic

  const BASIS_POINTS: nat := 10_000
  const MINIMUM_SAMPLE_INTERVALS: nat := 8
  const MINIMUM_SAMPLE_WINDOW_MS: nat := 60_000
  const MINIMUM_HYSTERESIS_BPS: nat := 2_500
  const MAXIMUM_ADJUSTMENT_FACTOR: nat := 4

  datatype VardiffError =
    | InvalidConfig
    | TargetPolicy(cause: TargetError)
    | ClockMovedBackwards
    | IntervalOverflow
    | SampleCounterOverflow
    | RevisionOverflow

  datatype Config = Config(
    sampleIntervals: u32,
    sampleWindowMs: u64,
    hysteresisBps: nat,
    maximumAdjustmentFactor: u32,
    operatorEasiest: ShareTarget)
  {
    ghost predicate Valid() {
      && MINIMUM_SAMPLE_INTERVALS <= sampleIntervals
      && MINIMUM_SAMPLE_WINDOW_MS <= sampleWindowMs
      && MINIMUM_HYSTERESIS_BPS <= hysteresisBps < BASIS_POINTS
      && 1 <= maximumAdjustmentFactor <= MAXIMUM_ADJUSTMENT_FACTOR
    }
  }

  function NewConfig(targetIntervalMs: u64, sampleIntervals: u32, hysteresisBps: nat, factor: u32, easiest: ShareTarget)
    : (r: Result<Config, VardiffError>)
    ensures r.Success? <==>
            && MINIMUM_SAMPLE_INTERVALS <= sampleIntervals
            && MINIMUM_SAMPLE_WINDOW_MS <= targetIntervalMs * sampleIntervals <= U64_MAX
            && MINIMUM_HYSTERESIS_BPS <= hysteresisBps < BASIS_POINTS
            && 1 <= factor <= MAXIMUM_ADJUSTMENT_FACTOR
    ensures r.Success? ==>
              && r.value.Valid() && r.value.operatorEasiest == easiest
              && r.value.sampleIntervals == sampleIntervals && r.value.sampleWindowMs == targetIntervalMs * sampleIntervals
              && r.value.hysteresisBps == hysteresisBps && r.value.maximumAdjustmentFactor == factor
    ensures r.Failure? ==> (r.error == IntervalOverflow <==> targetIntervalMs * sampleIntervals > U64_MAX)
  {
    var window: int := targetIntervalMs * sampleIntervals;
    if window > U64_MAX then Failure(IntervalOverflow)
    else if sampleIntervals < MINIMUM_SAMPLE_INTERVALS || window < MINIMUM_SAMPLE_WINDOW_MS
            || !(MINIMUM_HYSTERESIS_BPS <= hysteresisBps < BASIS_POINTS)
            || !(1 <= factor <= MAXIMUM_ADJUSTMENT_FACTOR) then Failure(InvalidConfig)
    else Success(Config(sampleIntervals, window, hysteresisBps, factor, easiest))
  }

  datatype Update =
    | Sampling(observedIntervals: nat, requiredIntervals: nat)
    | IgnoredStaleBinding
    | Unchanged(binding: TargetBinding)
    | Changed(previous: TargetBinding, current: TargetBinding)

  datatype State = State(
    binding: TargetBinding,
    windowStartMs: Option<u64>,
    observedIntervals: u32,
    lastNowMs: Option<u64>)

  ghost predicate StateValid(c: Config, s: State)
  {
    && c.Valid()
    && s.binding.Valid() && s.binding.revision <= U64_MAX
    && s.binding.bounds.easiestAllowed == c.operatorEasiest
    && (s.windowStartMs.None? ==> s.observedIntervals == 0)
    && (s.windowStartMs.Some? ==> s.lastNowMs.Some? && s.windowStartMs.value <= s.lastNowMs.value)
  }

  // ---------------------------------------------------------------- numeric retargeting

  function ClampInt(x: int, low: int, high: int): (r: int)
    requires low <= high
    ensures low <= r <= high
  {
    if x < low then low else if x > high then high else x
  }

  function HardestStep(t: nat, factor: nat): nat
    requires factor > 0
  {
    MaxOf(1, t / factor)
  }

  function EasiestStep(t: nat, factor: nat): nat {
    MinOf(MAX_VALUE, t * factor)
  }

  /** Neither of the controller's two `clamp` calls can see crossed limits. */
  lemma StepsAreOrdered(t: nat, factor: nat)
    requires 1 <= t <= MAX_VALUE && factor >= 1
    ensures 1 <= HardestStep(t, factor) <= t <= EasiestStep(t, factor)
  {
    QuotientAtMost(t, factor);
    MulGap(0, factor, t);
    MulGap(1, factor, t);
  }

  /** The target after a completed sample window. */
  function SampledValue(t: nat, elapsed: nat, expected: nat, factor: nat, low: nat, high: nat): (v: nat)
    requires 1 <= t <= MAX_VALUE && expected > 0 && factor >= 1 && 1 <= low <= high <= MAX_VALUE
    ensures low <= v <= high
  {
    StepsAreOrdered(t, factor);
    ClampInt(ClampInt(ScaledValue(t, elapsed, expected), HardestStep(t, factor), EasiestStep(t, factor)), low, high)
  }

  /** The target after a silent window. */
  function TickedValue(t: nat, elapsed: nat, expected: nat, factor: nat, low: nat, high: nat): (v: nat)
    requires 1 <= t <= MAX_VALUE && expected > 0 && factor >= 1 && 1 <= low <= high <= MAX_VALUE
    ensures low <= v <= high
  {
    StepsAreOrdered(t, factor);
    ClampInt(ClampInt(ScaledValue(t, elapsed, expected), t, EasiestStep(t, factor)), low, high)
  }

  lemma ScalingDirection(t: nat, elapsed: nat, expected: nat)
    requires 1 <= t <= MAX_VALUE && expected > 0
    ensures elapsed <= expected ==> ScaledValue(t, elapsed, expected) <= t
    ensures elapsed >= expected ==> ScaledValue(t, elapsed, expected) >= t
  {
    QuotientDirection(t, elapsed, expected);
  }

  lemma QuotientDirection(t: nat, elapsed: nat, expected: nat)
    requires expected > 0
    ensures elapsed <= expected ==> t * elapsed / expected <= t
    ensures elapsed >= expected ==> t * elapsed / expected >= t
  {
    QuotientUnique(t * expected, expected, t, 0);
    if elapsed <= expected {
      MulMonotone(t, elapsed, expected);
      DivMonotone(t * elapsed, t * expected, expected);
    }
    if elapsed >= expected {
      MulMonotone(t, expected, elapsed);
      DivMonotone(t * expected, t * elapsed, expected);
    }
  }

  lemma MulMonotone(t: nat, x: nat, y: nat)
    requires x <= y
    ensures t * x <= t * y
  {
  }

  lemma DivMonotone(x: nat, y: nat, d: nat)
    requires x <= y && d > 0
    ensures x / d <= y / d
  {
    MulGap(y / d, x / d, d);
    assert x / d * d <= x && y < y / d * d + d;
  }

  /** Fast windows never ease a target; slow windows and ticks never harden it. */
  lemma RetargetDirection(t: nat, elapsed: nat, expected: nat, factor: nat, low: nat, high: nat)
    requires 1 <= low <= t <= high <= MAX_VALUE && expected > 0 && factor >= 1
    ensures elapsed <= expected ==> SampledValue(t, elapsed, expected, factor, low, high) <= t
    ensures elapsed >= expected ==> SampledValue(t, elapsed, expected, factor, low, high) >= t
    ensures TickedValue(t, elapsed, expected, factor, low, high) >= t
    ensures HardestStep(t, factor) <= SampledValue(t, elapsed, expected, factor, low, high) <= EasiestStep(t, factor)
    ensures TickedValue(t, elapsed, expected, factor, low, high) <= EasiestStep(t, factor)
  {
    ScalingDirection(t, elapsed, expected);
    StepsAreOrdered(t, factor);
  }

  // ---------------------------------------------------------------- transitions

  datatype Outcome = Outcome(state: State, result: Result<Update, VardiffError>)

  predicate ClockRegressed(s: State, nowMs: u64) {
    s.lastNowMs.Some? && nowMs < s.lastNowMs.value
  }

  function AbsDiff(x: nat, y: nat): nat {
    if x <= y then y - x else x - y
  }

  /** Installs `v` under the next revision, or keeps the binding when nothing moves. */
  function Install(s: State, v: nat, nowMs: u64): (o: Outcome)
    requires 1 <= v <= MAX_VALUE
  {
    var previous := s.binding;
    if v == Value(previous.target) then
      Outcome(s.(windowStartMs := Some(nowMs), observedIntervals := 0), Success(Unchanged(previous)))
    else if previous.revision >= U64_MAX then
      Outcome(s, Failure(RevisionOverflow))
    else
      var next := TargetBinding(previous.revision + 1, TargetOf(v), previous.bounds);
      Outcome(s.(binding := next, windowStartMs := Some(nowMs), observedIntervals := 0),
              Success(Changed(previous, next)))
  }

  predicate InsideHysteresis(c: Config, elapsed: nat) {
    AbsDiff(elapsed, c.sampleWindowMs) * BASIS_POINTS <= c.sampleWindowMs * c.hysteresisBps
  }

  predicate TooSlow(c: Config, elapsed: nat) {
    elapsed > c.sampleWindowMs && (elapsed - c.sampleWindowMs) * BASIS_POINTS > c.sampleWindowMs * c.hysteresisBps
  }

  function WindowElapsed(s: State, nowMs: u64): nat {
    if s.windowStartMs.Some? && s.windowStartMs.value <= nowMs then nowMs - s.windowStartMs.value else 0
  }

  /** A share on the current binding, given the hysteresis verdict and the retargeted value. */
  function ObserveWith(c: Config, s: State, nowMs: u64, inside: bool, v: nat): (o: Outcome)
    requires 1 <= v <= MAX_VALUE
  {
    if ClockRegressed(s, nowMs) then
      Outcome(s, Failure(ClockMovedBackwards))
    else
      CountWith(c, s.(lastNowMs := Some(nowMs)), nowMs, inside, v)
  }

  function CountWith(c: Config, s: State, nowMs: u64, inside: bool, v: nat): (o: Outcome)
    requires 1 <= v <= MAX_VALUE
  {
    if s.windowStartMs.None? then
      Outcome(s.(windowStartMs := Some(nowMs)), Success(Sampling(0, c.sampleIntervals)))
    else if s.observedIntervals == U32_MAX then
      Outcome(s, Failure(SampleCounterOverflow))
    else
      var counted := s.(observedIntervals := s.observedIntervals + 1);
      if counted.observedIntervals < c.sampleIntervals then
        Outcome(counted, Success(Sampling(counted.observedIntervals, c.sampleIntervals)))
      else
        Conclude(counted, nowMs, inside, v)
  }

  /** A full sample window either sits inside the hysteresis band or retargets. */
  function Conclude(s: State, nowMs: u64, inside: bool, v: nat): (o: Outcome)
    requires 1 <= v <= MAX_VALUE
  {
    if inside then
      Outcome(s.(windowStartMs := Some(nowMs), observedIntervals := 0), Success(Unchanged(s.binding)))
    else
      Install(s, v, nowMs)
  }

  function SampledTarget(c: Config, b: TargetBinding, elapsed: nat): (v: nat)
    requires c.Valid() && b.Valid()
    ensures Value(b.bounds.hardestAllowed) <= v <= Value(b.bounds.easiestAllowed)
  {
    SampledValue(Value(b.target), elapsed, c.sampleWindowMs, c.maximumAdjustmentFactor,
                 Value(b.bounds.hardestAllowed), Value(b.bounds.easiestAllowed))
  }

  function Observe(c: Config, s: State, submitted: TargetBinding, nowMs: u64): (o: Outcome)
    requires StateValid(c, s)
  {
    if submitted != s.binding then Outcome(s, Success(IgnoredStaleBinding)) else ObserveCurrent(c, s, nowMs)
  }

  function ObserveCurrent(c: Config, s: State, nowMs: u64): (o: Outcome)
    requires StateValid(c, s)
  {
    var elapsed := WindowElapsed(s, nowMs);
    ObserveWith(c, s, nowMs, InsideHysteresis(c, elapsed), SampledTarget(c, s.binding, elapsed))
  }

  /** A clock tick, given whether the window is overdue and the eased value. */
  function TickedWith(c: Config, s: State, nowMs: u64, overdue: bool, v: nat): (o: Outcome)
    requires 1 <= v <= MAX_VALUE
  {
    if ClockRegressed(s, nowMs) then
      Outcome(s, Failure(ClockMovedBackwards))
    else
      var seen := s.(lastNowMs := Some(nowMs));
      if s.windowStartMs.None? then
        Outcome(seen.(windowStartMs := Some(nowMs)), Success(Sampling(s.observedIntervals, c.sampleIntervals)))
      else if !overdue then
        Outcome(seen, Success(Sampling(s.observedIntervals, c.sampleIntervals)))
      else
        Install(seen, v, nowMs)
  }

  function TickedTarget(c: Config, b: TargetBinding, elapsed: nat): (v: nat)
    requires c.Valid() && b.Valid()
    ensures Value(b.bounds.hardestAllowed) <= v <= Value(b.bounds.easiestAllowed)
  {
    TickedValue(Value(b.target), elapsed, c.sampleWindowMs, c.maximumAdjustmentFactor,
                Value(b.bounds.hardestAllowed), Value(b.bounds.easiestAllowed))
  }

  function Ticked(c: Config, s: State, nowMs: u64): (o: Outcome)
    requires StateValid(c, s)
  {
    var elapsed := WindowElapsed(s, nowMs);
    TickedWith(c, s, nowMs, TooSlow(c, elapsed), TickedTarget(c, s.binding, elapsed))
  }

  datatype RebindOutcome = RebindOutcome(state: State, result: Result<TargetBinding, VardiffError>)

  function Rebind(c: Config, s: State, wcash: ShareTarget, zcash: ShareTarget): (o: RebindOutcome)
    requires StateValid(c, s)
  {
    var bounds := NewBounds(wcash, zcash, c.operatorEasiest);
    if bounds.Failure? then
      RebindOutcome(s, Failure(TargetPolicy(bounds.error)))
    else if bounds.value == s.binding.bounds then
      RebindOutcome(s, Success(s.binding))
    else if s.binding.revision >= U64_MAX then
      RebindOutcome(s, Failure(RevisionOverflow))
    else
      var next := TargetBinding(s.binding.revision + 1, bounds.value.Clamped(s.binding.target), bounds.value);
      RebindOutcome(s.(binding := next, windowStartMs := None, observedIntervals := 0), Success(next))
  }

  // ---------------------------------------------------------------- whole runs

  datatype Op =
    | ObserveShare(submitted: TargetBinding, nowMs: u64)
    | TickAt(nowMs: u64)
    | UpdateNetworkTargets(wcash: ShareTarget, zcash: ShareTarget)

  function Step(c: Config, s: State, op: Op): (s': State)
    requires StateValid(c, s)
  {
    match op
    case ObserveShare(submitted, nowMs) => Observe(c, s, submitted, nowMs).state
    case TickAt(nowMs) => Ticked(c, s, nowMs).state
    case UpdateNetworkTargets(wcash, zcash) => Rebind(c, s, wcash, zcash).state
  }

  ghost predicate Advances(c: Config, s: State, s': State)
  {
    && StateValid(c, s')
    && (s'.binding == s.binding || s'.binding.revision == s.binding.revision + 1)
    && (s.lastNowMs.Some? ==> s'.lastNowMs.Some? && s.lastNowMs.value <= s'.lastNowMs.value)
  }

  lemma InstallAdvances(c: Config, s: State, v: nat, nowMs: u64)
    requires StateValid(c, s) && s.lastNowMs == Some(nowMs)
    requires Value(s.binding.bounds.hardestAllowed) <= v <= Value(s.binding.bounds.easiestAllowed)
    ensures Advances(c, s, Install(s, v, nowMs).state)
  {
  }

  lemma ObserveAdvances(c: Config, s: State, nowMs: u64, inside: bool, v: nat)
    requires StateValid(c, s)
    requires Value(s.binding.bounds.hardestAllowed) <= v <= Value(s.binding.bounds.easiestAllowed)
    ensures Advances(c, s, ObserveWith(c, s, nowMs, inside, v).state)
  {
    if s.windowStartMs.Some? && !ClockRegressed(s, nowMs) && s.observedIntervals < U32_MAX {
      InstallAdvances(c, s.(lastNowMs := Some(nowMs), observedIntervals := s.observedIntervals + 1), v, nowMs);
    }
  }

  lemma TickAdvances(c: Config, s: State, nowMs: u64, overdue: bool, v: nat)
    requires StateValid(c, s)
    requires Value(s.binding.bounds.hardestAllowed) <= v <= Value(s.binding.bounds.easiestAllowed)
    ensures Advances(c, s, TickedWith(c, s, nowMs, overdue, v).state)
  {
  }

  /** Recording the time first changes nothing the share decides. */
  lemma ObserveSeen(c: Config, s: State, nowMs: u64, inside: bool, v: nat)
    requires StateValid(c, s) && 1 <= v <= MAX_VALUE && !ClockRegressed(s, nowMs)
    ensures StateValid(c, s.(lastNowMs := Some(nowMs)))
    ensures CountWith(c, s.(lastNowMs := Some(nowMs)), nowMs, inside, v) == ObserveWith(c, s, nowMs, inside, v)
  {
  }

  /** Recording the time first changes nothing the tick decides. */
  lemma TickSeen(c: Config, s: State, nowMs: u64, overdue: bool, v: nat)
    requires StateValid(c, s) && 1 <= v <= MAX_VALUE && !ClockRegressed(s, nowMs)
    ensures StateValid(c, s.(lastNowMs := Some(nowMs)))
    ensures TickedWith(c, s.(lastNowMs := Some(nowMs)), nowMs, overdue, v) == TickedWith(c, s, nowMs, overdue, v)
  {
  }

  /** One step keeps the controller valid and either keeps the binding or raises its revision by one. */
  lemma StepKeepsBindingSafe(c: Config, s: State, op: Op)
    requires StateValid(c, s)
    ensures Advances(c, s, Step(c, s, op))
  {
    match op
    case ObserveShare(submitted, nowMs) =>
      var elapsed := WindowElapsed(s, nowMs);
      ObserveAdvances(c, s, nowMs, InsideHysteresis(c, elapsed), SampledTarget(c, s.binding, elapsed));
    case TickAt(nowMs) =>
      var elapsed := WindowElapsed(s, nowMs);
      TickAdvances(c, s, nowMs, TooSlow(c, elapsed), TickedTarget(c, s.binding, elapsed));
    case UpdateNetworkTargets(wcash, zcash) =>
      var bounds := NewBounds(wcash, zcash, c.operatorEasiest);
  }

  /** What an installed value means for the numeric target. */
  lemma ObserveMoves(c: Config, s: State, nowMs: u64, inside: bool, v: nat)
    requires 1 <= v <= MAX_VALUE
    ensures var b := ObserveWith(c, s, nowMs, inside, v).state.binding;
            b == s.binding || (b.bounds == s.binding.bounds && Value(b.target) == v && s.windowStartMs.Some? && !ClockRegressed(s, nowMs))
  {
  }

  lemma TickMoves(c: Config, s: State, nowMs: u64, overdue: bool, v: nat)
    requires 1 <= v <= MAX_VALUE
    ensures var b := TickedWith(c, s, nowMs, overdue, v).state.binding;
            b == s.binding || (b.bounds == s.binding.bounds && Value(b.target) == v && s.windowStartMs.Some? && !ClockRegressed(s, nowMs))
  {
  }

  /** How far, and in which direction, one accepted-share retarget may move. */
  lemma ObserveIsBounded(c: Config, s: State, submitted: TargetBinding, nowMs: u64)
    requires StateValid(c, s)
    ensures var b := Observe(c, s, submitted, nowMs).state.binding;
            var t, t', f := Value(s.binding.target), Value(b.target), c.maximumAdjustmentFactor;
            && b.bounds == s.binding.bounds
            && Value(b.bounds.hardestAllowed) <= t' <= Value(b.bounds.easiestAllowed)
            && HardestStep(t, f) <= t' <= EasiestStep(t, f)
            && (WindowElapsed(s, nowMs) <= c.sampleWindowMs ==> t' <= t)
            && (WindowElapsed(s, nowMs) >= c.sampleWindowMs ==> t' >= t)
  {
    var elapsed := WindowElapsed(s, nowMs);
    var t := Value(s.binding.target);
    StepsAreOrdered(t, c.maximumAdjustmentFactor);
    RetargetDirection(t, elapsed, c.sampleWindowMs, c.maximumAdjustmentFactor,
                      Value(s.binding.bounds.hardestAllowed), Value(s.binding.bounds.easiestAllowed));
    ObserveMoves(c, s, nowMs, InsideHysteresis(c, elapsed), SampledTarget(c, s.binding, elapsed));
  }

  /** A tick can only ease, by at most one step, inside the bounds. */
  lemma TickIsBounded(c: Config, s: State, nowMs: u64)
    requires StateValid(c, s)
    ensures var b := Ticked(c, s, nowMs).state.binding;
            var t, t' := Value(s.binding.target), Value(b.target);
            && b.bounds == s.binding.bounds
            && Value(b.bounds.hardestAllowed) <= t' <= Value(b.bounds.easiestAllowed)
            && t <= t' <= EasiestStep(t, c.maximumAdjustmentFactor)
  {
    var elapsed := WindowElapsed(s, nowMs);
    var t := Value(s.binding.target);
    StepsAreOrdered(t, c.maximumAdjustmentFactor);
    RetargetDirection(t, elapsed, c.sampleWindowMs, c.maximumAdjustmentFactor,
                      Value(s.binding.bounds.hardestAllowed), Value(s.binding.bounds.easiestAllowed));
    TickMoves(c, s, nowMs, TooSlow(c, elapsed), TickedTarget(c, s.binding, elapsed));
  }

  // ---------------------------------------------------------------- the rule in whole numbers

  /** The old target scaled by elapsed over expected time, within one step and then within the bounds. */
  function Retargeted(t: nat, elapsed: nat, expected: nat, hardest: int, easiest: int, low: int, high: int): int
    requires expected > 0
  {
    MaxOf(low, MinOf(high, MaxOf(hardest, MinOf(easiest, t * elapsed / expected))))
  }

  lemma SampledIsRetargeted(t: nat, elapsed: nat, expected: nat, factor: nat, low: nat, high: nat)
    requires 1 <= t <= MAX_VALUE && expected > 0 && factor >= 1 && 1 <= low <= high <= MAX_VALUE
    ensures SampledValue(t, elapsed, expected, factor, low, high)
         == Retargeted(t, elapsed, expected, MaxOf(1, t / factor), MinOf(t * factor, MAX_VALUE), low, high)
    ensures TickedValue(t, elapsed, expected, factor, low, high)
         == Retargeted(t, elapsed, expected, t, MinOf(t * factor, MAX_VALUE), low, high)
  {
    StepsAreOrdered(t, factor);
    var q, hardest, easiest := t * elapsed / expected, MaxOf(1, t / factor), MinOf(t * factor, MAX_VALUE);
    assert HardestStep(t, factor) == hardest && EasiestStep(t, factor) == easiest;
    ClampedScale(q, hardest, easiest, low, high);
    ClampedScale(q, t, easiest, low, high);
  }

  /** Raising a quotient to one and cutting it at 256 bits does not show through the clamps. */
  lemma ClampedScale(q: int, hardest: int, easiest: int, low: int, high: int)
    requires 1 <= hardest <= easiest <= MAX_VALUE && low <= high
    ensures ClampInt(ClampInt(MaxOf(1, MinOf(MAX_VALUE, q)), hardest, easiest), low, high)
         == MaxOf(low, MinOf(high, MaxOf(hardest, MinOf(easiest, q))))
  {
  }

  /** A window's length is inside the band when it is within `hysteresisBps` ten-thousandths of the expected one. */
  lemma BandIsSymmetric(c: Config, elapsed: nat)
    requires c.Valid()
    ensures InsideHysteresis(c, elapsed) <==>
            c.sampleWindowMs * (BASIS_POINTS - c.hysteresisBps) <= elapsed * BASIS_POINTS <= c.sampleWindowMs * (BASIS_POINTS + c.hysteresisBps)
    ensures TooSlow(c, elapsed) <==> elapsed * BASIS_POINTS > c.sampleWindowMs * (BASIS_POINTS + c.hysteresisBps)
  {
    var w, b := c.sampleWindowMs, c.hysteresisBps;
    assert w * (BASIS_POINTS - b) == w * BASIS_POINTS - w * b;
    assert w * (BASIS_POINTS + b) == w * BASIS_POINTS + w * b;
    assert w * b >= 0;
  }

  /** The outcome of closing a window with the value `v`: a new revision exactly when `v` is not the old value. */
  ghost predicate Closes(s: State, o: Outcome, v: nat, nowMs: u64) {
    if v == Value(s.binding.target) then
      o == Outcome(s.(windowStartMs := Some(nowMs), observedIntervals := 0), Success(Unchanged(s.binding)))
    else if s.binding.revision == U64_MAX then
      o == Outcome(s, Failure(RevisionOverflow))
    else
      var next := o.state.binding;
      && next.revision == s.binding.revision + 1 && Value(next.target) == v && next.bounds == s.binding.bounds
      && o == Outcome(s.(binding := next, windowStartMs := Some(nowMs), observedIntervals := 0), Success(Changed(s.binding, next)))
  }

  lemma InstallCloses(s: State, v: nat, nowMs: u64)
    requires 1 <= v <= MAX_VALUE && s.binding.revision <= U64_MAX
    ensures Closes(s, Install(s, v, nowMs), v, nowMs)
  {
  }

  /**
   * A share, exactly. A stale binding or a clock gone back changes nothing; the first share
   * opens the window; the others are counted; the one that completes the sample keeps the
   * target inside the hysteresis band and otherwise retargets it by the rule.
   */
  lemma ObserveExactly(c: Config, s: State, submitted: TargetBinding, nowMs: u64)
    requires StateValid(c, s)
    ensures var o, seen := Observe(c, s, submitted, nowMs), s.(lastNowMs := Some(nowMs));
            if submitted != s.binding then o == Outcome(s, Success(IgnoredStaleBinding))
            else if s.lastNowMs.Some? && nowMs < s.lastNowMs.value then o == Outcome(s, Failure(ClockMovedBackwards))
            else if s.windowStartMs.None? then
              o == Outcome(seen.(windowStartMs := Some(nowMs)), Success(Sampling(0, c.sampleIntervals)))
            else if s.observedIntervals == U32_MAX then o == Outcome(seen, Failure(SampleCounterOverflow))
            else
              var counted, n := seen.(observedIntervals := s.observedIntervals + 1), s.observedIntervals + 1;
              if n < c.sampleIntervals then o == Outcome(counted, Success(Sampling(n, c.sampleIntervals)))
              else SampleCloses(c, counted, o, nowMs - s.windowStartMs.value, nowMs)
  {
    hide InsideHysteresis, SampledTarget, Conclude, SampleCloses;
    var elapsed := WindowElapsed(s, nowMs);
    if submitted == s.binding && !ClockRegressed(s, nowMs) && s.windowStartMs.Some? && s.observedIntervals < U32_MAX {
      var counted := s.(lastNowMs := Some(nowMs), observedIntervals := s.observedIntervals + 1);
      SampleConcludes(c, counted, elapsed, nowMs);
    }
  }

  ghost predicate SampleCloses(c: Config, s: State, o: Outcome, elapsed: nat, nowMs: u64)
    requires c.Valid()
  {
    var t, w, bps, f := Value(s.binding.target), c.sampleWindowMs, c.hysteresisBps, c.maximumAdjustmentFactor;
    if w * (BASIS_POINTS - bps) <= elapsed * BASIS_POINTS <= w * (BASIS_POINTS + bps) then Closes(s, o, t, nowMs)
    else
      var v := Retargeted(t, elapsed, w, MaxOf(1, t / f), MinOf(t * f, MAX_VALUE), Value(s.binding.bounds.hardestAllowed),
                          Value(s.binding.bounds.easiestAllowed));
      v >= 0 && Closes(s, o, v, nowMs)
  }

  lemma SampleConcludes(c: Config, s: State, elapsed: nat, nowMs: u64)
    requires c.Valid() && s.binding.Valid() && s.binding.revision <= U64_MAX
    ensures SampleCloses(c, s, Conclude(s, nowMs, InsideHysteresis(c, elapsed), SampledTarget(c, s.binding, elapsed)), elapsed, nowMs)
  {
    var low, high := Value(s.binding.bounds.hardestAllowed), Value(s.binding.bounds.easiestAllowed);
    BandIsSymmetric(c, elapsed);
    SampledIsRetargeted(Value(s.binding.target), elapsed, c.sampleWindowMs, c.maximumAdjustmentFactor, low, high);
    InstallCloses(s, SampledTarget(c, s.binding, elapsed), nowMs);
  }

  /** A tick, exactly: it opens a window, waits out the band, and eases an overdue one by the rule. */
  lemma TickExactly(c: Config, s: State, nowMs: u64)
    requires StateValid(c, s)
    ensures var o, seen := Ticked(c, s, nowMs), s.(lastNowMs := Some(nowMs));
            if s.lastNowMs.Some? && nowMs < s.lastNowMs.value then o == Outcome(s, Failure(ClockMovedBackwards))
            else if s.windowStartMs.None? then
              o == Outcome(seen.(windowStartMs := Some(nowMs)), Success(Sampling(0, c.sampleIntervals)))
            else
              var t, w, elapsed := Value(s.binding.target), c.sampleWindowMs, nowMs - s.windowStartMs.value;
              if elapsed * BASIS_POINTS <= w * (BASIS_POINTS + c.hysteresisBps) then
                o == Outcome(seen, Success(Sampling(s.observedIntervals, c.sampleIntervals)))
              else
                var v := Retargeted(t, elapsed, w, t, MinOf(t * c.maximumAdjustmentFactor, MAX_VALUE),
                                    Value(s.binding.bounds.hardestAllowed), Value(s.binding.bounds.easiestAllowed));
                v >= 0 && Closes(seen, o, v, nowMs)
  {
    hide TooSlow, Install, Closes, Retargeted, TickedValue;
    var elapsed := WindowElapsed(s, nowMs);
    BandIsSymmetric(c, elapsed);
    SampledIsRetargeted(Value(s.binding.target), elapsed, c.sampleWindowMs, c.maximumAdjustmentFactor,
                        Value(s.binding.bounds.hardestAllowed), Value(s.binding.bounds.easiestAllowed));
    InstallCloses(s.(lastNowMs := Some(nowMs)), TickedTarget(c, s.binding, elapsed), nowMs);
  }

  /**
   * New network targets, exactly: refused when the operator's limit excludes either; without
   * effect when unchanged; otherwise the target is moved just inside the new bounds under the
   * next revision, and the sample starts over.
   */
  lemma RebindExactly(c: Config, s: State, wcash: ShareTarget, zcash: ShareTarget)
    requires StateValid(c, s)
    ensures var o, previous := Rebind(c, s, wcash, zcash), s.binding;
            if MaxOf(Value(wcash), Value(zcash)) > Value(c.operatorEasiest) then
              o == RebindOutcome(s, Failure(TargetPolicy(OperatorLimitExcludesNetworkWinner)))
            else if wcash == previous.bounds.wcashNetwork && zcash == previous.bounds.zcashNetwork then o == RebindOutcome(s, Success(previous))
            else if previous.revision == U64_MAX then o == RebindOutcome(s, Failure(RevisionOverflow))
            else
              var next := o.state.binding;
              && o == RebindOutcome(s.(binding := next, windowStartMs := None, observedIntervals := 0), Success(next))
              && next.revision == previous.revision + 1
              && next.bounds.wcashNetwork == wcash && next.bounds.zcashNetwork == zcash && next.bounds.easiestAllowed == c.operatorEasiest
              && Value(next.bounds.hardestAllowed) == MaxOf(Value(wcash), Value(zcash))
              && Value(next.target) == MaxOf(MaxOf(Value(wcash), Value(zcash)), Value(previous.target))
  {
    var bounds := NewBounds(wcash, zcash, c.operatorEasiest);
    if bounds.Success? && wcash == s.binding.bounds.wcashNetwork && zcash == s.binding.bounds.zcashNetwork {
      BeValueInjective(bounds.value.hardestAllowed, s.binding.bounds.hardestAllowed);
    }
  }

  /** All states a run passes through, the first included. */
  function Trace(c: Config, s: State, ops: seq<Op>): (states: seq<State>)
    requires StateValid(c, s)
    ensures |states| == |ops| + 1 && states[0] == s
    decreases |ops|
  {
    if |ops| == 0 then
      [s]
    else
      StepKeepsBindingSafe(c, s, ops[0]);
      [s] + Trace(c, Step(c, s, ops[0]), ops[1..])
  }

  lemma {:induction false} TraceRevisions(c: Config, s: State, ops: seq<Op>, j: nat)
    requires StateValid(c, s) && j <= |ops|
    ensures var t := Trace(c, s, ops);
            && StateValid(c, t[j])
            && s.binding.revision <= t[j].binding.revision
            && (s.binding.revision == t[j].binding.revision ==> s.binding == t[j].binding)
    decreases j
  {
    if j == 0 {
    } else {
      StepKeepsBindingSafe(c, s, ops[0]);
      TraceRevisions(c, Step(c, s, ops[0]), ops[1..], j - 1);
    }
  }

  lemma {:induction false} TraceSuffix(c: Config, s: State, ops: seq<Op>, i: nat)
    requires StateValid(c, s) && i <= |ops|
    ensures StateValid(c, Trace(c, s, ops)[i])
    ensures Trace(c, s, ops)[i..] == Trace(c, Trace(c, s, ops)[i], ops[i..])
    decreases i
  {
    if i == 0 {
      assert ops[0..] == ops;
    } else {
      StepKeepsBindingSafe(c, s, ops[0]);
      TraceSuffix(c, Step(c, s, ops[0]), ops[1..], i - 1);
      assert ops[1..][i - 1..] == ops[i..];
    }
  }

  /**
   * Over any run of shares, ticks and network changes, one revision names one
   * binding, and every binding stays at least as easy as both network targets.
   */
  lemma RevisionIdentifiesBinding(c: Config, s: State, ops: seq<Op>, i: nat, j: nat)
    requires StateValid(c, s) && i <= j <= |ops|
    ensures var t := Trace(c, s, ops);
            && t[i].binding.revision <= t[j].binding.revision
            && (t[i].binding.revision == t[j].binding.revision ==> t[i].binding == t[j].binding)
            && Value(t[j].binding.bounds.wcashNetwork) <= Value(t[j].binding.target)
            && Value(t[j].binding.bounds.zcashNetwork) <= Value(t[j].binding.target)
            && Value(t[j].binding.target) <= Value(c.operatorEasiest)
  {
    var t := Trace(c, s, ops);
    TraceSuffix(c, s, ops, i);
    TraceRevisions(c, t[i], ops[i..], j - i);
    assert t[i..][j - i] == t[j];
    BindingNeverHarderThanNetworks(t[j].binding);
    assert t[j].binding.bounds.Contains(t[j].binding.target);
  }

  // ---------------------------------------------------------------- the controller object

  class VardiffController {
    const config: Config
    var binding: TargetBinding
    var windowStartMs: Option<u64>
    var observedIntervals: u32
    var lastNowMs: Option<u64>

    ghost function Model(): State
      reads this
    {
      State(binding, windowStartMs, observedIntervals, lastNowMs)
    }

    ghost predicate Valid()
      reads this
    {
      StateValid(config, Model())
    }

    constructor Bound(config: Config, initial: TargetBinding)
      requires config.Valid() && initial.Valid() && initial.revision <= U64_MAX
      requires initial.bounds.easiestAllowed == config.operatorEasiest
      ensures Valid() && this.config == config
      ensures Model() == State(initial, None, 0, None)
    {
      this.config := config;
      binding := initial;
      windowStartMs := None;
      observedIntervals := 0;
      lastNowMs := None;
    }

    static method New(config: Config, wcash: ShareTarget, zcash: ShareTarget, initial: ShareTarget, revision: u64)
      returns (r: Result<VardiffController, VardiffError>)
      requires config.Valid()
      ensures r.Success? <==> Value(wcash) <= Value(config.operatorEasiest) && Value(zcash) <= Value(config.operatorEasiest)
      ensures r.Success? ==>
                && fresh(r.value) && r.value.Valid() && r.value.config == config
                && r.value.binding.revision == revision
                && r.value.binding.bounds.wcashNetwork == wcash
                && r.value.binding.bounds.zcashNetwork == zcash
                && r.value.binding.target == r.value.binding.bounds.Clamped(initial)
                && r.value.Model() == State(r.value.binding, None, 0, None)
    {
      var bounds := NewBounds(wcash, zcash, config.operatorEasiest);
      if bounds.Failure? {
        return Failure(TargetPolicy(bounds.error));
      }
      var bound := NewBinding(revision, bounds.value.Clamped(initial), bounds.value);
      var controller := new VardiffController.Bound(config, bound.value);
      return Success(controller);
    }

    method ResetSampleAt(nowMs: u64)
      modifies this`windowStartMs, this`observedIntervals
      ensures windowStartMs == Some(nowMs) && observedIntervals == 0
    {
      windowStartMs := Some(nowMs);
      observedIntervals := 0;
    }

    method UpdateNetworkTargets(wcash: ShareTarget, zcash: ShareTarget) returns (r: Result<TargetBinding, VardiffError>)
      requires Valid()
      modifies this
      ensures Valid()
      ensures RebindOutcome(Model(), r) == Rebind(config, old(Model()), wcash, zcash)
    {
      StepKeepsBindingSafe(config, Model(), Op.UpdateNetworkTargets(wcash, zcash));
      var bounds := NewBounds(wcash, zcash, config.operatorEasiest);
      if bounds.Failure? {
        return Failure(TargetPolicy(bounds.error));
      }
      if bounds.value != binding.bounds {
        if binding.revision >= U64_MAX {
          return Failure(RevisionOverflow);
        }
        var next := NewBinding(binding.revision + 1, bounds.value.Clamped(binding.target), bounds.value);
        binding := next.value;
        windowStartMs := None;
        observedIntervals := 0;
      }
      return Success(binding);
    }

    /** Installs a clamped target; shared tail of both retargeting paths. */
    method InstallTarget(nextTarget: ShareTarget, nowMs: u64) returns (r: Result<Update, VardiffError>)
      requires binding.Valid() && Value(binding.bounds.hardestAllowed) <= Value(nextTarget) <= Value(binding.bounds.easiestAllowed)
      modifies this`binding, this`windowStartMs, this`observedIntervals
      ensures Outcome(Model(), r) == Install(old(Model()), Value(nextTarget), nowMs)
    {
      var previous := binding;
      TargetOfValue(nextTarget);
      TargetOfValue(previous.target);
      if nextTarget == previous.target {
        ResetSampleAt(nowMs);
        return Success(Unchanged(previous));
      }
      if previous.revision >= U64_MAX {
        return Failure(RevisionOverflow);
      }
      var next := NewBinding(previous.revision + 1, nextTarget, previous.bounds);
      binding := next.value;
      ResetSampleAt(nowMs);
      return Success(Changed(previous, binding));
    }

    /** `scale_target` stepped between a hardest target and the easiest step, then bounded. */
    method ScaledWithin(elapsedMs: u64, hardest: ShareTarget) returns (target: ShareTarget)
      requires config.Valid() && binding.Valid() && Value(hardest) <= Value(binding.target)
      ensures Value(binding.bounds.hardestAllowed) <= Value(target) <= Value(binding.bounds.easiestAllowed)
      ensures var t := Value(binding.target);
              var easiest := EasiestStep(t, config.maximumAdjustmentFactor);
              && t <= easiest
              && Value(target) == ClampInt(ClampInt(ScaledValue(t, elapsedMs, config.sampleWindowMs), Value(hardest), easiest),
                                           Value(binding.bounds.hardestAllowed), Value(binding.bounds.easiestAllowed))
    {
      var raw := ScaleTarget(binding.target, elapsedMs, config.sampleWindowMs);
      var easiestStep := MultiplyTarget(binding.target, config.maximumAdjustmentFactor);
      StepsAreOrdered(Value(binding.target), config.maximumAdjustmentFactor);
      target := binding.bounds.Clamped(Clamp(raw, hardest, easiestStep));
    }

    method FinishWindow(nowMs: u64) returns (r: Result<Update, VardiffError>)
      requires Valid() && windowStartMs.Some? && windowStartMs.value <= nowMs
      modifies this`binding, this`windowStartMs, this`observedIntervals
      ensures var elapsed := nowMs - old(windowStartMs.value);
              Outcome(Model(), r) == Conclude(old(Model()), nowMs, InsideHysteresis(config, elapsed),
                                              SampledTarget(config, old(binding), elapsed))
    {
      var elapsedMs := nowMs - windowStartMs.value;
      if InsideHysteresis(config, elapsedMs) {
        ResetSampleAt(nowMs);
        return Success(Unchanged(binding));
      }
      var hardestStep := DivideTarget(binding.target, config.maximumAdjustmentFactor);
      StepsAreOrdered(Value(binding.target), config.maximumAdjustmentFactor);
      var next := ScaledWithin(elapsedMs, hardestStep);
      r := InstallTarget(next, nowMs);
    }

    method CountShare(nowMs: u64) returns (r: Result<Update, VardiffError>)
      requires Valid() && lastNowMs == Some(nowMs)
      modifies this`binding, this`windowStartMs, this`observedIntervals
      ensures var elapsed := WindowElapsed(old(Model()), nowMs);
              Outcome(Model(), r) == CountWith(config, old(Model()), nowMs, InsideHysteresis(config, elapsed),
                                               SampledTarget(config, old(binding), elapsed))
    {
      if windowStartMs.None? {
        windowStartMs := Some(nowMs);
        return Success(Sampling(0, config.sampleIntervals));
      }
      if observedIntervals == U32_MAX {
        return Failure(SampleCounterOverflow);
      }
      observedIntervals := observedIntervals + 1;
      if observedIntervals < config.sampleIntervals {
        return Success(Sampling(observedIntervals, config.sampleIntervals));
      }
      r := FinishWindow(nowMs);
    }

    method ObserveShare(submitted: TargetBinding, nowMs: u64) returns (r: Result<Update, VardiffError>)
      requires Valid()
      modifies this
      ensures Valid()
      ensures Outcome(Model(), r) == Observe(config, old(Model()), submitted, nowMs)
    {
      if submitted != binding {
        return Success(IgnoredStaleBinding);
      }
      r := ObserveBound(nowMs);
    }

    method ObserveBound(nowMs: u64) returns (r: Result<Update, VardiffError>)
      requires Valid()
      modifies this
      ensures Valid()
      ensures Outcome(Model(), r) == ObserveCurrent(config, old(Model()), nowMs)
    {
      ghost var before, elapsed := Model(), WindowElapsed(Model(), nowMs);
      ghost var inside, v := InsideHysteresis(config, elapsed), SampledTarget(config, binding, elapsed);
      ObserveAdvances(config, before, nowMs, inside, v);
      if lastNowMs.Some? && nowMs < lastNowMs.value {
        return Failure(ClockMovedBackwards);
      }
      ObserveSeen(config, before, nowMs, inside, v);
      lastNowMs := Some(nowMs);
      assert Model() == before.(lastNowMs := Some(nowMs));
      r := CountShare(nowMs);
    }

    method Tick(nowMs: u64) returns (r: Result<Update, VardiffError>)
      requires Valid()
      modifies this
      ensures Valid()
      ensures Outcome(Model(), r) == Ticked(config, old(Model()), nowMs)
    {
      ghost var before, elapsed := Model(), WindowElapsed(Model(), nowMs);
      ghost var overdue, v := TooSlow(config, elapsed), TickedTarget(config, binding, elapsed);
      TickAdvances(config, before, nowMs, overdue, v);
      if lastNowMs.Some? && nowMs < lastNowMs.value {
        return Failure(ClockMovedBackwards);
      }
      TickSeen(config, before, nowMs, overdue, v);
      lastNowMs := Some(nowMs);
      assert Model() == before.(lastNowMs := Some(nowMs));
      r := TickWindow(nowMs);
    }

    method TickWindow(nowMs: u64) returns (r: Result<Update, VardiffError>)
      requires Valid() && lastNowMs == Some(nowMs)
      modifies this`binding, this`windowStartMs, this`observedIntervals
      ensures var elapsed := WindowElapsed(old(Model()), nowMs);
              Outcome(Model(), r) == TickedWith(config, old(Model()), nowMs, TooSlow(config, elapsed),
                                                TickedTarget(config, old(binding), elapsed))
    {
      if windowStartMs.None? {
        windowStartMs := Some(nowMs);
        return Success(Sampling(observedIntervals, config.sampleIntervals));
      }
      var elapsedMs := nowMs - windowStartMs.value;
      if !TooSlow(config, elapsedMs) {
        return Success(Sampling(observedIntervals, config.sampleIntervals));
      }
      var next := ScaledWithin(elapsedMs, binding.target);
      r := InstallTarget(next, nowMs);
    }
  }
}
