/**
 Exactly which runs keep the restart summary's books, by a condition on each
 call that can be read off before it is made.
 */
module RestartBooks {
  import opened Common
  import opened Backoff
  import opened CircuitPressure
  import opened RestartController
  import opened RestartRuns
  import DecimalBudget

  /** The circuit's durations are needed for this event and one of them does not fit 64-bit milliseconds. */
  ghost predicate CircuitFails(circuit: Circuit, c: Controller, now: Duration) {
    if c.lastCircuit.Some? && DurationMillis(circuit.halfLife).Err? then true
    else
      && DurationMillis(circuit.cooldown).Err?
      && (c.circuitState == HalfOpen
          || (Recorded(circuit, c.pressure, c.lastCircuit, now).Ok?
              && Recorded(circuit, c.pressure, c.lastCircuit, now).value >= circuit.threshold))
  }

  /** Every check a limit event must pass before it is counted. */
  ghost predicate Admissible(settings: Settings, c: Controller, call: Call) {
    && call.LimitHit? && call.condition in settings.effective && SafelyClosed(call.cleanup)
    && (settings.limit.Some? ==> c.launched < settings.limit.value) && c.pending.None? && c.sequence < U64_MAX
    && ElapsedMillis(c.backoff.last, call.now).Ok?
  }

  /** An event that passes every check up to its being counted, and then meets an unrepresentable circuit duration. */
  ghost predicate LosesEvent(settings: Settings, c: Controller, call: Call) {
    Admissible(settings, c, call) && settings.circuit.Some? && CircuitFails(settings.circuit.value, c, call.now)
  }

  lemma BackoffFits(policy: Policy, s: State)
    requires policy.Valid() && InRange(policy, s)
    ensures DurationMillis(s.current).Ok?
  {
  }

  lemma PlacedDuration(settings: Settings, c: Controller, record: Record, opens: bool, index: nat)
    requires settings.Valid() && Counted(settings, c) && (opens ==> settings.circuit.Some?)
    ensures var s := Place(settings, c, record, opens, index).next.pending;
      s.Some? && (DurationMillis(s.value.duration).Err?
                  <==> (opens || c.circuitState == HalfOpen) && DurationMillis(settings.circuit.value.cooldown).Err?)
  {
    BackoffFits(settings.backoff, c.backoff);
    PlaceSound(settings, c, record, opens, index);
  }

  lemma RecordedFails(circuit: Circuit, c: Controller, now: Duration)
    requires ElapsedMillis(c.lastCircuit, now).Ok?
    ensures Recorded(circuit, c.pressure, c.lastCircuit, now).Err?
       <==> c.lastCircuit.Some? && DurationMillis(circuit.halfLife).Err?
  {
  }

  /** A counted event is lost exactly when the circuit's durations fail it. */
  lemma CountedLost(settings: Settings, c: Controller, counted: Controller, record: Record, now: Duration)
    requires settings.Valid() && Sound(settings, c) && c.pending.None? && HasRemainingLaunch(settings, c.launched)
    requires Balanced(settings, c) && CountedState(settings, c, now) == Ok(counted)
    ensures Schedule(settings, c, record, now).result.Err?
       <==> settings.circuit.Some? && CircuitFails(settings.circuit.value, c, now)
  {
    CountedStateSound(settings, c, now);
    EligibleSound(settings, counted, now);
    if settings.circuit.Some? {
      OnBackoffInRange(settings.backoff, c.backoff, now);
      RecordedFails(settings.circuit.value, c, now);
    }
    match Eligible(settings, counted, now)
    case Err(_) =>
    case Ok(pressed) =>
      PlaceSound(settings, pressed.0, record, pressed.1, c.sequence);
      PlacedDuration(settings, pressed.0, record, pressed.1, c.sequence);
  }

  lemma ScheduleLoses(settings: Settings, c: Controller, record: Record, now: Duration)
    requires settings.Valid() && Sound(settings, c) && c.pending.None? && HasRemainingLaunch(settings, c.launched)
    requires Balanced(settings, c)
    ensures var o := Schedule(settings, c, record, now);
      o.result.Err? && o.next.sequence != c.sequence
      <==> && c.sequence < U64_MAX && ElapsedMillis(c.backoff.last, now).Ok?
           && settings.circuit.Some? && CircuitFails(settings.circuit.value, c, now)
  {
    OnBackoffInRange(settings.backoff, c.backoff, now);
    match CountedState(settings, c, now)
    case Err(_) =>
    case Ok(counted) =>
      CountedLost(settings, c, counted, record, now);
      SequenceMoves(settings, c, counted, record, now);
  }

  lemma SequenceMoves(settings: Settings, c: Controller, counted: Controller, record: Record, now: Duration)
    requires settings.Valid() && Sound(settings, c) && c.pending.None? && HasRemainingLaunch(settings, c.launched)
    requires CountedState(settings, c, now) == Ok(counted)
    ensures Schedule(settings, c, record, now).next.sequence == c.sequence + 1
  {
    CountedStateSound(settings, c, now);
    EligibleSound(settings, counted, now);
    match Eligible(settings, counted, now)
    case Err(_) =>
    case Ok(pressed) => PlaceFrame(settings, pressed.0, record, pressed.1, c.sequence);
  }

  /** One call upsets balanced books exactly when it loses its event. */
  lemma StepLosesExactly(settings: Settings, c: Controller, call: Call)
    requires settings.Valid() && Sound(settings, c) && Balanced(settings, c)
    ensures Balanced(settings, Step(settings, c, call).next) <==> !LosesEvent(settings, c, call)
  {
    StepBalancedExactly(settings, c, call);
    if call.LimitHit? && c.pending.None? && HasRemainingLaunch(settings, c.launched) {
      var enabled := c.(summary := c.summary.(enabled := true));
      ScheduleLoses(settings, enabled, call.record.(trigger := Some(call.condition)), call.now);
    }
  }

  lemma ScheduleWaits(settings: Settings, c: Controller, record: Record, now: Duration)
    requires settings.Valid() && Sound(settings, c) && c.pending.None? && HasRemainingLaunch(settings, c.launched)
    requires Balanced(settings, c)
    ensures IsWait(Schedule(settings, c, record, now).result)
       <==> && c.sequence < U64_MAX && ElapsedMillis(c.backoff.last, now).Ok?
            && !(settings.circuit.Some? && CircuitFails(settings.circuit.value, c, now))
  {
    OnBackoffInRange(settings.backoff, c.backoff, now);
    ScheduleSound(settings, c, record, now);
    match CountedState(settings, c, now)
    case Err(_) =>
    case Ok(counted) => CountedLost(settings, c, counted, record, now);
  }

  /** With balanced books a wait is scheduled exactly for an admissible event that is not lost. */
  lemma WaitsExactly(settings: Settings, c: Controller, call: Call)
    requires settings.Valid() && Sound(settings, c) && Balanced(settings, c)
    ensures IsWait(Step(settings, c, call).result) <==> Admissible(settings, c, call) && !LosesEvent(settings, c, call)
  {
    match call
    case LimitHit(condition, now, _, record) =>
      if c.pending.None? && HasRemainingLaunch(settings, c.launched) {
        ScheduleWaits(settings, c.(summary := c.summary.(enabled := true)), record.(trigger := Some(condition)), now);
      }
    case WaitEnded(_, _, _, _) => WaitKeepsSound(settings, c, call);
  }

  /** In every run a launch happens exactly when a pending wait is reported complete, in time and for long enough. */
  lemma LaunchesExactly(settings: Settings, calls: seq<Call>, k: nat)
    requires settings.Valid() && k < |calls|
    ensures var pending := At(settings, calls, k).pending;
      IsLaunch(ResultOf(settings, calls, k)) <==>
        && calls[k].WaitEnded? && calls[k].completion == Completed
        && pending.Some? && DurationMillis(calls[k].elapsed).Ok? && pending.value.duration <= calls[k].elapsed
        && calls[k].remaining != Some(0)
  {
    AlwaysSound(settings, calls, k);
    LaunchStep(settings, At(settings, calls, k), calls[k]);
  }

  lemma LaunchStep(settings: Settings, c: Controller, call: Call)
    requires settings.Valid() && Sound(settings, c)
    ensures IsLaunch(Step(settings, c, call).result) <==>
      && call.WaitEnded? && call.completion == Completed
      && c.pending.Some? && DurationMillis(call.elapsed).Ok? && c.pending.value.duration <= call.elapsed
      && call.remaining != Some(0)
  {
    if call.LimitHit? {
      LimitKeepsSound(settings, c, call);
    }
  }

  // ----- lost events stay lost ---------------------------------------------------------

  ghost function Deficit(c: Controller): int {
    c.sequence - c.summary.waits - c.summary.cooldowns
  }

  lemma ScheduleDeficit(settings: Settings, c: Controller, record: Record, now: Duration)
    requires settings.Valid() && Sound(settings, c) && c.pending.None? && HasRemainingLaunch(settings, c.launched)
    ensures Deficit(Schedule(settings, c, record, now).next) >= Deficit(c)
  {
    CountedStateSound(settings, c, now);
    match CountedState(settings, c, now)
    case Err(_) =>
    case Ok(counted) =>
      EligibleSound(settings, counted, now);
      match Eligible(settings, counted, now) {
        case Err(_) =>
        case Ok(pressed) => PlaceDeficit(settings, pressed.0, record, pressed.1, c.sequence);
      }
  }

  lemma PlaceDeficit(settings: Settings, c: Controller, record: Record, opens: bool, index: nat)
    requires settings.Valid() && Counted(settings, c) && (opens ==> settings.circuit.Some?)
    ensures Deficit(Place(settings, c, record, opens, index).next) >= Deficit(c) - 1
  {
    PlaceSound(settings, c, record, opens, index);
    PlaceFrame(settings, c, record, opens, index);
    FailedBooking(settings, c, record, opens, index);
  }

  lemma DeficitStays(settings: Settings, c: Controller, call: Call)
    requires settings.Valid() && Sound(settings, c)
    ensures Deficit(Step(settings, c, call).next) >= Deficit(c)
  {
    match call
    case LimitHit(condition, now, cleanup, record) =>
      if c.pending.None? && HasRemainingLaunch(settings, c.launched) {
        ScheduleDeficit(settings, c.(summary := c.summary.(enabled := true)), record.(trigger := Some(condition)), now);
      }
    case WaitEnded(_, _, _, _) =>
  }

  ghost predicate LostAt(settings: Settings, calls: seq<Call>, j: nat)
    requires settings.Valid() && j < |calls|
  {
    LosesEvent(settings, At(settings, calls, j), calls[j])
  }

  ghost predicate BalancedAt(settings: Settings, calls: seq<Call>, k: nat)
    requires settings.Valid() && k <= |calls|
  {
    Balanced(settings, At(settings, calls, k))
  }

  ghost predicate ShortAt(settings: Settings, calls: seq<Call>, k: nat)
    requires settings.Valid() && k <= |calls|
  {
    Deficit(At(settings, calls, k)) > 0
  }

  lemma ShortStep(settings: Settings, calls: seq<Call>, k: nat)
    requires settings.Valid() && k < |calls| && ShortAt(settings, calls, k)
    ensures ShortAt(settings, calls, k + 1)
  {
    AlwaysSound(settings, calls, k);
    DeficitStays(settings, At(settings, calls, k), calls[k]);
  }

  lemma BooksStep(settings: Settings, calls: seq<Call>, k: nat)
    requires settings.Valid() && k < |calls| && BalancedAt(settings, calls, k)
    ensures if LostAt(settings, calls, k) then ShortAt(settings, calls, k + 1) else BalancedAt(settings, calls, k + 1)
  {
    var c := At(settings, calls, k);
    AlwaysSound(settings, calls, k);
    StepLosesExactly(settings, c, calls[k]);
    LossIsShort(settings, c, calls[k]);
  }

  lemma LossIsShort(settings: Settings, c: Controller, call: Call)
    requires settings.Valid() && Sound(settings, c) && Balanced(settings, c)
    ensures LosesEvent(settings, c, call) ==> Deficit(Step(settings, c, call).next) > 0
  {
    if LosesEvent(settings, c, call) {
      var enabled := c.(summary := c.summary.(enabled := true));
      var record := call.record.(trigger := Some(call.condition));
      ScheduleLoses(settings, enabled, record, call.now);
      FailedSchedule(settings, enabled, record, call.now);
      LostCount(settings, enabled, record, call.now);
    }
  }

  lemma LostCount(settings: Settings, c: Controller, record: Record, now: Duration)
    requires settings.Valid() && Sound(settings, c) && c.pending.None? && HasRemainingLaunch(settings, c.launched)
    requires Balanced(settings, c) && Schedule(settings, c, record, now).result.Err?
    requires Schedule(settings, c, record, now).next.sequence != c.sequence
    ensures Deficit(Schedule(settings, c, record, now).next) > 0
  {
    CountedStateSound(settings, c, now);
    match CountedState(settings, c, now)
    case Err(_) =>
    case Ok(counted) =>
      EligibleSound(settings, counted, now);
      match Eligible(settings, counted, now) {
        case Err(_) =>
        case Ok(pressed) => FailedBooking(settings, pressed.0, record, pressed.1, c.sequence);
      }
  }

  lemma {:induction false} KeepsBalanced(settings: Settings, calls: seq<Call>, k: nat)
    requires settings.Valid() && k <= |calls|
    requires forall j :: 0 <= j < k ==> !LostAt(settings, calls, j)
    ensures BalancedAt(settings, calls, k)
  {
    if k == 0 {
    } else {
      KeepsBalanced(settings, calls, k - 1);
      BooksStep(settings, calls, k - 1);
    }
  }

  lemma {:induction false} StaysShort(settings: Settings, calls: seq<Call>, m: nat, k: nat)
    requires settings.Valid() && m <= k <= |calls| && ShortAt(settings, calls, m)
    ensures ShortAt(settings, calls, k)
    decreases k
  {
    if m == k {
    } else {
      StaysShort(settings, calls, m, k - 1);
      ShortStep(settings, calls, k - 1);
    }
  }

  lemma FirstLost(settings: Settings, calls: seq<Call>, k: nat) returns (j: nat)
    requires settings.Valid() && k <= |calls|
    requires exists i :: 0 <= i < k && LostAt(settings, calls, i)
    ensures j < k && LostAt(settings, calls, j) && forall i :: 0 <= i < j ==> !LostAt(settings, calls, i)
  {
    j := 0;
    while !LostAt(settings, calls, j)
      invariant j < k && forall i :: 0 <= i < j ==> !LostAt(settings, calls, i)
      decreases k - j
    {
      j := j + 1;
    }
  }

  lemma ShortIsUnbalanced(settings: Settings, calls: seq<Call>, k: nat)
    requires settings.Valid() && k <= |calls|
    ensures !(ShortAt(settings, calls, k) && BalancedAt(settings, calls, k))
  {
  }

  /** Over every run whatever its results: the books balance exactly as long as no event was lost. */
  lemma BooksBalanceExactly(settings: Settings, calls: seq<Call>, k: nat)
    requires settings.Valid() && k <= |calls|
    ensures BalancedAt(settings, calls, k) <==> forall j :: 0 <= j < k ==> !LostAt(settings, calls, j)
  {
    if j :| 0 <= j < k && LostAt(settings, calls, j) {
      var first := FirstLost(settings, calls, k);
      KeepsBalanced(settings, calls, first);
      BooksStep(settings, calls, first);
      StaysShort(settings, calls, first + 1, k);
      ShortIsUnbalanced(settings, calls, k);
    } else {
      KeepsBalanced(settings, calls, k);
    }
  }

  // ----- settings that come from text ------------------------------------------------------

  /** Every duration the parser accepts fits 64-bit milliseconds. */
  lemma ParsedDurationFits(text: string)
    ensures DecimalBudget.ParseDuration(text).Ok? ==>
      DurationMillis(DecimalBudget.ParseDuration(text).value * NANOS_PER_MILLI).Ok?
  {
  }

  /** So a circuit configured with parsed durations keeps the books over every run. */
  lemma ParsedCircuitBalances(settings: Settings, calls: seq<Call>, k: nat, halfLife: string, cooldown: string)
    requires settings.Valid() && settings.circuit.Some? && k <= |calls|
    requires DecimalBudget.ParseDuration(halfLife).Ok? && DecimalBudget.ParseDuration(cooldown).Ok?
    requires settings.circuit.value.halfLife == DecimalBudget.ParseDuration(halfLife).value * NANOS_PER_MILLI
    requires settings.circuit.value.cooldown == DecimalBudget.ParseDuration(cooldown).value * NANOS_PER_MILLI
    ensures BalancedAt(settings, calls, k)
  {
    ParsedDurationFits(halfLife);
    ParsedDurationFits(cooldown);
    BooksBalance(settings, calls, k);
  }
}
