/**
 The circuit state a decision record shows for a scheduled wait, and exactly when
 it is the state the circuit is in.
 */
module RestartStates {
  import opened Common
  import opened HalfLife
  import opened Backoff
  import opened CircuitPressure
  import opened RestartController
  import opened RestartRuns
  import opened RestartBooks
  import opened RestartCircuit

  // ----- one wait ------------------------------------------------------------------------------

  lemma PlaceRecordsState(settings: Settings, c: Controller, record: Record, opens: bool, index: nat)
    requires settings.Valid() && Counted(settings, c) && (opens ==> settings.circuit.Some?)
    ensures var o := Place(settings, c, record, opens, index);
      IsWait(o.result) ==>
        && o.record.circuitState == (if o.result.value.scheduled.kind == CircuitCooldown then Open else Closed)
        && o.next.circuitState == (if o.result.value.scheduled.kind == CircuitCooldown then Open else c.circuitState)
        && o.next.summary.finalState == o.next.circuitState
        && (c.circuitState == HalfOpen ==> o.result.value.scheduled.kind == CircuitCooldown)
  {
  }

  lemma ScheduleRecordsState(settings: Settings, c: Controller, record: Record, now: Duration)
    requires settings.Valid() && Sound(settings, c) && c.pending.None? && HasRemainingLaunch(settings, c.launched)
    ensures var o := Schedule(settings, c, record, now);
      IsWait(o.result) ==>
        && o.record.circuitState == (if o.result.value.scheduled.kind == CircuitCooldown then Open else Closed)
        && o.next.circuitState == (if o.result.value.scheduled.kind == CircuitCooldown then Open else c.circuitState)
        && o.next.summary.finalState == o.next.circuitState
        && (c.circuitState == HalfOpen ==> o.result.value.scheduled.kind == CircuitCooldown)
  {
    CountedStateSound(settings, c, now);
    match CountedState(settings, c, now)
    case Err(_) =>
    case Ok(counted) =>
      EligibleSound(settings, counted, now);
      match Eligible(settings, counted, now) {
        case Err(_) =>
        case Ok(pressed) => PlaceRecordsState(settings, pressed.0, record, pressed.1, c.sequence);
      }
  }

  ghost predicate ShowsState(o: Outcome) {
    o.record.circuitState == o.next.circuitState
  }

  lemma WaitRecordsState(settings: Settings, c: Controller, call: Call)
    requires settings.Valid() && Sound(settings, c) && IsWait(Step(settings, c, call).result)
    ensures var o := Step(settings, c, call);
      && o.next.summary.finalState == o.next.circuitState
      && (ShowsState(o) <==> o.result.value.scheduled.kind == CircuitCooldown || c.circuitState != Open)
      && o.record.circuitState == (if o.result.value.scheduled.kind == CircuitCooldown then Open else Closed)
      && c.pending.None?
  {
    match call
    case LimitHit(condition, now, _, record) =>
      LimitKeepsSound(settings, c, call);
      if HasRemainingLaunch(settings, c.launched) {
        ScheduleRecordsState(settings, c.(summary := c.summary.(enabled := true)), record.(trigger := Some(condition)), now);
      }
    case WaitEnded(_, _, _, _) => WaitKeepsSound(settings, c, call);
  }

  // ----- whole runs ------------------------------------------------------------------------------

  ghost predicate ShowsStateAt(settings: Settings, calls: seq<Call>, k: nat)
    requires settings.Valid() && k < |calls|
  {
    ShowsState(Step(settings, At(settings, calls, k), calls[k]))
  }

  /**
   In every run a scheduled wait's record shows the circuit's own state, which is also
   the summary's, unless the circuit was left open and the event does not reopen it.
   */
  lemma RecordedStateExactly(settings: Settings, calls: seq<Call>, k: nat)
    requires settings.Valid() && k < |calls| && WaitsAt(settings, calls, k)
    ensures At(settings, calls, k + 1).summary.finalState == At(settings, calls, k + 1).circuitState
    ensures ShowsStateAt(settings, calls, k) <==>
      || ResultOf(settings, calls, k).value.scheduled.kind == CircuitCooldown
      || At(settings, calls, k).circuitState != Open
  {
    AlwaysSound(settings, calls, k);
    WaitRecordsState(settings, At(settings, calls, k), calls[k]);
  }

  /** As long as no cooldown is abandoned, every wait's record shows the circuit's own state. */
  lemma UnabandonedStateShown(settings: Settings, calls: seq<Call>, k: nat)
    requires settings.Valid() && k < |calls| && WaitsAt(settings, calls, k)
    requires forall j :: 0 <= j < k ==> !AbandonedAt(settings, calls, j)
    ensures ShowsStateAt(settings, calls, k)
  {
    AlwaysSound(settings, calls, k);
    OpenUntilAbandoned(settings, calls, k);
    WaitRecordsState(settings, At(settings, calls, k), calls[k]);
  }

  // ----- a run that shows the difference -------------------------------------------------------------

  const MILLI: Duration := NANOS_PER_MILLI
  const LONG_WAIT: Duration := (U64_MAX + 1) * NANOS_PER_MILLI - 1

  /** One-millisecond intervals and half-lives, no launch limit, a circuit that opens at two. */
  const SETTINGS := Settings(
    {MemoryLimit}, None, Policy(MILLI, Multiplier(1, 1), MILLI, MILLI, 0.5), Some(Circuit(2.0, MILLI, MILLI, 0.5)))

  const SAFE := SafetyProof(true, Some(true), true, true, true, true, [])
  const BLANK := Record(None, NoneDisabled, None, None, None, None, None, Closed, false)

  function Hit(now: Duration): (call: Call) {
    LimitHit(MemoryLimit, now, SAFE, BLANK)
  }

  function LongEnd(): (call: Call) {
    WaitEnded(Completed, LONG_WAIT, None, BLANK)
  }

  function CutShort(): (call: Call) {
    WaitEnded(RestartController.Interrupted, 0, None, BLANK)
  }

  lemma SettingsValid()
    ensures SETTINGS.Valid() && SETTINGS.CircuitFits()
  {
    assert Millis(MILLI) == 1;
    assert Pow(0.5, 1) == 0.5 * Pow(0.5, 0);
  }

  lemma HitWaits(c: Controller, now: Duration)
    requires SETTINGS.Valid() && SETTINGS.CircuitFits() && Sound(SETTINGS, c) && Balanced(SETTINGS, c)
    requires c.pending.None? && c.sequence < U64_MAX && ElapsedMillis(c.lastCircuit, now).Ok?
    ensures var o := Step(SETTINGS, c, Hit(now));
      && IsWait(o.result) && o.next.pending == Some(o.result.value.scheduled)
      && Recorded(SETTINGS.circuit.value, c.pressure, c.lastCircuit, now) == Ok(o.next.pressure)
      && o.next.lastCircuit == Some(now)
      && (o.result.value.scheduled.kind == CircuitCooldown <==> o.next.pressure >= 2.0 || c.circuitState == HalfOpen)
      && (o.next.circuitState == if o.result.value.scheduled.kind == CircuitCooldown then Open else c.circuitState)
  {
    WaitsExactly(SETTINGS, c, Hit(now));
    WaitReaches(SETTINGS, c, Hit(now));
    CircuitStep(SETTINGS, c, Hit(now));
  }

  lemma {:induction false} SequenceBounded(settings: Settings, calls: seq<Call>, k: nat)
    requires settings.Valid() && k <= |calls|
    ensures At(settings, calls, k).sequence <= k
  {
    if k == 0 {
    } else {
      SequenceBounded(settings, calls, k - 1);
      SequenceStep(settings, At(settings, calls, k - 1), calls[k - 1]);
    }
  }

  lemma SequenceStep(settings: Settings, c: Controller, call: Call)
    requires settings.Valid()
    ensures Step(settings, c, call).next.sequence <= c.sequence + 1
  {
  }

  ghost predicate Ready(c: Controller) {
    Sound(SETTINGS, c) && Balanced(SETTINGS, c) && c.sequence < U64_MAX
  }

  ghost predicate Stands(c: Controller, pending: Option<WaitKind>, state: CircuitState, pressure: real, last: Option<Duration>) {
    && c.circuitState == state && c.pressure == pressure && c.lastCircuit == last
    && match pending
       case None => c.pending.None?
       case Some(kind) =>
         c.pending.Some? && c.pending.value.kind == kind && DurationMillis(c.pending.value.duration).Ok?
  }

  lemma HitStands(c: Controller, state: CircuitState, pressure: real, last: Option<Duration>, now: Duration, next: real)
    requires SETTINGS.Valid() && SETTINGS.CircuitFits() && Ready(c) && Stands(c, None, state, pressure, last)
    requires state != HalfOpen && ElapsedMillis(last, now).Ok?
    requires Recorded(SETTINGS.circuit.value, pressure, last, now) == Ok(next)
    ensures var o := Step(SETTINGS, c, Hit(now));
      && IsWait(o.result)
      && (o.result.value.scheduled.kind == CircuitCooldown <==> next >= 2.0)
      && Stands(o.next, Some(o.result.value.scheduled.kind), if next >= 2.0 then Open else state, next, Some(now))
  {
    HitWaits(c, now);
    WaitFits(SETTINGS, c, Hit(now));
  }

  lemma WaitFits(settings: Settings, c: Controller, call: Call)
    requires settings.Valid() && Sound(settings, c) && call.LimitHit? && IsWait(Step(settings, c, call).result)
    ensures DurationMillis(Step(settings, c, call).result.value.scheduled.duration).Ok?
  {
    LimitKeepsSound(settings, c, call);
    if HasRemainingLaunch(settings, c.launched) && c.pending.None? {
      ScheduledFits(settings, c.(summary := c.summary.(enabled := true)), call.record.(trigger := Some(call.condition)), call.now);
    }
  }

  lemma ScheduledFits(settings: Settings, c: Controller, record: Record, now: Duration)
    requires settings.Valid() && Sound(settings, c) && c.pending.None? && HasRemainingLaunch(settings, c.launched)
    ensures var o := Schedule(settings, c, record, now);
      IsWait(o.result) ==> DurationMillis(o.result.value.scheduled.duration).Ok?
  {
  }

  lemma LongEndStands(c: Controller, pressure: real, last: Option<Duration>)
    requires SETTINGS.Valid() && Ready(c) && Stands(c, Some(LogisticBackoff), Closed, pressure, last)
    ensures Stands(Step(SETTINGS, c, LongEnd()).next, None, Closed, pressure, last)
  {
    WaitKeepsSound(SETTINGS, c, LongEnd());
    LongEnough(c.pending.value.duration);
    LaunchStep(SETTINGS, c, LongEnd());
  }

  lemma LongEnough(d: Duration)
    requires DurationMillis(d).Ok?
    ensures d <= LONG_WAIT && DurationMillis(LONG_WAIT).Ok?
  {
  }

  lemma CutShortStands(c: Controller, pressure: real, last: Option<Duration>)
    requires SETTINGS.Valid() && Stands(c, Some(CircuitCooldown), Open, pressure, last)
    ensures Stands(Step(SETTINGS, c, CutShort()).next, None, Open, pressure, last)
  {
  }

  lemma Pressures()
    ensures var circuit := SETTINGS.circuit.value;
      && Recorded(circuit, 0.0, None, 0) == Ok(1.0)
      && Recorded(circuit, 1.0, Some(0), 0) == Ok(2.0)
      && Recorded(circuit, 2.0, Some(0), 2 * MILLI) == Ok(1.5)
  {
    assert Millis(MILLI) == 1 && Millis(2 * MILLI) == 2;
    assert Pow(0.5, 2) == 0.5 * Pow(0.5, 1) && Pow(0.5, 1) == 0.5 * Pow(0.5, 0);
    assert Pow(0.5, 2) == 0.25;
  }

  lemma RunPrepared(run: seq<Call>, k: nat)
    requires SETTINGS.Valid() && SETTINGS.CircuitFits() && k <= |run| < U64_MAX
    ensures Ready(At(SETTINGS, run, k))
  {
    AlwaysSound(SETTINGS, run, k);
    BooksBalance(SETTINGS, run, k);
    SequenceBounded(SETTINGS, run, k);
  }

  lemma RunUnfolds(run: seq<Call>, k: nat)
    requires SETTINGS.Valid() && k < |run|
    ensures At(SETTINGS, run, k + 1) == Step(SETTINGS, At(SETTINGS, run, k), run[k]).next
  {
  }

  lemma FirstSteps(a: Controller, b: Controller)
    requires SETTINGS.Valid() && SETTINGS.CircuitFits() && Ready(a) && Ready(b) && Stands(a, None, Closed, 0.0, None)
    requires b == Step(SETTINGS, a, Hit(0)).next
    ensures Stands(Step(SETTINGS, b, LongEnd()).next, None, Closed, 1.0, Some(0))
  {
    Pressures();
    HitStands(a, Closed, 0.0, None, 0, 1.0);
    LongEndStands(b, 1.0, Some(0));
  }

  lemma LaterSteps(a: Controller, b: Controller)
    requires SETTINGS.Valid() && SETTINGS.CircuitFits() && Ready(a) && Stands(a, None, Closed, 1.0, Some(0))
    requires b == Step(SETTINGS, a, Hit(0)).next
    ensures Stands(Step(SETTINGS, b, CutShort()).next, None, Open, 2.0, Some(0))
  {
    Pressures();
    HitStands(a, Closed, 1.0, Some(0), 0, 2.0);
    CutShortStands(b, 2.0, Some(0));
  }

  lemma RunsOn(run: seq<Call>, k: nat)
    requires SETTINGS.Valid() && SETTINGS.CircuitFits() && k + 2 <= |run| < U64_MAX
    requires run[k] == Hit(0) && run[k + 1] == LongEnd() && Stands(At(SETTINGS, run, k), None, Closed, 0.0, None)
    ensures Stands(At(SETTINGS, run, k + 2), None, Closed, 1.0, Some(0))
  {
    RunPrepared(run, k);
    RunPrepared(run, k + 1);
    RunUnfolds(run, k);
    RunUnfolds(run, k + 1);
    FirstSteps(At(SETTINGS, run, k), At(SETTINGS, run, k + 1));
  }

  lemma OpensAndStays(run: seq<Call>, k: nat)
    requires SETTINGS.Valid() && SETTINGS.CircuitFits() && k + 2 <= |run| < U64_MAX
    requires run[k] == Hit(0) && run[k + 1] == CutShort() && Stands(At(SETTINGS, run, k), None, Closed, 1.0, Some(0))
    ensures Stands(At(SETTINGS, run, k + 2), None, Open, 2.0, Some(0))
  {
    RunPrepared(run, k);
    RunUnfolds(run, k);
    RunUnfolds(run, k + 1);
    LaterSteps(At(SETTINGS, run, k), At(SETTINGS, run, k + 1));
  }

  lemma ShownClosed(run: seq<Call>, k: nat)
    requires SETTINGS.Valid() && SETTINGS.CircuitFits() && k < |run| < U64_MAX
    requires run[k] == Hit(2 * MILLI) && Stands(At(SETTINGS, run, k), None, Open, 2.0, Some(0))
    ensures WaitsAt(SETTINGS, run, k)
    ensures Step(SETTINGS, At(SETTINGS, run, k), run[k]).record.circuitState == Closed
    ensures At(SETTINGS, run, k + 1).circuitState == Open && At(SETTINGS, run, k + 1).summary.finalState == Open
  {
    RunPrepared(run, k);
    RunUnfolds(run, k);
    LastStep(At(SETTINGS, run, k));
  }

  /**
   Two simultaneous events open the circuit, the cooldown is interrupted, and an event
   follows two half-lives later: its wait is recorded with a closed circuit, while the
   circuit and the summary are open.
   */
  lemma OpenCircuitShownClosed(run: seq<Call>)
    requires run == [Hit(0), LongEnd(), Hit(0), CutShort(), Hit(2 * MILLI)]
    ensures SETTINGS.Valid() && WaitsAt(SETTINGS, run, 4)
    ensures Step(SETTINGS, At(SETTINGS, run, 4), run[4]).record.circuitState == Closed
    ensures At(SETTINGS, run, 5).circuitState == Open && At(SETTINGS, run, 5).summary.finalState == Open
  {
    SettingsValid();
    StartsClosed(run);
    RunsOn(run, 0);
    OpensAndStays(run, 2);
    ShownClosed(run, 4);
  }

  lemma StartsClosed(run: seq<Call>)
    requires SETTINGS.Valid()
    ensures Stands(At(SETTINGS, run, 0), None, Closed, 0.0, None)
  {
  }

  lemma LastStep(c: Controller)
    requires SETTINGS.Valid() && SETTINGS.CircuitFits() && Ready(c) && Stands(c, None, Open, 2.0, Some(0))
    ensures var o := Step(SETTINGS, c, Hit(2 * MILLI));
      IsWait(o.result) && o.record.circuitState == Closed && o.next.circuitState == Open && o.next.summary.finalState == Open
  {
    Pressures();
    HitStands(c, Open, 2.0, Some(0), 2 * MILLI, 1.5);
    WaitRecordsState(SETTINGS, c, Hit(2 * MILLI));
  }
}
