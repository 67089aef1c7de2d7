/** What the decision record says after a stop, and after a wait that ended in a launch. */
module RestartRecords {
  import opened Common
  import opened Backoff
  import opened RestartController
  import opened RestartRuns

  datatype Action =
    | WaitFor(duration: Duration, kind: WaitKind)
    | LaunchNow(number: nat, halfOpen: bool)
    | StopWith(why: DecisionKind)

  /** The caller's view of a decision; the reason for stopping is read from the record. */
  function ActionOf(decision: Decision, stop: DecisionKind): (a: Action) {
    match decision
    case Wait(s) => WaitFor(s.duration, s.kind)
    case Launch(number, halfOpen) => LaunchNow(number, halfOpen)
    case _ => StopWith(stop)
  }

  predicate IsStop(r: Result<Decision, Error>) {
    r.Ok? && !r.value.Wait? && !r.value.Launch?
  }

  /** The reason each stop is reported with. */
  function StopReason(decision: Decision): (why: DecisionKind) {
    match decision
    case StopConditionNotSelected => NoneConditionNotSelected
    case StopLimitExhausted => NoneLimitExhausted
    case StopCleanupUnsafe => NoneCleanupUnsafe
    case StopInterrupted => AbortedByInterruption
    case StopSupervisionDeadline => NoneTerminalDeadline
    case _ => NoneDisabled
  }

  ghost predicate StopTold(c: Controller, call: Call, o: Outcome)
    requires IsStop(o.result)
  {
    var reason := StopReason(o.result.value);
    match call
    case LimitHit(condition, _, _, record) =>
      o.record == record.(trigger := Some(condition), decision := reason) && o.next.pending == c.pending
    case WaitEnded(_, elapsed, _, record) =>
      && o.record == record.(actualWaitMs := Some(Millis(elapsed)), decision := reason,
                             truncated := record.truncated || o.result.value == StopSupervisionDeadline)
      && o.next.pending.None?
  }

  lemma NoStopOnceScheduled(settings: Settings, c: Controller, record: Record, now: Duration)
    requires settings.Valid()
    ensures !IsStop(Schedule(settings, c, record, now).result)
  {
  }

  lemma LimitStopTold(settings: Settings, c: Controller, call: Call)
    requires settings.Valid() && call.LimitHit? && IsStop(Step(settings, c, call).result)
    ensures StopTold(c, call, Step(settings, c, call))
  {
    NoStopOnceScheduled(settings, c.(summary := c.summary.(enabled := true)),
                        call.record.(trigger := Some(call.condition)), call.now);
  }

  lemma WaitStopTold(settings: Settings, c: Controller, call: Call)
    requires settings.Valid() && call.WaitEnded? && IsStop(Step(settings, c, call).result)
    ensures StopTold(c, call, Step(settings, c, call))
  {
  }

  /** A stop is reported with its own reason, and its record says nothing about waits that did not happen. */
  lemma StopsExplained(settings: Settings, c: Controller, call: Call)
    requires settings.Valid() && IsStop(Step(settings, c, call).result)
    ensures var o := Step(settings, c, call);
      && ActionOf(o.result.value, o.record.decision) == StopWith(StopReason(o.result.value))
      && StopTold(c, call, o)
  {
    match call
    case LimitHit(_, _, _, _) => LimitStopTold(settings, c, call);
    case WaitEnded(_, _, _, _) => WaitStopTold(settings, c, call);
  }

  // ----- which stop, in every run ----------------------------------------------------------

  /** The wait that is pending when call `k` ends it, for a length of time that fits its record. */
  ghost predicate EndsWaitAt(settings: Settings, calls: seq<Call>, k: nat)
    requires settings.Valid() && k < |calls|
  {
    calls[k].WaitEnded? && At(settings, calls, k).pending.Some? && DurationMillis(calls[k].elapsed).Ok?
  }

  lemma LimitAnswers(settings: Settings, c: Controller, call: Call)
    requires settings.Valid() && call.LimitHit? && Sound(settings, c)
    ensures var r := Step(settings, c, call).result;
      && (r == Ok(StopConditionNotSelected) <==> call.condition !in settings.effective)
      && (r == Ok(StopCleanupUnsafe) <==> call.condition in settings.effective && !SafelyClosed(call.cleanup))
      && (r == Err(InvalidTransition) <==>
            && call.condition in settings.effective && SafelyClosed(call.cleanup)
            && HasRemainingLaunch(settings, c.launched) && c.pending.Some?)
      && r != Ok(StopInterrupted) && r != Ok(StopSupervisionDeadline)
  {
    var enabled, record := c.(summary := c.summary.(enabled := true)), call.record.(trigger := Some(call.condition));
    NoStopOnceScheduled(settings, enabled, record, call.now);
    if c.pending.None? && HasRemainingLaunch(settings, c.launched) {
      ScheduleSound(settings, enabled, record, call.now);
    }
  }

  lemma WaitAnswers(settings: Settings, c: Controller, call: Call)
    requires settings.Valid() && call.WaitEnded? && Sound(settings, c)
    ensures var r := Step(settings, c, call).result;
      var ends := c.pending.Some? && DurationMillis(call.elapsed).Ok?;
      var early := c.pending.Some? && call.elapsed < c.pending.value.duration;
      && (r == Ok(StopInterrupted) <==> ends && call.completion == Interrupted)
      && (r == Ok(StopSupervisionDeadline) <==>
            && ends
            && (|| call.completion == SupervisionDeadline
                || (call.completion == Completed && !early && call.remaining == Some(0))))
      && (r == Err(InvalidTransition) <==> c.pending.None? || (ends && call.completion == Completed && early))
      && r != Ok(StopConditionNotSelected) && r != Ok(StopCleanupUnsafe)
  {
    WaitKeepsSound(settings, c, call);
  }

  /** In every run: an event stops for its condition first, then for its cleanup; a wait for what ended it. */
  lemma StopsExactly(settings: Settings, calls: seq<Call>, k: nat)
    requires settings.Valid() && k < |calls|
    ensures var r, call := ResultOf(settings, calls, k), calls[k];
      && (r == Ok(StopConditionNotSelected) <==> call.LimitHit? && call.condition !in settings.effective)
      && (r == Ok(StopCleanupUnsafe) <==>
            call.LimitHit? && call.condition in settings.effective && !SafelyClosed(call.cleanup))
      && (r == Ok(StopInterrupted) <==> EndsWaitAt(settings, calls, k) && call.completion == Interrupted)
      && (r == Ok(StopSupervisionDeadline) <==>
            && EndsWaitAt(settings, calls, k)
            && (|| call.completion == SupervisionDeadline
                || (call.completion == Completed && !EndsEarly(settings, calls, k) && call.remaining == Some(0))))
  {
    AlwaysSound(settings, calls, k);
    match calls[k]
    case LimitHit(_, _, _, _) => LimitAnswers(settings, At(settings, calls, k), calls[k]);
    case WaitEnded(_, _, _, _) => WaitAnswers(settings, At(settings, calls, k), calls[k]);
  }

  /** A call is out of turn exactly when a wait is pending for an event, none is for its end, or it ends too soon. */
  lemma OutOfTurnExactly(settings: Settings, calls: seq<Call>, k: nat)
    requires settings.Valid() && k < |calls|
    ensures var call, c := calls[k], At(settings, calls, k);
      ResultOf(settings, calls, k) == Err(InvalidTransition) <==>
        match call
        case LimitHit(condition, _, cleanup, _) =>
          && condition in settings.effective && SafelyClosed(cleanup)
          && (settings.limit.Some? ==> LaunchCount(settings, calls, k) < settings.limit.value) && c.pending.Some?
        case WaitEnded(_, elapsed, _, _) =>
          c.pending.None? || (EndsEarly(settings, calls, k) && DurationMillis(elapsed).Ok?)
  {
    AlwaysSound(settings, calls, k);
    LaunchedCounts(settings, calls, k);
    match calls[k]
    case LimitHit(_, _, _, _) => LimitAnswers(settings, At(settings, calls, k), calls[k]);
    case WaitEnded(_, _, _, _) => WaitAnswers(settings, At(settings, calls, k), calls[k]);
  }

  ghost predicate EnabledAt(settings: Settings, calls: seq<Call>, k: nat)
    requires settings.Valid() && k <= |calls|
  {
    At(settings, calls, k).summary.enabled
  }

  lemma EnabledStep(settings: Settings, c: Controller, call: Call)
    requires settings.Valid()
    ensures Step(settings, c, call).next.summary.enabled <==> c.summary.enabled || call.LimitHit?
  {
    if call.LimitHit? {
      ScheduleKeepsEnabled(settings, c.(summary := c.summary.(enabled := true)),
                           call.record.(trigger := Some(call.condition)), call.now);
    }
  }

  lemma ScheduleKeepsEnabled(settings: Settings, c: Controller, record: Record, now: Duration)
    requires settings.Valid()
    ensures Schedule(settings, c, record, now).next.summary.enabled == c.summary.enabled
  {
  }

  lemma EnabledNext(settings: Settings, calls: seq<Call>, k: nat)
    requires settings.Valid() && k < |calls|
    ensures EnabledAt(settings, calls, k + 1) <==> EnabledAt(settings, calls, k) || calls[k].LimitHit?
  {
    EnabledStep(settings, At(settings, calls, k), calls[k]);
  }

  ghost predicate HitBefore(calls: seq<Call>, k: nat)
    requires k <= |calls|
  {
    exists j :: 0 <= j < k && calls[j].LimitHit?
  }

  lemma HitNext(calls: seq<Call>, k: nat)
    requires k < |calls|
    ensures HitBefore(calls, k + 1) <==> HitBefore(calls, k) || calls[k].LimitHit?
  {
  }

  lemma StartsDisabled(settings: Settings, calls: seq<Call>)
    requires settings.Valid()
    ensures !EnabledAt(settings, calls, 0) && !HitBefore(calls, 0)
  {
  }

  /** The summary says restarts were enabled exactly when a limit event was ever reported. */
  lemma {:induction false} EnabledExactly(settings: Settings, calls: seq<Call>, k: nat)
    requires settings.Valid() && k <= |calls|
    ensures EnabledAt(settings, calls, k) <==> HitBefore(calls, k)
  {
    if k == 0 {
      StartsDisabled(settings, calls);
    } else {
      EnabledExactly(settings, calls, k - 1);
      EnabledNext(settings, calls, k - 1);
      HitNext(calls, k - 1);
    }
  }

  // ----- the launch limit ------------------------------------------------------------------

  /** A selected, safely cleaned-up limit event that finds every allowed launch already made. */
  ghost predicate LimitSpentAt(settings: Settings, calls: seq<Call>, k: nat)
    requires settings.Valid() && k < |calls|
  {
    && calls[k].LimitHit? && calls[k].condition in settings.effective && SafelyClosed(calls[k].cleanup)
    && settings.limit == Some(LaunchCount(settings, calls, k))
  }

  ghost predicate ExhaustedAt(settings: Settings, calls: seq<Call>, k: nat)
    requires settings.Valid() && k <= |calls|
  {
    At(settings, calls, k).summary.limitExhausted
  }

  lemma ScheduleKeepsLimit(settings: Settings, c: Controller, record: Record, now: Duration)
    requires settings.Valid()
    ensures var o := Schedule(settings, c, record, now);
      o.result != Ok(StopLimitExhausted) && o.next.summary.limitExhausted == c.summary.limitExhausted
  {
  }

  lemma LimitStep(settings: Settings, c: Controller, call: Call)
    requires settings.Valid() && Sound(settings, c)
    ensures var o := Step(settings, c, call);
      var spent := call.LimitHit? && call.condition in settings.effective && call.cleanup.IsSafe()
                   && settings.limit == Some(c.launched);
      && (o.result == Ok(StopLimitExhausted) <==> spent)
      && (o.next.summary.limitExhausted <==> c.summary.limitExhausted || spent)
  {
    match call
    case LimitHit(condition, now, _, record) =>
      ScheduleKeepsLimit(settings, c.(summary := c.summary.(enabled := true)), record.(trigger := Some(condition)), now);
    case WaitEnded(_, _, _, _) => WaitKeepsSound(settings, c, call);
  }

  /** In every run, the limit is reported exhausted exactly for an event that finds as many launches made as allowed. */
  lemma LimitReportedExactly(settings: Settings, calls: seq<Call>, k: nat)
    requires settings.Valid() && k < |calls|
    ensures ResultOf(settings, calls, k) == Ok(StopLimitExhausted) <==> LimitSpentAt(settings, calls, k)
  {
    AlwaysSound(settings, calls, k);
    LaunchedCounts(settings, calls, k);
    LimitStep(settings, At(settings, calls, k), calls[k]);
  }

  lemma ExhaustedStep(settings: Settings, calls: seq<Call>, k: nat)
    requires settings.Valid() && k < |calls|
    ensures ExhaustedAt(settings, calls, k + 1) <==> ExhaustedAt(settings, calls, k) || LimitSpentAt(settings, calls, k)
  {
    AlwaysSound(settings, calls, k);
    LaunchedCounts(settings, calls, k);
    LimitStep(settings, At(settings, calls, k), calls[k]);
  }

  lemma ExhaustedStays(settings: Settings, calls: seq<Call>, k: nat)
    requires settings.Valid() && k < |calls| && ExhaustedAt(settings, calls, k)
    ensures ExhaustedAt(settings, calls, k + 1)
  {
    ExhaustedStep(settings, calls, k);
  }

  lemma {:induction false} StaysExhausted(settings: Settings, calls: seq<Call>, m: nat, k: nat)
    requires settings.Valid() && m <= k <= |calls| && ExhaustedAt(settings, calls, m)
    ensures ExhaustedAt(settings, calls, k)
    decreases k
  {
    if k == m {
    } else {
      StaysExhausted(settings, calls, m, k - 1);
      ExhaustedStays(settings, calls, k - 1);
    }
  }

  lemma SpentRemembered(settings: Settings, calls: seq<Call>, j: nat, k: nat)
    requires settings.Valid() && j < k <= |calls| && LimitSpentAt(settings, calls, j)
    ensures ExhaustedAt(settings, calls, k)
  {
    SpentExhausts(settings, calls, j);
    StaysExhausted(settings, calls, j + 1, k);
  }

  lemma SpentExhausts(settings: Settings, calls: seq<Call>, j: nat)
    requires settings.Valid() && j < |calls| && LimitSpentAt(settings, calls, j)
    ensures ExhaustedAt(settings, calls, j + 1)
  {
    ExhaustedStep(settings, calls, j);
  }

  lemma {:induction false} SpentFound(settings: Settings, calls: seq<Call>, k: nat) returns (j: nat)
    requires settings.Valid() && k <= |calls| && ExhaustedAt(settings, calls, k)
    ensures j < k && LimitSpentAt(settings, calls, j)
  {
    ExhaustedStep(settings, calls, k - 1);
    if LimitSpentAt(settings, calls, k - 1) {
      j := k - 1;
    } else {
      j := SpentFound(settings, calls, k - 1);
    }
  }

  /** The summary remembers exactly whether there was such an event. */
  lemma LimitExhaustedExactly(settings: Settings, calls: seq<Call>, k: nat)
    requires settings.Valid() && k <= |calls|
    ensures ExhaustedAt(settings, calls, k) <==> exists j :: 0 <= j < k && LimitSpentAt(settings, calls, j)
  {
    if j :| 0 <= j < k && LimitSpentAt(settings, calls, j) {
      SpentRemembered(settings, calls, j, k);
    } else if ExhaustedAt(settings, calls, k) {
      var j := SpentFound(settings, calls, k);
    }
  }

  // ----- launches ---------------------------------------------------------------------------

  /** The finished record of a launch, across the limit event that scheduled it and the wait that ended in it. */
  ghost predicate TellsLaunch(r: Record, hit: Call, s: Scheduled, elapsed: Duration, number: nat)
    requires hit.LimitHit?
  {
    var cooled := s.kind == CircuitCooldown;
    r == Record(Some(hit.condition), if cooled then HalfOpenLaunch else WaitedBackoff, Some(number), Some(s.sequenceIndex),
                Some(Millis(s.duration)), Some(Millis(elapsed)), Some(s.kind), if cooled then HalfOpen else Closed,
                hit.record.truncated)
    && Millis(s.duration) <= Millis(elapsed)
  }

  /**
   However the controller was used in between, a record carried from the event that
   scheduled the pending wait to the wait's completion ends up telling the whole launch.
   */
  lemma LaunchRecorded(settings: Settings, before: Controller, hit: Call, later: Controller, end: Call)
    requires settings.Valid() && hit.LimitHit? && end.WaitEnded?
    requires IsWait(Step(settings, before, hit).result)
    requires later.pending == Some(Step(settings, before, hit).result.value.scheduled) && Sound(settings, later)
    requires end.record == Step(settings, before, hit).record
    requires IsLaunch(Step(settings, later, end).result)
    ensures var s, o := later.pending.value, Step(settings, later, end);
      && s.sequenceIndex == before.sequence
      && TellsLaunch(o.record, hit, s, end.elapsed, o.result.value.restartNumber)
      && ActionOf(o.result.value, o.record.decision) == LaunchNow(s.restartNumber, s.kind == CircuitCooldown)
  {
    WaitRecorded(settings, before, hit);
    WaitKeepsSound(settings, later, end);
    MillisMonotone(later.pending.value.duration, end.elapsed);
  }

  lemma MillisMonotone(a: Duration, b: Duration)
    requires a <= b
    ensures Millis(a) <= Millis(b)
  {
  }

  lemma WaitRecorded(settings: Settings, c: Controller, hit: Call)
    requires settings.Valid() && hit.LimitHit? && IsWait(Step(settings, c, hit).result)
    ensures var s, r := Step(settings, c, hit).result.value.scheduled, Step(settings, c, hit).record;
      && s.sequenceIndex == c.sequence
      && r == hit.record.(trigger := Some(hit.condition),
                          decision := if s.kind == CircuitCooldown then WaitedCooldown else WaitedBackoff,
                          restartNumber := Some(s.restartNumber), sequenceIndex := Some(s.sequenceIndex),
                          configuredWaitMs := Some(Millis(s.duration)), waitKind := Some(s.kind),
                          circuitState := s.circuitState)
      && ActionOf(Wait(s), r.decision) == WaitFor(s.duration, s.kind)
  {
  }
}
