/**
 The restart coordinator: which limit events lead to another launch, after
 which wait, and what the summary and the decision records say about it.

 `OnLimit` and `CompleteWait` give one call's whole effect, refusals and their
 partial updates included; the class performs them in place, and the theorems
 are about every sequence of calls.
 */
module RestartController {
  import opened Common
  import opened Backoff
  import opened CircuitPressure

  datatype Condition = MemoryLimit | Deadline

  datatype Settings = Settings(
    effective: set<Condition>, limit: Option<nat>, backoff: Policy, circuit: Option<Circuit>)
  {
    /** What the source's `validate` guarantees of settings a controller is built from. */
    ghost predicate Valid() {
      && effective != {}
      && (limit.Some? ==> 0 < limit.value <= U64_MAX)
      && backoff.Valid()
      && (circuit.Some? ==> circuit.value.Valid())
    }

    /** Circuit durations fit 64-bit milliseconds, as every parsed duration does; `validate` does not check it. */
    predicate CircuitFits() {
      circuit.Some? ==> DurationMillis(circuit.value.cooldown).Ok? && DurationMillis(circuit.value.halfLife).Ok?
    }
  }

  datatype SafetyProof = SafetyProof(
    directChildReaped: bool, workloadEmpty: Option<bool>, helpersReaped: bool, containmentRemoved: bool,
    containmentIncapableOfLiveMembers: bool, sealedBoundaryRetired: bool, errors: seq<string>)
  {
    predicate IsSafe() {
      && directChildReaped && workloadEmpty == Some(true) && helpersReaped
      && (containmentRemoved || containmentIncapableOfLiveMembers) && errors == []
    }
  }

  datatype CircuitState = Closed | Open | HalfOpen
  datatype WaitKind = LogisticBackoff | CircuitCooldown
  datatype Scheduled = Scheduled(
    kind: WaitKind, duration: Duration, restartNumber: nat, sequenceIndex: nat, circuitState: CircuitState)
  datatype Completion = Completed | Interrupted | SupervisionDeadline

  datatype Decision =
    | StopConditionNotSelected
    | StopLimitExhausted
    | StopCleanupUnsafe
    | StopInterrupted
    | StopSupervisionDeadline
    | Wait(scheduled: Scheduled)
    | Launch(restartNumber: nat, halfOpen: bool)

  datatype DecisionKind =
    | NoneDisabled
    | NoneConditionNotSelected
    | NoneLimitExhausted
    | NoneCleanupUnsafe
    | NoneTerminalDeadline
    | WaitedBackoff
    | WaitedCooldown
    | HalfOpenLaunch
    | AbortedByInterruption

  datatype Error = FromBackoff(error: BackoffError) | InvalidCircuit | CounterRange | InvalidTransition

  datatype Record = Record(
    trigger: Option<Condition>, decision: DecisionKind, restartNumber: Option<nat>, sequenceIndex: Option<nat>,
    configuredWaitMs: Option<nat>, actualWaitMs: Option<nat>, waitKind: Option<WaitKind>,
    circuitState: CircuitState, truncated: bool)

  datatype Summary = Summary(
    enabled: bool, launched: nat, limitExhausted: bool, waits: nat, cooldowns: nat, openCount: nat,
    finalState: CircuitState)
  {
    predicate StandaloneValid() {
      && cooldowns <= openCount
      && (enabled || this == Summary(false, 0, false, 0, 0, 0, Closed))
    }
  }

  datatype Controller = Controller(
    launched: nat, backoff: State, sequence: nat, pressure: real, lastCircuit: Option<Duration>,
    circuitState: CircuitState, pending: Option<Scheduled>, summary: Summary)

  datatype Outcome = Outcome(next: Controller, record: Record, result: Result<Decision, Error>)

  function Fresh(settings: Settings): (c: Controller) {
    Controller(0, Start(settings.backoff), 0, 0.0, None, Closed, None, Summary(false, 0, false, 0, 0, 0, Closed))
  }

  predicate HasRemainingLaunch(settings: Settings, launched: nat) {
    settings.limit.None? || launched < settings.limit.value
  }

  // ----- one limit event ---------------------------------------------------------

  function OnLimit(settings: Settings, c: Controller, record: Record, condition: Condition, now: Duration, cleanup: SafetyProof)
    : (o: Outcome)
    requires settings.Valid()
  {
    var enabled := c.(summary := c.summary.(enabled := true));
    var triggered := record.(trigger := Some(condition));
    if condition !in settings.effective then
      Outcome(enabled, triggered.(decision := NoneConditionNotSelected), Ok(StopConditionNotSelected))
    else if !cleanup.IsSafe() then
      Outcome(enabled, triggered.(decision := NoneCleanupUnsafe), Ok(StopCleanupUnsafe))
    else if !HasRemainingLaunch(settings, c.launched) then
      Outcome(enabled.(summary := enabled.summary.(limitExhausted := true)),
              triggered.(decision := NoneLimitExhausted), Ok(StopLimitExhausted))
    else if c.pending.Some? then
      Outcome(enabled, triggered, Err(InvalidTransition))
    else
      Schedule(settings, enabled, triggered, now)
  }

  function Schedule(settings: Settings, c: Controller, record: Record, now: Duration): (o: Outcome)
    requires settings.Valid()
  {
    match OnBackoff(settings.backoff, c.backoff, now)
    case Err(e) => Outcome(c, record, Err(FromBackoff(e)))
    case Ok(backoff) =>
      var waited := c.(backoff := backoff);
      if c.sequence >= U64_MAX then Outcome(waited, record, Err(CounterRange))
      else
        var counted := waited.(sequence := c.sequence + 1);
        match Eligible(settings, counted, now)
        case Err(e) => Outcome(counted, record, Err(FromBackoff(e)))
        case Ok(pressed) => Place(settings, pressed.0, record, pressed.1, c.sequence)
  }

  /** Records an eligible event with the circuit, if there is one, and says whether it opens. */
  function Eligible(settings: Settings, c: Controller, now: Duration): (r: Result<(Controller, bool), BackoffError>) {
    match settings.circuit
    case None => Ok((c, false))
    case Some(circuit) =>
      match Recorded(circuit, c.pressure, c.lastCircuit, now)
      case Err(e) => Err(e)
      case Ok(pressure) =>
        Ok((c.(pressure := pressure, lastCircuit := Some(now)), pressure >= circuit.threshold))
  }

  function Place(settings: Settings, c: Controller, record: Record, opens: bool, index: nat): (o: Outcome) {
    if opens || c.circuitState == HalfOpen then
      var broken := c.(circuitState := Open);
      if settings.circuit.None? then Outcome(broken, record, Err(InvalidCircuit))
      else if c.launched >= U64_MAX then Outcome(broken, record, Err(CounterRange))
      else Book(broken, record, Scheduled(
        CircuitCooldown, Max(c.backoff.current, settings.circuit.value.cooldown), c.launched + 1, index, Open))
    else if c.launched >= U64_MAX then Outcome(c, record, Err(CounterRange))
    else Book(c, record, Scheduled(LogisticBackoff, c.backoff.current, c.launched + 1, index, Closed))
  }

  /** Makes `s` the pending wait and enters it in the record and the summary. */
  function Book(c: Controller, record: Record, s: Scheduled): (o: Outcome) {
    var booked := c.(pending := Some(s));
    var cooling := s.kind == CircuitCooldown;
    var noted := record.(decision := if cooling then WaitedCooldown else WaitedBackoff,
                         restartNumber := Some(s.restartNumber), sequenceIndex := Some(s.sequenceIndex));
    match DurationMillis(s.duration)
    case Err(e) => Outcome(booked, noted, Err(FromBackoff(e)))
    case Ok(millis) =>
      var full := noted.(configuredWaitMs := Some(millis), waitKind := Some(s.kind), circuitState := s.circuitState);
      if !cooling then
        if c.summary.waits >= U64_MAX then Outcome(booked, full, Err(CounterRange))
        else Outcome(booked.(summary := c.summary.(waits := c.summary.waits + 1, finalState := c.circuitState)),
                     full, Ok(Wait(s)))
      else if c.summary.cooldowns >= U64_MAX then Outcome(booked, full, Err(CounterRange))
      else if c.summary.openCount >= U64_MAX then
        Outcome(booked.(summary := c.summary.(cooldowns := c.summary.cooldowns + 1)), full, Err(CounterRange))
      else Outcome(booked.(summary := c.summary.(cooldowns := c.summary.cooldowns + 1,
                                                 openCount := c.summary.openCount + 1, finalState := c.circuitState)),
                   full, Ok(Wait(s)))
  }

  // ----- the end of a wait ---------------------------------------------------------

  function CompleteWait(settings: Settings, c: Controller, record: Record, completion: Completion, elapsed: Duration,
                        remaining: Option<Duration>): (o: Outcome)
  {
    match c.pending
    case None => Outcome(c, record, Err(InvalidTransition))
    case Some(s) =>
      var taken := c.(pending := None);
      match DurationMillis(elapsed)
      case Err(e) => Outcome(taken, record, Err(FromBackoff(e)))
      case Ok(millis) =>
        var timed := record.(actualWaitMs := Some(millis));
        if completion == Interrupted then
          Outcome(taken, timed.(decision := AbortedByInterruption), Ok(StopInterrupted))
        else if completion == SupervisionDeadline then
          Outcome(taken, timed.(decision := NoneTerminalDeadline, truncated := true), Ok(StopSupervisionDeadline))
        else if elapsed < s.duration then
          Outcome(taken, timed, Err(InvalidTransition))
        else if remaining == Some(0) then
          Outcome(taken, timed.(decision := NoneTerminalDeadline, truncated := true), Ok(StopSupervisionDeadline))
        else if !HasRemainingLaunch(settings, c.launched) then
          Outcome(taken.(summary := c.summary.(limitExhausted := true)), timed.(decision := NoneLimitExhausted),
                  Ok(StopLimitExhausted))
        else if c.launched >= U64_MAX then
          Outcome(taken, timed, Err(CounterRange))
        else
          Launched(taken, timed, s.kind == CircuitCooldown)
  }

  function Launched(c: Controller, record: Record, halfOpen: bool): (o: Outcome) {
    var state := if halfOpen then HalfOpen else Closed;
    Outcome(c.(launched := c.launched + 1, circuitState := state,
               summary := c.summary.(launched := c.launched + 1, finalState := state)),
            record.(decision := if halfOpen then HalfOpenLaunch else record.decision, circuitState := state),
            Ok(Launch(c.launched + 1, halfOpen)))
  }

  // ----- the coordinator -------------------------------------------------------------

  class RestartCoordinator {
    const settings: Settings
    const backoff: BackoffState
    var launched: nat
    var sequence: nat
    var pressure: real
    var lastCircuit: Option<Duration>
    var circuitState: CircuitState
    var pending: Option<Scheduled>
    var summary: Summary

    ghost predicate Valid()
      reads this
    {
      settings.Valid() && backoff.policy == settings.backoff
    }

    ghost function View(): Controller
      reads this, backoff
    {
      Controller(launched, backoff.View(), sequence, pressure, lastCircuit, circuitState, pending, summary)
    }

    constructor (settings: Settings)
      requires settings.Valid()
      ensures Valid() && this.settings == settings && fresh(backoff) && View() == Fresh(settings)
    {
      this.settings := settings;
      backoff := new BackoffState(settings.backoff);
      launched, sequence, pressure, lastCircuit := 0, 0, 0.0, None;
      circuitState, pending, summary := Closed, None, Summary(false, 0, false, 0, 0, 0, Closed);
    }

    method AfterLimit(condition: Condition, now: Duration, cleanup: SafetyProof, record: Record)
      returns (updated: Record, r: Result<Decision, Error>)
      requires Valid()
      modifies this, backoff
      ensures Valid()
      ensures Outcome(View(), updated, r) == OnLimit(settings, old(View()), record, condition, now, cleanup)
    {
      summary := summary.(enabled := true);
      updated := record.(trigger := Some(condition));
      if condition !in settings.effective {
        return updated.(decision := NoneConditionNotSelected), Ok(StopConditionNotSelected);
      }
      if !cleanup.IsSafe() {
        return updated.(decision := NoneCleanupUnsafe), Ok(StopCleanupUnsafe);
      }
      if !HasRemainingLaunch(settings, launched) {
        summary := summary.(limitExhausted := true);
        return updated.(decision := NoneLimitExhausted), Ok(StopLimitExhausted);
      }
      if pending.Some? {
        return updated, Err(InvalidTransition);
      }
      updated, r := ScheduleWait(updated, now);
    }

    method ScheduleWait(record: Record, now: Duration) returns (updated: Record, r: Result<Decision, Error>)
      requires Valid()
      modifies this, backoff
      ensures Valid()
      ensures Outcome(View(), updated, r) == Schedule(settings, old(View()), record, now)
    {
      var index := sequence;
      var wait := backoff.Observe(now);
      if wait.Err? {
        return record, Err(FromBackoff(wait.error));
      }
      if sequence >= U64_MAX {
        return record, Err(CounterRange);
      }
      sequence := sequence + 1;
      var opens := false;
      if settings.circuit.Some? {
        var circuit := settings.circuit.value;
        var pressed := Recorded(circuit, pressure, lastCircuit, now);
        if pressed.Err? {
          return record, Err(FromBackoff(pressed.error));
        }
        pressure, lastCircuit := pressed.value, Some(now);
        opens := pressure >= circuit.threshold;
      }
      updated, r := PlaceWait(record, wait.value, opens, index);
    }

    method PlaceWait(record: Record, wait: Duration, opens: bool, index: nat)
      returns (updated: Record, r: Result<Decision, Error>)
      requires Valid() && wait == backoff.current
      modifies this
      ensures Valid()
      ensures Outcome(View(), updated, r) == Place(settings, old(View()), record, opens, index)
    {
      var s;
      if opens || circuitState == HalfOpen {
        circuitState := Open;
        if settings.circuit.None? {
          return record, Err(InvalidCircuit);
        }
        if launched >= U64_MAX {
          return record, Err(CounterRange);
        }
        s := Scheduled(CircuitCooldown, Max(wait, settings.circuit.value.cooldown), launched + 1, index, Open);
      } else {
        if launched >= U64_MAX {
          return record, Err(CounterRange);
        }
        s := Scheduled(LogisticBackoff, wait, launched + 1, index, Closed);
      }
      updated, r := BookWait(record, s);
    }

    method BookWait(record: Record, s: Scheduled) returns (updated: Record, r: Result<Decision, Error>)
      requires Valid()
      modifies this
      ensures Valid()
      ensures Outcome(View(), updated, r) == Book(old(View()), record, s)
    {
      pending := Some(s);
      updated := record.(decision := if s.kind == CircuitCooldown then WaitedCooldown else WaitedBackoff);
      updated := updated.(restartNumber := Some(s.restartNumber), sequenceIndex := Some(s.sequenceIndex));
      var millis := DurationMillis(s.duration);
      if millis.Err? {
        return updated, Err(FromBackoff(millis.error));
      }
      updated := updated.(configuredWaitMs := Some(millis.value), waitKind := Some(s.kind), circuitState := s.circuitState);
      match s.kind {
        case LogisticBackoff =>
          if summary.waits >= U64_MAX {
            return updated, Err(CounterRange);
          }
          summary := summary.(waits := summary.waits + 1);
        case CircuitCooldown =>
          if summary.cooldowns >= U64_MAX {
            return updated, Err(CounterRange);
          }
          summary := summary.(cooldowns := summary.cooldowns + 1);
          if summary.openCount >= U64_MAX {
            return updated, Err(CounterRange);
          }
          summary := summary.(openCount := summary.openCount + 1);
      }
      summary := summary.(finalState := circuitState);
      r := Ok(Wait(s));
    }

    method AuthorizeAfterWait(completion: Completion, elapsed: Duration, remaining: Option<Duration>, record: Record)
      returns (updated: Record, r: Result<Decision, Error>)
      requires Valid()
      modifies this
      ensures Valid()
      ensures Outcome(View(), updated, r) == CompleteWait(settings, old(View()), record, completion, elapsed, remaining)
    {
      updated := record;
      if pending.None? {
        return updated, Err(InvalidTransition);
      }
      var s := pending.value;
      pending := None;
      var millis := DurationMillis(elapsed);
      if millis.Err? {
        return updated, Err(FromBackoff(millis.error));
      }
      updated := updated.(actualWaitMs := Some(millis.value));
      if completion == Interrupted {
        return updated.(decision := AbortedByInterruption), Ok(StopInterrupted);
      }
      if completion == SupervisionDeadline {
        return updated.(decision := NoneTerminalDeadline, truncated := true), Ok(StopSupervisionDeadline);
      }
      if elapsed < s.duration {
        return updated, Err(InvalidTransition);
      }
      if remaining == Some(0) {
        return updated.(decision := NoneTerminalDeadline, truncated := true), Ok(StopSupervisionDeadline);
      }
      if !HasRemainingLaunch(settings, launched) {
        summary := summary.(limitExhausted := true);
        return updated.(decision := NoneLimitExhausted), Ok(StopLimitExhausted);
      }
      if launched >= U64_MAX {
        return updated, Err(CounterRange);
      }
      launched := launched + 1;
      var halfOpen := s.kind == CircuitCooldown;
      circuitState := if halfOpen then HalfOpen else Closed;
      updated := updated.(decision := if halfOpen then HalfOpenLaunch else updated.decision, circuitState := circuitState);
      summary := summary.(launched := launched, finalState := circuitState);
      r := Ok(Launch(launched, halfOpen));
    }
  }
}
