/**
 The circuit breaker over whole runs: which events it has recorded, exactly
 when it opens, and when it never does.
 */
module RestartCircuit {
  import opened Common
  import opened HalfLife
  import opened Backoff
  import opened CircuitPressure
  import opened RestartController
  import opened RestartRuns
  import opened RestartBooks

  // ----- one call ------------------------------------------------------------------------

  /** The event passes every check and its circuit arithmetic fits: it is recorded, whatever becomes of its wait. */
  ghost predicate ReachesCircuit(settings: Settings, c: Controller, call: Call)
    requires settings.circuit.Some?
  {
    Admissible(settings, c, call) && Recorded(settings.circuit.value, c.pressure, c.lastCircuit, call.now).Ok?
  }

  lemma CircuitSchedule(settings: Settings, c: Controller, record: Record, now: Duration)
    requires settings.Valid() && settings.circuit.Some? && Sound(settings, c)
    requires c.pending.None? && HasRemainingLaunch(settings, c.launched)
    ensures var o := Schedule(settings, c, record, now);
      var circuit := settings.circuit.value;
      var pressure := Recorded(circuit, c.pressure, c.lastCircuit, now);
      if c.sequence < U64_MAX && ElapsedMillis(c.backoff.last, now).Ok? && pressure.Ok? then
        && o.next.pressure == pressure.value && o.next.lastCircuit == Some(now)
        && o.next.pending.Some?
        && (o.next.pending.value.kind == CircuitCooldown
            <==> pressure.value >= circuit.threshold || c.circuitState == HalfOpen)
        && (o.next.circuitState == if o.next.pending.value.kind == CircuitCooldown then Open else c.circuitState)
      else
        && o.next.pressure == c.pressure && o.next.lastCircuit == c.lastCircuit
        && o.next.pending.None? && o.next.circuitState == c.circuitState
  {
    CountedStateSound(settings, c, now);
    OnBackoffInRange(settings.backoff, c.backoff, now);
    match CountedState(settings, c, now)
    case Err(_) =>
    case Ok(counted) =>
      EligibleSound(settings, counted, now);
      match Eligible(settings, counted, now) {
        case Err(_) =>
        case Ok(pressed) =>
          PlaceSound(settings, pressed.0, record, pressed.1, c.sequence);
          PlaceFrame(settings, pressed.0, record, pressed.1, c.sequence);
      }
  }

  /** What one limit event does to the circuit: recorded and weighed against the threshold, or not seen at all. */
  lemma CircuitStep(settings: Settings, c: Controller, call: Call)
    requires settings.Valid() && settings.circuit.Some? && Sound(settings, c) && call.LimitHit?
    ensures var o := Step(settings, c, call);
      var circuit := settings.circuit.value;
      if ReachesCircuit(settings, c, call) then
        && Recorded(circuit, c.pressure, c.lastCircuit, call.now) == Ok(o.next.pressure)
        && o.next.lastCircuit == Some(call.now)
        && o.next.pending.Some?
        && (o.next.pending.value.kind == CircuitCooldown
            <==> o.next.pressure >= circuit.threshold || c.circuitState == HalfOpen)
        && (o.next.circuitState == if o.next.pending.value.kind == CircuitCooldown then Open else c.circuitState)
      else
        && o.next.pressure == c.pressure && o.next.lastCircuit == c.lastCircuit
        && o.next.pending == c.pending && o.next.circuitState == c.circuitState
  {
    if call.condition in settings.effective && call.cleanup.IsSafe()
       && c.pending.None? && HasRemainingLaunch(settings, c.launched)
    {
      CircuitSchedule(settings, c.(summary := c.summary.(enabled := true)),
                      call.record.(trigger := Some(call.condition)), call.now);
    }
  }

  lemma WaitReaches(settings: Settings, c: Controller, call: Call)
    requires settings.Valid() && settings.circuit.Some? && Sound(settings, c)
    requires IsWait(Step(settings, c, call).result)
    ensures ReachesCircuit(settings, c, call)
    ensures Step(settings, c, call).next.pending == Some(Step(settings, c, call).result.value.scheduled)
  {
    match call
    case LimitHit(_, _, _, _) =>
      LimitKeepsSound(settings, c, call);
      CircuitStep(settings, c, call);
    case WaitEnded(_, _, _, _) => WaitKeepsSound(settings, c, call);
  }

  // ----- whole runs ------------------------------------------------------------------------

  ghost predicate RecordedAt(settings: Settings, calls: seq<Call>, k: nat)
    requires settings.Valid() && settings.circuit.Some? && k < |calls|
  {
    ReachesCircuit(settings, At(settings, calls, k), calls[k])
  }

  /** Times of the events the circuit has recorded. */
  ghost function CircuitTimes(settings: Settings, calls: seq<Call>, k: nat): (times: seq<Duration>)
    requires settings.Valid() && settings.circuit.Some? && k <= |calls|
  {
    if k == 0 then []
    else CircuitTimes(settings, calls, k - 1) + if RecordedAt(settings, calls, k - 1) then [calls[k - 1].now] else []
  }

  ghost predicate PressureTracks(h: HalfLife, c: Controller, times: seq<Duration>) {
    && NonDecreasing(times)
    && c.pressure == Pressure(h, times)
    && c.lastCircuit == (if times == [] then None else Some(times[|times| - 1]))
  }

  lemma PressureGrows(circuit: Circuit, c: Controller, times: seq<Duration>, now: Duration)
    requires PressureTracks(circuit.Fading(), c, times)
    requires Recorded(circuit, c.pressure, c.lastCircuit, now).Ok?
    ensures NonDecreasing(times + [now])
    ensures Recorded(circuit, c.pressure, c.lastCircuit, now).value == Pressure(circuit.Fading(), times + [now])
  {
    var longer := times + [now];
    assert longer[..|longer| - 1] == times;
    if times == [] {
      assert c.pressure * 0.0 == 0.0;
    }
  }

  lemma PressureStep(settings: Settings, c: Controller, call: Call, times: seq<Duration>)
    requires settings.Valid() && settings.circuit.Some? && Sound(settings, c)
    requires PressureTracks(settings.circuit.value.Fading(), c, times)
    ensures PressureTracks(settings.circuit.value.Fading(), Step(settings, c, call).next,
                           times + if ReachesCircuit(settings, c, call) then [call.now] else [])
  {
    if ReachesCircuit(settings, c, call) {
      CircuitStep(settings, c, call);
      PressureGrows(settings.circuit.value, c, times, call.now);
    } else {
      assert times + [] == times;
      if call.LimitHit? {
        CircuitStep(settings, c, call);
      }
    }
  }

  ghost predicate TracksAt(settings: Settings, calls: seq<Call>, k: nat)
    requires settings.Valid() && settings.circuit.Some? && k <= |calls|
  {
    PressureTracks(settings.circuit.value.Fading(), At(settings, calls, k), CircuitTimes(settings, calls, k))
  }

  lemma TracksStep(settings: Settings, calls: seq<Call>, k: nat)
    requires settings.Valid() && settings.circuit.Some? && k < |calls| && TracksAt(settings, calls, k)
    ensures TracksAt(settings, calls, k + 1)
  {
    AlwaysSound(settings, calls, k);
    PressureStep(settings, At(settings, calls, k), calls[k], CircuitTimes(settings, calls, k));
  }

  /** In every reachable state the pressure is the recurrence run over the recorded events. */
  lemma {:induction false} PressureOverRuns(settings: Settings, calls: seq<Call>, k: nat)
    requires settings.Valid() && settings.circuit.Some? && k <= |calls|
    ensures TracksAt(settings, calls, k)
  {
    if k == 0 {
    } else {
      PressureOverRuns(settings, calls, k - 1);
      TracksStep(settings, calls, k - 1);
    }
  }

  // ----- half-open trials -----------------------------------------------------------------------

  ghost predicate HalfOpenAt(settings: Settings, calls: seq<Call>, k: nat)
    requires settings.Valid() && k <= |calls|
  {
    At(settings, calls, k).circuitState == HalfOpen
  }

  /** Call `k` launched a half-open trial. */
  ghost predicate TrialAt(settings: Settings, calls: seq<Call>, k: nat)
    requires settings.Valid() && k < |calls|
  {
    LaunchesAt(settings, calls, k) && ResultOf(settings, calls, k).value.halfOpen
  }

  ghost predicate HalfOpenIsIdle(c: Controller) {
    c.circuitState == HalfOpen ==> c.pending.None?
  }

  lemma HalfOpenStep(settings: Settings, c: Controller, call: Call)
    requires settings.Valid() && settings.circuit.Some? && Sound(settings, c) && HalfOpenIsIdle(c)
    ensures var o := Step(settings, c, call);
      && HalfOpenIsIdle(o.next)
      && (o.next.circuitState == HalfOpen <==>
            || (IsLaunch(o.result) && o.result.value.halfOpen)
            || (c.circuitState == HalfOpen && !ReachesCircuit(settings, c, call)))
  {
    match call
    case LimitHit(_, _, _, _) =>
      CircuitStep(settings, c, call);
      LimitKeepsSound(settings, c, call);
    case WaitEnded(_, _, _, _) =>
  }

  ghost predicate IdleAt(settings: Settings, calls: seq<Call>, k: nat)
    requires settings.Valid() && k <= |calls|
  {
    HalfOpenIsIdle(At(settings, calls, k))
  }

  lemma IdleStep(settings: Settings, calls: seq<Call>, k: nat)
    requires settings.Valid() && settings.circuit.Some? && k < |calls| && IdleAt(settings, calls, k)
    ensures IdleAt(settings, calls, k + 1)
  {
    AlwaysSound(settings, calls, k);
    HalfOpenStep(settings, At(settings, calls, k), calls[k]);
  }

  lemma {:induction false} AlwaysIdle(settings: Settings, calls: seq<Call>, k: nat)
    requires settings.Valid() && settings.circuit.Some? && k <= |calls|
    ensures IdleAt(settings, calls, k)
  {
    if k == 0 {
    } else {
      AlwaysIdle(settings, calls, k - 1);
      IdleStep(settings, calls, k - 1);
    }
  }

  lemma HalfOpenNext(settings: Settings, calls: seq<Call>, k: nat)
    requires settings.Valid() && settings.circuit.Some? && k < |calls|
    ensures HalfOpenAt(settings, calls, k + 1) <==>
      TrialAt(settings, calls, k) || (HalfOpenAt(settings, calls, k) && !RecordedAt(settings, calls, k))
  {
    AlwaysSound(settings, calls, k);
    AlwaysIdle(settings, calls, k);
    HalfOpenStep(settings, At(settings, calls, k), calls[k]);
  }

  /** `on` happened before `k`, and `off` has not since. */
  ghost predicate Lasts(on: nat -> bool, off: nat -> bool, k: nat) {
    exists m: nat :: m < k && on(m) && Quiet(off, m, k)
  }

  ghost predicate Quiet(off: nat -> bool, m: nat, k: nat) {
    forall j: nat :: m < j < k ==> !off(j)
  }

  lemma LastsNext(on: nat -> bool, off: nat -> bool, k: nat)
    ensures Lasts(on, off, k + 1) <==> on(k) || (Lasts(on, off, k) && !off(k))
  {
    var next := k + 1;
    if m: nat :| m < next && on(m) && Quiet(off, m, next) {
      if m < k {
        assert Quiet(off, m, k);
      }
    }
    if on(k) {
      assert Quiet(off, k, next);
    } else if !off(k) {
      if m: nat :| m < k && on(m) && Quiet(off, m, k) {
        assert Quiet(off, m, next);
      }
    }
  }

  /** A state switched on by one kind of step and off by another. */
  lemma {:induction false} SwitchLasts(state: nat -> bool, on: nat -> bool, off: nat -> bool, k: nat)
    requires !state(0) && forall j: nat :: j < k ==> (state(j + 1) <==> on(j) || (state(j) && !off(j)))
    ensures state(k) <==> Lasts(on, off, k)
  {
    if k == 0 {
    } else {
      SwitchLasts(state, on, off, k - 1);
      LastsNext(on, off, k - 1);
    }
  }

  ghost function Trials(settings: Settings, calls: seq<Call>): nat -> bool
    requires settings.Valid()
  {
    (j: nat) => j < |calls| && TrialAt(settings, calls, j)
  }

  ghost function Recordings(settings: Settings, calls: seq<Call>): nat -> bool
    requires settings.Valid() && settings.circuit.Some?
  {
    (j: nat) => j < |calls| && RecordedAt(settings, calls, j)
  }

  ghost function HalfOpens(settings: Settings, calls: seq<Call>): nat -> bool
    requires settings.Valid()
  {
    (j: nat) => j <= |calls| && HalfOpenAt(settings, calls, j)
  }

  /** A half-open trial was launched and the circuit has recorded no event since. */
  ghost predicate TrialRunning(settings: Settings, calls: seq<Call>, k: nat)
    requires settings.Valid() && settings.circuit.Some? && k <= |calls|
  {
    Lasts(Trials(settings, calls), Recordings(settings, calls), k)
  }

  /** In every run the circuit is half-open exactly from a half-open launch to the next recorded event. */
  lemma HalfOpenExactly(settings: Settings, calls: seq<Call>, k: nat)
    requires settings.Valid() && settings.circuit.Some? && k <= |calls|
    ensures HalfOpenAt(settings, calls, k) <==> TrialRunning(settings, calls, k)
  {
    var state, on, off := HalfOpens(settings, calls), Trials(settings, calls), Recordings(settings, calls);
    forall j: nat | j < k ensures state(j + 1) <==> on(j) || (state(j) && !off(j)) {
      HalfOpenNext(settings, calls, j);
    }
    StartsUntried(settings, calls);
    SwitchLasts(state, on, off, k);
  }

  lemma StartsUntried(settings: Settings, calls: seq<Call>)
    requires settings.Valid()
    ensures !HalfOpens(settings, calls)(0)
  {
  }

  // ----- when the circuit opens -------------------------------------------------------------------

  /**
   In every run, a wait is a cooldown exactly when the decayed weights of all events
   recorded so far, this one included, reach the threshold, or it is the first event
   recorded since a half-open trial was launched.
   */
  lemma CircuitOpensExactly(settings: Settings, calls: seq<Call>, k: nat)
    requires settings.Valid() && settings.circuit.Some? && k < |calls| && IsWait(ResultOf(settings, calls, k))
    ensures calls[k].LimitHit? && RecordedAt(settings, calls, k)
    ensures var circuit := settings.circuit.value;
      var times := CircuitTimes(settings, calls, k) + [calls[k].now];
      && NonDecreasing(times)
      && (ResultOf(settings, calls, k).value.scheduled.kind == CircuitCooldown
          <==> || DecaySum(circuit.Fading(), Ages(times)) >= circuit.threshold
               || TrialRunning(settings, calls, k))
  {
    var c, times := At(settings, calls, k), CircuitTimes(settings, calls, k);
    AlwaysSound(settings, calls, k);
    PressureOverRuns(settings, calls, k);
    HalfOpenExactly(settings, calls, k);
    WaitReaches(settings, c, calls[k]);
    CircuitStep(settings, c, calls[k]);
    PressureGrows(settings.circuit.value, c, times, calls[k].now);
    PressureIsDecaySum(settings.circuit.value.Fading(), times + [calls[k].now]);
  }

  // ----- recorded events and waits ------------------------------------------------------------

  /** Times of the limit events that led to a wait. */
  ghost function EligibleTimes(settings: Settings, calls: seq<Call>, k: nat): (times: seq<Duration>)
    requires settings.Valid() && k <= |calls|
  {
    if k == 0 then []
    else
      var waited := calls[k - 1].LimitHit? && WaitsAt(settings, calls, k - 1);
      EligibleTimes(settings, calls, k - 1) + if waited then [calls[k - 1].now] else []
  }

  lemma RecordedIsWaited(settings: Settings, calls: seq<Call>, k: nat)
    requires settings.Valid() && settings.circuit.Some? && k < |calls|
    requires BalancedAt(settings, calls, k) && !LostAt(settings, calls, k)
    ensures RecordedAt(settings, calls, k) <==> calls[k].LimitHit? && WaitsAt(settings, calls, k)
  {
    var c := At(settings, calls, k);
    AlwaysSound(settings, calls, k);
    WaitsExactly(settings, c, calls[k]);
    if IsWait(ResultOf(settings, calls, k)) {
      WaitReaches(settings, c, calls[k]);
    }
  }

  /** As long as no event is lost, the recorded events are exactly those that led to a wait. */
  lemma {:induction false} RecordedAreEligible(settings: Settings, calls: seq<Call>, k: nat)
    requires settings.Valid() && settings.circuit.Some? && k <= |calls|
    requires forall j :: 0 <= j < k ==> !LostAt(settings, calls, j)
    ensures CircuitTimes(settings, calls, k) == EligibleTimes(settings, calls, k)
  {
    if k == 0 {
    } else {
      RecordedAreEligible(settings, calls, k - 1);
      KeepsBalanced(settings, calls, k - 1);
      RecordedIsWaited(settings, calls, k - 1);
    }
  }

  /** The same in terms of the waits alone, for every run in which no event has been lost. */
  lemma CircuitOpensForWaits(settings: Settings, calls: seq<Call>, k: nat)
    requires settings.Valid() && settings.circuit.Some? && k < |calls| && calls[k].LimitHit? && WaitsAt(settings, calls, k)
    requires forall j :: 0 <= j < k ==> !LostAt(settings, calls, j)
    ensures var circuit := settings.circuit.value;
      var times := EligibleTimes(settings, calls, k) + [calls[k].now];
      && NonDecreasing(times)
      && (ResultOf(settings, calls, k).value.scheduled.kind == CircuitCooldown
          <==> || DecaySum(circuit.Fading(), Ages(times)) >= circuit.threshold
               || TrialRunning(settings, calls, k))
  {
    RecordedAreEligible(settings, calls, k);
    CircuitOpensExactly(settings, calls, k);
  }

  // ----- spaced events --------------------------------------------------------------------------

  ghost predicate HalfLifeApart(h: HalfLife, times: seq<Duration>) {
    NonDecreasing(times) && forall j :: 0 < j < |times| ==> Millis(Gap(times, j)) >= h.millis
  }

  ghost predicate SpacedAt(settings: Settings, calls: seq<Call>, k: nat)
    requires settings.Valid() && settings.circuit.Some? && k <= |calls|
  {
    HalfLifeApart(settings.circuit.value.Fading(), CircuitTimes(settings, calls, k))
  }

  ghost predicate ClosedAt(settings: Settings, calls: seq<Call>, k: nat)
    requires settings.Valid() && k <= |calls|
  {
    At(settings, calls, k).circuitState == Closed && !PendingCooldown(At(settings, calls, k))
  }

  lemma SpacedPrefix(h: HalfLife, times: seq<Duration>, more: seq<Duration>)
    requires HalfLifeApart(h, times + more)
    ensures HalfLifeApart(h, times)
  {
    var all := times + more;
    forall i, j | 0 <= i <= j < |times| ensures times[i] <= times[j] {
      assert all[i] <= all[j];
    }
    forall j | 0 < j < |times| ensures Millis(Gap(times, j)) >= h.millis {
      assert Gap(all, j) == Gap(times, j);
    }
  }

  lemma SpacedBefore(settings: Settings, calls: seq<Call>, k: nat)
    requires settings.Valid() && settings.circuit.Some? && 0 < k <= |calls| && SpacedAt(settings, calls, k)
    ensures SpacedAt(settings, calls, k - 1)
  {
    SpacedPrefix(settings.circuit.value.Fading(), CircuitTimes(settings, calls, k - 1),
                 if RecordedAt(settings, calls, k - 1) then [calls[k - 1].now] else []);
  }

  lemma WaitStaysClosed(settings: Settings, c: Controller, call: Call)
    requires settings.Valid() && Sound(settings, c) && call.WaitEnded?
    requires c.circuitState == Closed && !PendingCooldown(c)
    ensures Step(settings, c, call).next.circuitState == Closed && !PendingCooldown(Step(settings, c, call).next)
  {
  }

  lemma ClosedStep(settings: Settings, calls: seq<Call>, k: nat)
    requires settings.Valid() && settings.circuit.Some? && settings.circuit.value.threshold >= 2.0
    requires k < |calls| && ClosedAt(settings, calls, k) && SpacedAt(settings, calls, k + 1)
    ensures ClosedAt(settings, calls, k + 1)
  {
    var c := At(settings, calls, k);
    AlwaysSound(settings, calls, k);
    match calls[k]
    case WaitEnded(_, _, _, _) => WaitStaysClosed(settings, c, calls[k]);
    case LimitHit(_, _, _, _) =>
      CircuitStep(settings, c, calls[k]);
      PressureOverRuns(settings, calls, k + 1);
      SpacedEventsStayBelowTwo(settings.circuit.value.Fading(), CircuitTimes(settings, calls, k + 1));
  }

  /** Events at least a half-life apart never open a circuit whose threshold is two or more. */
  lemma {:induction false} SpacedEventsNeverOpen(settings: Settings, calls: seq<Call>, k: nat)
    requires settings.Valid() && settings.circuit.Some? && settings.circuit.value.threshold >= 2.0
    requires k <= |calls| && SpacedAt(settings, calls, k)
    ensures ClosedAt(settings, calls, k)
  {
    if k == 0 {
    } else {
      SpacedBefore(settings, calls, k);
      SpacedEventsNeverOpen(settings, calls, k - 1);
      ClosedStep(settings, calls, k - 1);
    }
  }
}
