/**
 How long the coordinator makes a workload wait, in every run: the backoff's interval
 over the events offered to it, or the circuit's cooldown if that is longer.
 */
module RestartWaits {
  import opened Common
  import opened Backoff
  import opened BackoffRecovery
  import opened CircuitPressure
  import opened RestartController
  import opened RestartRuns

  // ----- one wait ------------------------------------------------------------------------------

  /** Everything a scheduled wait says, in terms of the controller before and after its event. */
  ghost predicate WaitTells(settings: Settings, c: Controller, next: Controller, s: Scheduled) {
    && s.restartNumber == c.launched + 1
    && s.sequenceIndex == c.sequence == next.sequence - 1
    && match s.kind
       case LogisticBackoff => s.duration == next.backoff.current && s.circuitState == Closed
       case CircuitCooldown =>
         && settings.circuit.Some?
         && s.circuitState == Open
         && s.duration >= next.backoff.current && s.duration >= settings.circuit.value.cooldown
         && (s.duration == next.backoff.current || s.duration == settings.circuit.value.cooldown)
  }

  lemma PlaceTells(settings: Settings, c: Controller, record: Record, opens: bool, index: nat)
    requires settings.Valid() && Counted(settings, c) && (opens ==> settings.circuit.Some?) && index == c.sequence - 1
    ensures var o := Place(settings, c, record, opens, index);
      IsWait(o.result) ==> WaitTells(settings, c.(sequence := c.sequence - 1), o.next, o.result.value.scheduled)
  {
  }

  lemma ScheduleTells(settings: Settings, c: Controller, record: Record, now: Duration)
    requires settings.Valid() && Sound(settings, c) && c.pending.None? && HasRemainingLaunch(settings, c.launched)
    ensures var o := Schedule(settings, c, record, now);
      IsWait(o.result) ==> WaitTells(settings, c, o.next, o.result.value.scheduled)
  {
    CountedStateSound(settings, c, now);
    match CountedState(settings, c, now)
    case Err(_) =>
    case Ok(counted) =>
      EligibleSound(settings, counted, now);
      match Eligible(settings, counted, now) {
        case Err(_) =>
        case Ok(pressed) =>
          EligibleFrame(settings, counted, now);
          PlaceTells(settings, pressed.0, record, pressed.1, c.sequence);
      }
  }

  /** Recording touches only the circuit's pressure and clock. */
  lemma EligibleFrame(settings: Settings, c: Controller, now: Duration)
    requires Eligible(settings, c, now).Ok?
    ensures var next := Eligible(settings, c, now).value.0;
      next == c.(pressure := next.pressure, lastCircuit := next.lastCircuit)
  {
  }

  lemma StepTells(settings: Settings, c: Controller, call: Call)
    requires settings.Valid() && Sound(settings, c)
    ensures var o := Step(settings, c, call);
      IsWait(o.result) ==> WaitTells(settings, c, o.next, o.result.value.scheduled)
  {
    match call
    case LimitHit(condition, now, _, record) =>
      LimitKeepsSound(settings, c, call);
      if c.pending.None? && HasRemainingLaunch(settings, c.launched) {
        ScheduleTells(settings, c.(summary := c.summary.(enabled := true)), record.(trigger := Some(condition)), now);
      }
    case WaitEnded(_, _, _, _) => WaitKeepsSound(settings, c, call);
  }

  // ----- the backoff's own history ---------------------------------------------------------------

  /** A limit event that reaches the backoff: selected, safely cleaned up, with a launch left and no wait pending. */
  ghost predicate Offers(settings: Settings, c: Controller, call: Call) {
    && call.LimitHit? && call.condition in settings.effective && SafelyClosed(call.cleanup)
    && (settings.limit.Some? ==> c.launched < settings.limit.value) && c.pending.None?
  }

  ghost predicate OffersAt(settings: Settings, calls: seq<Call>, k: nat)
    requires settings.Valid() && k < |calls|
  {
    Offers(settings, At(settings, calls, k), calls[k])
  }

  /** Times of the events offered to the backoff before call `k`. */
  ghost function OfferedTimes(settings: Settings, calls: seq<Call>, k: nat): (times: seq<Duration>)
    requires settings.Valid() && k <= |calls|
  {
    if k == 0 then []
    else OfferedTimes(settings, calls, k - 1) + if OffersAt(settings, calls, k - 1) then [calls[k - 1].now] else []
  }

  ghost function Offered(policy: Policy, s: State, now: Duration): State
    requires policy.Valid()
  {
    match OnBackoff(policy, s, now)
    case Ok(next) => next
    case Err(_) => s
  }

  lemma ScheduleOffers(settings: Settings, c: Controller, record: Record, now: Duration)
    requires settings.Valid() && Sound(settings, c) && c.pending.None? && HasRemainingLaunch(settings, c.launched)
    ensures Schedule(settings, c, record, now).next.backoff == Offered(settings.backoff, c.backoff, now)
  {
    CountedStateSound(settings, c, now);
    match CountedState(settings, c, now)
    case Err(_) =>
    case Ok(counted) =>
      EligibleSound(settings, counted, now);
      match Eligible(settings, counted, now) {
        case Err(_) =>
        case Ok(pressed) =>
          EligibleFrame(settings, counted, now);
          PlaceFrame(settings, pressed.0, record, pressed.1, c.sequence);
      }
  }

  lemma StepOffers(settings: Settings, c: Controller, call: Call)
    requires settings.Valid() && Sound(settings, c)
    ensures Step(settings, c, call).next.backoff
         == if Offers(settings, c, call) then Offered(settings.backoff, c.backoff, call.now) else c.backoff
  {
    if Offers(settings, c, call) {
      ScheduleOffers(settings, c.(summary := c.summary.(enabled := true)),
                     call.record.(trigger := Some(call.condition)), call.now);
    }
  }

  lemma AfterSnoc(policy: Policy, times: seq<Duration>, now: Duration)
    requires policy.Valid()
    ensures After(policy, times + [now]) == Offered(policy, After(policy, times), now)
  {
    assert (times + [now])[..|times|] == times;
  }

  ghost predicate BackoffTracks(settings: Settings, calls: seq<Call>, k: nat)
    requires settings.Valid() && k <= |calls|
  {
    At(settings, calls, k).backoff == After(settings.backoff, OfferedTimes(settings, calls, k))
  }

  lemma TracksNext(settings: Settings, calls: seq<Call>, k: nat)
    requires settings.Valid() && k < |calls| && BackoffTracks(settings, calls, k)
    ensures BackoffTracks(settings, calls, k + 1)
  {
    AlwaysSound(settings, calls, k);
    StepOffers(settings, At(settings, calls, k), calls[k]);
    var times := OfferedTimes(settings, calls, k);
    if OffersAt(settings, calls, k) {
      AfterSnoc(settings.backoff, times, calls[k].now);
    } else {
      assert times + [] == times;
    }
  }

  /** In every reachable state the backoff is the backoff run over the offered events alone. */
  lemma {:induction false} BackoffOverRuns(settings: Settings, calls: seq<Call>, k: nat)
    requires settings.Valid() && k <= |calls|
    ensures BackoffTracks(settings, calls, k)
  {
    if k == 0 {
    } else {
      BackoffOverRuns(settings, calls, k - 1);
      TracksNext(settings, calls, k - 1);
    }
  }

  // ----- whole runs ---------------------------------------------------------------------------------

  ghost function WaitAt(settings: Settings, calls: seq<Call>, k: nat): Scheduled
    requires settings.Valid() && k < |calls| && WaitsAt(settings, calls, k)
  {
    ResultOf(settings, calls, k).value.scheduled
  }

  /** The interval the backoff computes over the events offered up to and including call `k`. */
  ghost function IntervalAt(settings: Settings, calls: seq<Call>, k: nat): Duration
    requires settings.Valid() && k < |calls|
  {
    After(settings.backoff, OfferedTimes(settings, calls, k + 1)).current
  }

  /**
   Every scheduled wait, in every run: numbered after the launches so far, and as long as
   the backoff's interval over all offered events, stretched to the cooldown if the circuit opens.
   */
  lemma WaitLength(settings: Settings, calls: seq<Call>, k: nat)
    requires settings.Valid() && k < |calls| && WaitsAt(settings, calls, k)
    ensures var s, interval := WaitAt(settings, calls, k), IntervalAt(settings, calls, k);
      && s.restartNumber == LaunchCount(settings, calls, k) + 1
      && s.sequenceIndex == At(settings, calls, k).sequence == At(settings, calls, k + 1).sequence - 1
      && interval == At(settings, calls, k + 1).backoff.current
      && (s.kind == LogisticBackoff ==> s.duration == interval && s.circuitState == Closed)
      && (s.kind == CircuitCooldown ==>
            && settings.circuit.Some?
            && s.circuitState == Open
            && var cooldown := settings.circuit.value.cooldown;
            s.duration == if interval < cooldown then cooldown else interval)
  {
    AlwaysSound(settings, calls, k);
    StepTells(settings, At(settings, calls, k), calls[k]);
    LaunchedCounts(settings, calls, k);
    BackoffOverRuns(settings, calls, k + 1);
  }

  /** Every scheduled logistic wait lies between base and asymptote, in whole milliseconds. */
  lemma WaitsInRange(settings: Settings, calls: seq<Call>, k: nat)
    requires settings.Valid() && k < |calls| && WaitsAt(settings, calls, k)
    requires WaitAt(settings, calls, k).kind == LogisticBackoff
    ensures Between(Millis(WaitAt(settings, calls, k).duration),
                    Millis(settings.backoff.base), Millis(settings.backoff.asymptote))
  {
    WaitLength(settings, calls, k);
    AlwaysInRange(settings.backoff, OfferedTimes(settings, calls, k + 1));
  }

  lemma WaitIsOffered(settings: Settings, calls: seq<Call>, k: nat)
    requires settings.Valid() && k < |calls| && WaitsAt(settings, calls, k)
    ensures OffersAt(settings, calls, k)
    ensures OnBackoff(settings.backoff, At(settings, calls, k).backoff, calls[k].now)
         == Ok(At(settings, calls, k + 1).backoff)
  {
    AlwaysSound(settings, calls, k);
    WaitOffers(settings, At(settings, calls, k), calls[k]);
  }

  lemma WaitOffers(settings: Settings, c: Controller, call: Call)
    requires settings.Valid() && Sound(settings, c) && IsWait(Step(settings, c, call).result)
    ensures Offers(settings, c, call)
    ensures OnBackoff(settings.backoff, c.backoff, call.now) == Ok(Step(settings, c, call).next.backoff)
  {
    match call
    case LimitHit(_, _, _, _) =>
      LimitKeepsSound(settings, c, call);
      StepOffers(settings, c, call);
    case WaitEnded(_, _, _, _) => WaitKeepsSound(settings, c, call);
  }

  /** Between one offered event and the next the interval recovers by the half-life, and the next wait is its pulse. */
  lemma WaitRecovers(settings: Settings, calls: seq<Call>, k: nat, e: nat)
    requires settings.Valid() && k < |calls| && WaitsAt(settings, calls, k)
    requires QuietFor(At(settings, calls, k).backoff, calls[k].now, e)
    ensures IsDecay(settings.backoff.Recovery().Decay(e), Millis(settings.backoff.recovery), e)
    ensures RecoversWith(settings.backoff, At(settings, calls, k).backoff, At(settings, calls, k + 1).backoff, calls[k].now,
                         settings.backoff.Recovery().Decay(e))
  {
    WaitIsOffered(settings, calls, k);
    AlwaysSound(settings, calls, k);
    RecoversExactly(settings.backoff, At(settings, calls, k).backoff, calls[k].now, e);
  }

  lemma BurstInterval(policy: Policy, times: seq<Duration>, t: Duration, n: nat)
    requires policy.Valid() && policy.multiplier.numerator > policy.multiplier.denominator
    requires Millis(policy.base) < Millis(policy.asymptote) && times == Repeat(t, n)
    ensures Millis(After(policy, times).current) == BurstMillis(policy, t, n)
    ensures Min(Millis(policy.base) + n, Millis(policy.asymptote)) <= BurstMillis(policy, t, n) <= Millis(policy.asymptote)
  {
    BurstClimbs(policy, t, n);
  }

  /** When all `n` offered events came at one instant, the wait is the burst's: it climbs with each of them. */
  lemma BurstWaits(settings: Settings, calls: seq<Call>, k: nat, t: Duration, n: nat)
    requires settings.Valid() && k < |calls| && WaitsAt(settings, calls, k)
    requires WaitAt(settings, calls, k).kind == LogisticBackoff && OfferedTimes(settings, calls, k + 1) == Repeat(t, n)
    requires settings.backoff.multiplier.numerator > settings.backoff.multiplier.denominator
    requires Millis(settings.backoff.base) < Millis(settings.backoff.asymptote)
    ensures Millis(WaitAt(settings, calls, k).duration) == BurstMillis(settings.backoff, t, n)
    ensures Min(Millis(settings.backoff.base) + n, Millis(settings.backoff.asymptote))
         <= Millis(WaitAt(settings, calls, k).duration) <= Millis(settings.backoff.asymptote)
  {
    WaitLength(settings, calls, k);
    BurstInterval(settings.backoff, OfferedTimes(settings, calls, k + 1), t, n);
  }
}
