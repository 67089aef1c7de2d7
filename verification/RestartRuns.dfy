/** What holds over every run of the restart coordinator. */
module RestartRuns {
  import opened Common
  import opened Backoff
  import opened CircuitPressure
  import opened RestartController

  datatype Call =
    | LimitHit(condition: Condition, now: Duration, cleanup: SafetyProof, record: Record)
    | WaitEnded(completion: Completion, elapsed: Duration, remaining: Option<Duration>, record: Record)

  function Step(settings: Settings, c: Controller, call: Call): (o: Outcome)
    requires settings.Valid()
  {
    match call
    case LimitHit(condition, now, cleanup, record) => OnLimit(settings, c, record, condition, now, cleanup)
    case WaitEnded(completion, elapsed, remaining, record) =>
      CompleteWait(settings, c, record, completion, elapsed, remaining)
  }

  /** The controller just before call `k` of a run. */
  function At(settings: Settings, calls: seq<Call>, k: nat): (c: Controller)
    requires settings.Valid() && k <= |calls|
  {
    if k == 0 then Fresh(settings) else Step(settings, At(settings, calls, k - 1), calls[k - 1]).next
  }

  function ResultOf(settings: Settings, calls: seq<Call>, k: nat): (r: Result<Decision, Error>)
    requires settings.Valid() && k < |calls|
  {
    Step(settings, At(settings, calls, k), calls[k]).result
  }

  // ----- invariants of one step ------------------------------------------------------

  predicate PendingCooldown(c: Controller) {
    c.pending.Some? && c.pending.value.kind == CircuitCooldown
  }

  /** Control facts that hold in every reachable state, whatever the calls returned. */
  ghost predicate Sound(settings: Settings, c: Controller) {
    && Steady(settings, c)
    && c.launched + (if c.pending.Some? then 1 else 0) <= c.sequence
    && c.summary.waits + c.summary.cooldowns <= c.sequence
    && (c.pending.Some? ==> PendingSound(settings, c, c.pending.value))
    && (PendingCooldown(c) ==> c.circuitState == Open)
  }

  ghost predicate Steady(settings: Settings, c: Controller) {
    && InRange(settings.backoff, c.backoff)
    && c.sequence <= U64_MAX
    && c.summary.cooldowns == c.summary.openCount
    && (settings.limit.Some? ==> c.launched <= settings.limit.value)
    && (settings.circuit.None? ==> c.circuitState == Closed)
    && (c.lastCircuit.Some? ==> c.backoff.last.Some? && c.lastCircuit.value <= c.backoff.last.value)
  }

  ghost predicate PendingSound(settings: Settings, c: Controller, s: Scheduled) {
    && s.restartNumber == c.launched + 1
    && HasRemainingLaunch(settings, c.launched)
    && c.backoff.current <= s.duration
    && (s.kind == CircuitCooldown ==> settings.circuit.Some? && settings.circuit.value.cooldown <= s.duration)
  }

  /** A limit event that got as far as being counted: the state `Place` starts from. */
  ghost predicate Counted(settings: Settings, c: Controller) {
    && Steady(settings, c)
    && c.pending.None?
    && HasRemainingLaunch(settings, c.launched)
    && c.launched < c.sequence
    && c.summary.waits + c.summary.cooldowns < c.sequence
  }

  /** What placing a wait does: it always becomes pending; only an unrepresentable duration spoils the answer. */
  lemma PlaceSound(settings: Settings, c: Controller, record: Record, opens: bool, index: nat)
    requires settings.Valid() && Counted(settings, c) && (opens ==> settings.circuit.Some?)
    ensures var o := Place(settings, c, record, opens, index);
      && Sound(settings, o.next)
      && o.next.pending.Some?
      && var s := o.next.pending.value;
      && o.result == (if DurationMillis(s.duration).Ok? then Ok(Wait(s)) else Err(FromBackoff(BackoffRange)))
      && (s.kind == CircuitCooldown <==> opens || c.circuitState == HalfOpen)
      && o.next.circuitState == (if s.kind == CircuitCooldown then Open else c.circuitState)
  {
  }

  /** Placing touches only the pending wait, the circuit state and the summary. */
  lemma PlaceFrame(settings: Settings, c: Controller, record: Record, opens: bool, index: nat)
    requires Counted(settings, c) && (opens ==> settings.circuit.Some?)
    ensures var next := Place(settings, c, record, opens, index).next;
      && next == c.(pending := next.pending, circuitState := next.circuitState, summary := next.summary)
      && (DurationMillis(next.pending.value.duration).Ok? ==>
            next.summary == if next.pending.value.kind == CircuitCooldown
              then c.summary.(cooldowns := c.summary.cooldowns + 1, openCount := c.summary.openCount + 1, finalState := Open)
              else c.summary.(waits := c.summary.waits + 1, finalState := c.circuitState))
  {
  }

  /** Recording never sees time run backward: the backoff would have refused the event first. */
  lemma EligibleSound(settings: Settings, c: Controller, now: Duration)
    requires settings.Valid() && Counted(settings, c) && c.backoff.last == Some(now)
    ensures Eligible(settings, c, now) != Err(TimeReversed)
    ensures Eligible(settings, c, now).Ok? ==>
      && Counted(settings, Eligible(settings, c, now).value.0)
      && (Eligible(settings, c, now).value.1 ==> settings.circuit.Some?)
  {
  }

  /** The state after the wait is computed and the event counted, when that much succeeds. */
  ghost function CountedState(settings: Settings, c: Controller, now: Duration): (r: Result<Controller, Error>)
    requires settings.Valid()
  {
    match OnBackoff(settings.backoff, c.backoff, now)
    case Err(e) => Err(FromBackoff(e))
    case Ok(backoff) =>
      if c.sequence >= U64_MAX then Err(CounterRange) else Ok(c.(backoff := backoff, sequence := c.sequence + 1))
  }

  lemma CountedStateSound(settings: Settings, c: Controller, now: Duration)
    requires settings.Valid() && Sound(settings, c) && c.pending.None? && HasRemainingLaunch(settings, c.launched)
    ensures CountedState(settings, c, now).Ok? ==>
      && Counted(settings, CountedState(settings, c, now).value)
      && CountedState(settings, c, now).value.backoff.last == Some(now)
    ensures OnBackoff(settings.backoff, c.backoff, now).Ok? ==>
      Sound(settings, c.(backoff := OnBackoff(settings.backoff, c.backoff, now).value))
    ensures CountedState(settings, c, now) == Err(CounterRange) ==> c.sequence == U64_MAX
  {
    OnBackoffInRange(settings.backoff, c.backoff, now);
  }

  /** A limit event that is not stopped at the door: every way it can end. */
  lemma ScheduleSound(settings: Settings, c: Controller, record: Record, now: Duration)
    requires settings.Valid() && Sound(settings, c) && c.pending.None? && HasRemainingLaunch(settings, c.launched)
    ensures var o := Schedule(settings, c, record, now);
      && Sound(settings, o.next)
      && o.next.launched == c.launched
      && (o.result.Ok? ==> o.result.value.Wait? && o.next.pending == Some(o.result.value.scheduled))
      && (o.next.pending.Some? && o.result.Err? ==> DurationMillis(o.next.pending.value.duration).Err?)
      && (o.result.Err? ==> o.result.error.FromBackoff? || (o.result.error == CounterRange && c.sequence == U64_MAX))
  {
    CountedStateSound(settings, c, now);
    match CountedState(settings, c, now)
    case Err(_) =>
    case Ok(counted) =>
      EligibleSound(settings, counted, now);
      match Eligible(settings, counted, now) {
        case Err(_) =>
        case Ok(pressed) =>
          PlaceSound(settings, pressed.0, record, pressed.1, c.sequence);
          PlaceFrame(settings, pressed.0, record, pressed.1, c.sequence);
      }
  }

  predicate IsWait(r: Result<Decision, Error>) {
    r.Ok? && r.value.Wait?
  }

  predicate IsLaunch(r: Result<Decision, Error>) {
    r.Ok? && r.value.Launch?
  }

  lemma LimitKeepsSound(settings: Settings, c: Controller, call: Call)
    requires settings.Valid() && Sound(settings, c) && call.LimitHit?
    ensures var o := Step(settings, c, call);
      && Sound(settings, o.next)
      && o.next.launched == c.launched
      && !IsLaunch(o.result)
      && (c.pending.Some? ==> o.next.pending == c.pending && !IsWait(o.result))
      && (IsWait(o.result) ==> o.next.pending == Some(o.result.value.scheduled)
                               && call.condition in settings.effective && call.cleanup.IsSafe())
      && (c.pending.None? && o.next.pending.Some? && !IsWait(o.result) ==>
            DurationMillis(o.next.pending.value.duration).Err?)
      && (o.result.Err? ==>
            || o.result.error.FromBackoff?
            || (o.result.error == InvalidTransition && c.pending.Some?)
            || (o.result.error == CounterRange && c.sequence == U64_MAX))
  {
    var enabled := c.(summary := c.summary.(enabled := true));
    if c.pending.None? && HasRemainingLaunch(settings, c.launched) {
      ScheduleSound(settings, enabled, call.record.(trigger := Some(call.condition)), call.now);
    }
  }

  lemma WaitKeepsSound(settings: Settings, c: Controller, call: Call)
    requires settings.Valid() && Sound(settings, c) && call.WaitEnded?
    ensures var o := Step(settings, c, call);
      && Sound(settings, o.next)
      && o.next.pending.None?
      && !IsWait(o.result)
      && o.next.launched == c.launched + (if IsLaunch(o.result) then 1 else 0)
      && (IsLaunch(o.result) ==>
          && c.pending.Some?
          && call.completion == Completed
          && DurationMillis(call.elapsed).Ok?
          && c.pending.value.duration <= call.elapsed
          && o.result.value == Launch(c.pending.value.restartNumber, c.pending.value.kind == CircuitCooldown))
      && o.result != Ok(StopLimitExhausted)
      && o.result != Err(CounterRange)
  {
  }

  lemma StepKeepsSound(settings: Settings, c: Controller, call: Call)
    requires settings.Valid() && Sound(settings, c)
    ensures var o := Step(settings, c, call);
      && Sound(settings, o.next)
      && o.next.launched == c.launched + (if IsLaunch(o.result) then 1 else 0)
      && (o.result.Err? ==>
            || o.result.error.FromBackoff?
            || o.result.error == InvalidTransition
            || (o.result.error == CounterRange && c.sequence == U64_MAX && call.LimitHit?))
      && (call.WaitEnded? ==> o.result != Ok(StopLimitExhausted))
  {
    if call.LimitHit? {
      LimitKeepsSound(settings, c, call);
    } else {
      WaitKeepsSound(settings, c, call);
    }
  }

  /** Sound in every reachable state: any calls, any results. */
  lemma {:induction false} AlwaysSound(settings: Settings, calls: seq<Call>, k: nat)
    requires settings.Valid() && k <= |calls|
    ensures Sound(settings, At(settings, calls, k))
  {
    if k == 0 {
    } else {
      AlwaysSound(settings, calls, k - 1);
      StepKeepsSound(settings, At(settings, calls, k - 1), calls[k - 1]);
    }
  }

  /**
   The defensive branches are dead in every run: a missing circuit policy, circuit
   time running backward, a launch limit or a launch counter used up during a wait.
   */
  lemma DeadBranches(settings: Settings, calls: seq<Call>, k: nat)
    requires settings.Valid() && k < |calls|
    ensures ResultOf(settings, calls, k) != Err(InvalidCircuit)
    ensures calls[k].WaitEnded? ==> ResultOf(settings, calls, k) !in {Ok(StopLimitExhausted), Err(CounterRange)}
    ensures ResultOf(settings, calls, k) == Err(CounterRange) ==> At(settings, calls, k).sequence == U64_MAX
    ensures ResultOf(settings, calls, k) == Err(FromBackoff(TimeReversed)) ==>
      calls[k].LimitHit? && Elapsed(At(settings, calls, k).backoff.last, calls[k].now) == Err(TimeReversed)
  {
    var c := At(settings, calls, k);
    AlwaysSound(settings, calls, k);
    StepKeepsSound(settings, c, calls[k]);
    if calls[k].LimitHit? && c.pending.None? && HasRemainingLaunch(settings, c.launched) {
      var enabled := c.(summary := c.summary.(enabled := true));
      ReversalIsBackoffs(settings, enabled, calls[k].record.(trigger := Some(calls[k].condition)), calls[k].now);
    }
  }

  lemma ReversalIsBackoffs(settings: Settings, c: Controller, record: Record, now: Duration)
    requires settings.Valid() && Sound(settings, c) && c.pending.None? && HasRemainingLaunch(settings, c.launched)
    ensures Schedule(settings, c, record, now).result == Err(FromBackoff(TimeReversed)) ==>
      Elapsed(c.backoff.last, now) == Err(TimeReversed)
  {
    CountedStateSound(settings, c, now);
    match CountedState(settings, c, now)
    case Err(_) => ReversalShown(settings.backoff, c.backoff, now);
    case Ok(counted) =>
      EligibleSound(settings, counted, now);
      match Eligible(settings, counted, now) {
        case Err(_) =>
        case Ok(pressed) => PlaceSound(settings, pressed.0, record, pressed.1, c.sequence);
      }
  }

  lemma ReversalShown(policy: Policy, s: State, now: Duration)
    requires policy.Valid()
    ensures OnBackoff(policy, s, now) == Err(TimeReversed) ==> Elapsed(s.last, now) == Err(TimeReversed)
  {
  }

  // ----- every launch has its own limit event and its own completed wait -----------------

  ghost predicate LaunchesAt(settings: Settings, calls: seq<Call>, k: nat)
    requires settings.Valid() && k < |calls|
  {
    IsLaunch(ResultOf(settings, calls, k))
  }

  ghost predicate WaitsAt(settings: Settings, calls: seq<Call>, k: nat)
    requires settings.Valid() && k < |calls|
  {
    IsWait(ResultOf(settings, calls, k))
  }

  ghost function LaunchCount(settings: Settings, calls: seq<Call>, k: nat): (n: nat)
    requires settings.Valid() && k <= |calls|
  {
    if k == 0 then 0
    else LaunchCount(settings, calls, k - 1) + if LaunchesAt(settings, calls, k - 1) then 1 else 0
  }

  ghost function LaunchedAt(settings: Settings, calls: seq<Call>, k: nat): nat
    requires settings.Valid() && k <= |calls|
  {
    At(settings, calls, k).launched
  }

  lemma LaunchedStep(settings: Settings, calls: seq<Call>, k: nat)
    requires settings.Valid() && k < |calls|
    ensures LaunchedAt(settings, calls, k + 1)
         == LaunchedAt(settings, calls, k) + if LaunchesAt(settings, calls, k) then 1 else 0
  {
    AlwaysSound(settings, calls, k);
    StepKeepsSound(settings, At(settings, calls, k), calls[k]);
  }

  lemma {:induction false} LaunchedCounts(settings: Settings, calls: seq<Call>, k: nat)
    requires settings.Valid() && k <= |calls|
    ensures LaunchedAt(settings, calls, k) == LaunchCount(settings, calls, k)
  {
    if k == 0 {
    } else {
      LaunchedCounts(settings, calls, k - 1);
      LaunchedStep(settings, calls, k - 1);
    }
  }

  /** Nothing of the last attempt is left alive, and nothing went wrong while making sure of it. */
  ghost predicate SafelyClosed(p: SafetyProof) {
    && p.errors == [] && p.directChildReaped && p.helpersReaped
    && p.workloadEmpty.Some? && p.workloadEmpty.value
    && (!p.containmentRemoved ==> p.containmentIncapableOfLiveMembers)
  }

  /** Call `i` scheduled `s` for a safe, selected limit event, and no call in `i + 1 .. k` scheduled or ended a wait. */
  ghost predicate ScheduledBy(settings: Settings, calls: seq<Call>, k: nat, i: nat, s: Scheduled)
    requires settings.Valid() && i < k <= |calls|
  {
    && calls[i].LimitHit? && calls[i].condition in settings.effective && SafelyClosed(calls[i].cleanup)
    && ResultOf(settings, calls, i) == Ok(Wait(s))
    && forall j :: i < j < k ==> calls[j].LimitHit? && !WaitsAt(settings, calls, j)
  }

  lemma {:induction false} PendingHasOrigin(settings: Settings, calls: seq<Call>, k: nat)
    requires settings.Valid() && k <= |calls|
    ensures var c := At(settings, calls, k);
      c.pending.Some? && DurationMillis(c.pending.value.duration).Ok? ==>
        exists i :: 0 <= i < k && ScheduledBy(settings, calls, k, i, c.pending.value)
  {
    var c := At(settings, calls, k);
    if k > 0 && c.pending.Some? && DurationMillis(c.pending.value.duration).Ok? {
      var before := At(settings, calls, k - 1);
      AlwaysSound(settings, calls, k - 1);
      if calls[k - 1].WaitEnded? {
        WaitKeepsSound(settings, before, calls[k - 1]);
      } else {
        LimitKeepsSound(settings, before, calls[k - 1]);
        if before.pending.Some? {
          PendingHasOrigin(settings, calls, k - 1);
          var i :| 0 <= i < k - 1 && ScheduledBy(settings, calls, k - 1, i, c.pending.value);
          assert ScheduledBy(settings, calls, k, i, c.pending.value);
        } else {
          assert ScheduledBy(settings, calls, k, k - 1, c.pending.value);
        }
      }
    }
  }

  /**
   Launches are numbered 1, 2, 3, ... and stay within the limit. Each follows a
   wait scheduled for its own safe, selected limit event, completed no sooner
   than scheduled: the backoff interval, and the cooldown if the circuit opened.
   */
  lemma LaunchStory(settings: Settings, calls: seq<Call>, k: nat)
    requires settings.Valid() && k < |calls| && IsLaunch(ResultOf(settings, calls, k))
    ensures var launch := ResultOf(settings, calls, k).value;
      && launch.restartNumber == LaunchCount(settings, calls, k) + 1
      && (settings.limit.Some? ==> launch.restartNumber <= settings.limit.value)
      && calls[k].WaitEnded? && calls[k].completion == Completed
      && exists i, s ::
           && 0 <= i < k && ScheduledBy(settings, calls, k, i, s)
           && s.restartNumber == launch.restartNumber
           && (s.kind == CircuitCooldown <==> launch.halfOpen)
           && At(settings, calls, i + 1).backoff.current <= s.duration <= calls[k].elapsed
           && (launch.halfOpen ==> settings.circuit.Some? && settings.circuit.value.cooldown <= s.duration)
  {
    var c := At(settings, calls, k);
    AlwaysSound(settings, calls, k);
    LaunchedCounts(settings, calls, k);
    if calls[k].LimitHit? {
      LimitKeepsSound(settings, c, calls[k]);
    } else {
      WaitKeepsSound(settings, c, calls[k]);
      var s := c.pending.value;
      FitsBelow(s.duration, calls[k].elapsed);
      PendingHasOrigin(settings, calls, k);
      var i :| 0 <= i < k && ScheduledBy(settings, calls, k, i, s);
      AlwaysSound(settings, calls, i);
      LimitKeepsSound(settings, At(settings, calls, i), calls[i]);
    }
  }

  lemma FitsBelow(a: Duration, b: Duration)
    requires a <= b && DurationMillis(b).Ok?
    ensures DurationMillis(a).Ok?
  {
  }

  /** Call `k` reports a pending wait complete before its time. */
  ghost predicate EndsEarly(settings: Settings, calls: seq<Call>, k: nat)
    requires settings.Valid() && k < |calls|
  {
    var pending := At(settings, calls, k).pending;
    calls[k].WaitEnded? && calls[k].completion == Completed && pending.Some? && calls[k].elapsed < pending.value.duration
  }

  lemma EarlyStep(settings: Settings, c: Controller, call: Call)
    requires settings.Valid() && call.WaitEnded? && call.completion == Completed
    requires c.pending.Some? && call.elapsed < c.pending.value.duration
    ensures Step(settings, c, call).result.Err? && Step(settings, c, call).next == c.(pending := None)
  {
  }

  lemma LaunchOrigin(settings: Settings, calls: seq<Call>, m: nat) returns (i: nat, s: Scheduled)
    requires settings.Valid() && m < |calls| && LaunchesAt(settings, calls, m)
    ensures i < m && ScheduledBy(settings, calls, m, i, s)
  {
    LaunchStory(settings, calls, m);
    i, s :| 0 <= i < m && ScheduledBy(settings, calls, m, i, s);
  }

  lemma OriginIsLater(settings: Settings, calls: seq<Call>, k: nat, m: nat, i: nat, s: Scheduled)
    requires settings.Valid() && k < m < |calls| && calls[k].WaitEnded? && i < m && ScheduledBy(settings, calls, m, i, s)
    ensures k < i && WaitsAt(settings, calls, i)
  {
  }

  /**
   A wait reported complete too early is refused and dropped, and in the rest of
   the run nothing is launched before some later call has scheduled another wait.
   */
  lemma EarlyCompletionDropsWait(settings: Settings, calls: seq<Call>, k: nat)
    requires settings.Valid() && k < |calls| && EndsEarly(settings, calls, k)
    ensures ResultOf(settings, calls, k).Err? && At(settings, calls, k + 1) == At(settings, calls, k).(pending := None)
    ensures forall m :: k < m < |calls| && LaunchesAt(settings, calls, m) ==>
      exists i :: k < i < m && WaitsAt(settings, calls, i)
  {
    EarlyStep(settings, At(settings, calls, k), calls[k]);
    forall m | k < m < |calls| && LaunchesAt(settings, calls, m)
      ensures exists i :: k < i < m && WaitsAt(settings, calls, i)
    {
      var i, s := LaunchOrigin(settings, calls, m);
      OriginIsLater(settings, calls, k, m, i, s);
    }
  }

  // ----- the books -----------------------------------------------------------------------

  /** The summary's counters account for every scheduled wait and every launch. */
  ghost predicate Balanced(settings: Settings, c: Controller) {
    && c.summary.waits + c.summary.cooldowns == c.sequence
    && c.summary.launched == c.launched
    && c.summary.finalState == c.circuitState
    && (!c.summary.enabled ==> c.sequence == 0 && c.circuitState == Closed && !c.summary.limitExhausted)
    && (settings.circuit.Some? && c.sequence < U64_MAX ==> c.lastCircuit == c.backoff.last)
  }

  lemma RecordedInStep(settings: Settings, c: Controller, now: Duration)
    requires settings.Valid() && settings.CircuitFits() && settings.circuit.Some?
    requires c.lastCircuit == c.backoff.last && OnBackoff(settings.backoff, c.backoff, now).Ok?
    ensures Recorded(settings.circuit.value, c.pressure, c.lastCircuit, now).Ok?
  {
  }

  lemma ScheduleBalanced(settings: Settings, c: Controller, record: Record, now: Duration)
    requires settings.Valid() && Sound(settings, c) && c.pending.None? && HasRemainingLaunch(settings, c.launched)
    requires Balanced(settings, c) && c.summary.enabled
    ensures var o := Schedule(settings, c, record, now);
      o.result.Ok? || settings.CircuitFits() ==> Balanced(settings, o.next)
  {
    CountedStateSound(settings, c, now);
    match CountedState(settings, c, now)
    case Err(_) =>
    case Ok(counted) =>
      EligibleSound(settings, counted, now);
      match Eligible(settings, counted, now) {
        case Err(_) =>
          if settings.CircuitFits() {
            RecordedInStep(settings, c, now);
          }
        case Ok(pressed) =>
          PlacedBalanced(settings, pressed.0, record, pressed.1, c.sequence);
      }
  }

  lemma PlacedBalanced(settings: Settings, c: Controller, record: Record, opens: bool, index: nat)
    requires settings.Valid() && Counted(settings, c) && (opens ==> settings.circuit.Some?)
    requires c.summary.enabled && c.summary.waits + c.summary.cooldowns + 1 == c.sequence
    requires c.summary.launched == c.launched && c.summary.finalState == c.circuitState
    requires settings.circuit.Some? ==> c.lastCircuit == c.backoff.last
    ensures var o := Place(settings, c, record, opens, index);
      o.result.Ok? || settings.CircuitFits() ==> Balanced(settings, o.next)
  {
    PlaceSound(settings, c, record, opens, index);
    PlaceFrame(settings, c, record, opens, index);
    if settings.CircuitFits() {
      PlacedFits(settings, c, record, opens, index);
    }
  }

  lemma PlacedFits(settings: Settings, c: Controller, record: Record, opens: bool, index: nat)
    requires settings.Valid() && settings.CircuitFits() && Counted(settings, c) && (opens ==> settings.circuit.Some?)
    ensures Place(settings, c, record, opens, index).next.pending.Some?
    ensures DurationMillis(Place(settings, c, record, opens, index).next.pending.value.duration).Ok?
  {
  }

  lemma LimitBalanced(settings: Settings, c: Controller, call: Call)
    requires settings.Valid() && Sound(settings, c) && Balanced(settings, c) && call.LimitHit?
    ensures var o := Step(settings, c, call);
      o.result.Ok? || settings.CircuitFits() ==> Balanced(settings, o.next)
  {
    var enabled := c.(summary := c.summary.(enabled := true));
    if c.pending.None? && HasRemainingLaunch(settings, c.launched) {
      ScheduleBalanced(settings, enabled, call.record.(trigger := Some(call.condition)), call.now);
    }
  }

  lemma WaitBalanced(settings: Settings, c: Controller, call: Call)
    requires settings.Valid() && Sound(settings, c) && Balanced(settings, c) && call.WaitEnded?
    ensures Balanced(settings, Step(settings, c, call).next)
  {
  }

  /** Every call that answers keeps the books; with representable circuit durations every call does. */
  lemma StepBalanced(settings: Settings, c: Controller, call: Call)
    requires settings.Valid() && Sound(settings, c) && Balanced(settings, c)
    ensures var o := Step(settings, c, call);
      o.result.Ok? || settings.CircuitFits() ==> Balanced(settings, o.next)
  {
    match call
    case LimitHit(_, _, _, _) => LimitBalanced(settings, c, call);
    case WaitEnded(_, _, _, _) => WaitBalanced(settings, c, call);
  }

  lemma BalancedStep(settings: Settings, calls: seq<Call>, k: nat)
    requires settings.Valid() && k < |calls|
    requires Balanced(settings, At(settings, calls, k))
    requires settings.CircuitFits() || ResultOf(settings, calls, k).Ok?
    ensures Balanced(settings, At(settings, calls, k + 1))
  {
    AlwaysSound(settings, calls, k);
    StepBalanced(settings, At(settings, calls, k), calls[k]);
  }

  /** Over every run whose calls all answer, and over every run at all once circuit durations are representable. */
  lemma {:induction false} BooksBalance(settings: Settings, calls: seq<Call>, k: nat)
    requires settings.Valid() && k <= |calls|
    requires settings.CircuitFits() || forall j :: 0 <= j < k ==> ResultOf(settings, calls, j).Ok?
    ensures Balanced(settings, At(settings, calls, k))
  {
    if k == 0 {
    } else {
      BooksBalance(settings, calls, k - 1);
      BalancedStep(settings, calls, k - 1);
    }
  }

  lemma SummaryValid(settings: Settings, c: Controller)
    requires Sound(settings, c) && Balanced(settings, c)
    ensures c.summary.StandaloneValid()
    ensures c.summary.launched + (if c.pending.Some? then 1 else 0) <= c.summary.waits + c.summary.cooldowns
    ensures c.summary.cooldowns == c.summary.openCount
  {
  }

  /** A call upsets the books exactly when it counts the event and then fails. */
  lemma StepBalancedExactly(settings: Settings, c: Controller, call: Call)
    requires settings.Valid() && Sound(settings, c) && Balanced(settings, c)
    ensures var o := Step(settings, c, call);
      Balanced(settings, o.next) <==> o.result.Ok? || o.next.sequence == c.sequence
  {
    StepBalanced(settings, c, call);
    if call.LimitHit? && c.pending.None? && HasRemainingLaunch(settings, c.launched) {
      var enabled := c.(summary := c.summary.(enabled := true));
      FailedSchedule(settings, enabled, call.record.(trigger := Some(call.condition)), call.now);
    }
  }

  lemma FailedSchedule(settings: Settings, c: Controller, record: Record, now: Duration)
    requires settings.Valid() && Sound(settings, c) && c.pending.None? && HasRemainingLaunch(settings, c.launched)
    requires Balanced(settings, c) && c.summary.enabled
    ensures var o := Schedule(settings, c, record, now);
      o.result.Err? ==> (Balanced(settings, o.next) <==> o.next.sequence == c.sequence)
  {
    CountedStateSound(settings, c, now);
    match CountedState(settings, c, now)
    case Err(_) =>
    case Ok(counted) =>
      EligibleSound(settings, counted, now);
      match Eligible(settings, counted, now) {
        case Err(_) =>
        case Ok(pressed) =>
          PlaceSound(settings, pressed.0, record, pressed.1, c.sequence);
          FailedBooking(settings, pressed.0, record, pressed.1, c.sequence);
      }
  }

  lemma FailedBooking(settings: Settings, c: Controller, record: Record, opens: bool, index: nat)
    requires settings.Valid() && Counted(settings, c) && (opens ==> settings.circuit.Some?)
    ensures var o := Place(settings, c, record, opens, index);
      o.result.Err? ==> o.next.summary == c.summary && o.next.sequence == c.sequence
  {
  }

  /** That does happen: a cooldown past 64-bit milliseconds loses the very first event. */
  lemma UnrepresentableCooldownUnbalances(settings: Settings, call: Call)
    requires settings.Valid() && settings.circuit.Some?
    requires DurationMillis(settings.circuit.value.cooldown).Err? && settings.circuit.value.threshold <= 1.0
    requires call.LimitHit? && call.condition in settings.effective && call.cleanup.IsSafe()
    ensures Step(settings, Fresh(settings), call).result == Err(FromBackoff(BackoffRange))
    ensures !Balanced(settings, Step(settings, Fresh(settings), call).next)
  {
    var c := Fresh(settings);
    var enabled := c.(summary := c.summary.(enabled := true));
    var record := call.record.(trigger := Some(call.condition));
    CountedStateSound(settings, enabled, call.now);
    OnBackoffInRange(settings.backoff, c.backoff, call.now);
    var counted := CountedState(settings, enabled, call.now).value;
    EligibleSound(settings, counted, call.now);
    var pressed := Eligible(settings, counted, call.now).value;
    assert pressed.1;
    PlaceSound(settings, pressed.0, record, pressed.1, 0);
    FailedBooking(settings, pressed.0, record, pressed.1, 0);
  }

  // ----- the circuit ------------------------------------------------------------------------

  /** An open circuit is one whose cooldown is pending. */
  ghost predicate OpenMeansCooling(c: Controller) {
    c.circuitState == Open <==> PendingCooldown(c)
  }

  /** The wait for a cooldown ends without the launch it was for: cut short, stopped, or past the supervision deadline. */
  predicate AbandonsCooldown(c: Controller, call: Call) {
    && call.WaitEnded? && PendingCooldown(c)
    && !(&& call.completion == Completed && DurationMillis(call.elapsed).Ok?
         && c.pending.value.duration <= call.elapsed && call.remaining != Some(0))
  }

  /** Abandoning a cooldown is the one way to leave the circuit open with nothing pending. */
  lemma OpenExactly(settings: Settings, c: Controller, call: Call)
    requires settings.Valid() && Sound(settings, c) && OpenMeansCooling(c)
    ensures OpenMeansCooling(Step(settings, c, call).next) <==> !AbandonsCooldown(c, call)
  {
    match call
    case LimitHit(condition, now, _, record) =>
      if c.pending.None? && HasRemainingLaunch(settings, c.launched) {
        OpenAfterSchedule(settings, c.(summary := c.summary.(enabled := true)), record.(trigger := Some(condition)), now);
      }
    case WaitEnded(_, _, _, _) => OpenAfterWait(settings, c, call);
  }

  lemma OpenAfterWait(settings: Settings, c: Controller, call: Call)
    requires settings.Valid() && Sound(settings, c) && OpenMeansCooling(c) && call.WaitEnded?
    ensures OpenMeansCooling(Step(settings, c, call).next) <==> !AbandonsCooldown(c, call)
  {
  }

  lemma OpenAfterSchedule(settings: Settings, c: Controller, record: Record, now: Duration)
    requires settings.Valid() && Sound(settings, c) && c.pending.None? && HasRemainingLaunch(settings, c.launched)
    requires OpenMeansCooling(c)
    ensures OpenMeansCooling(Schedule(settings, c, record, now).next)
  {
    CountedStateSound(settings, c, now);
    match CountedState(settings, c, now)
    case Err(_) =>
    case Ok(counted) =>
      EligibleSound(settings, counted, now);
      match Eligible(settings, counted, now) {
        case Err(_) =>
        case Ok(pressed) => PlaceSound(settings, pressed.0, record, pressed.1, c.sequence);
      }
  }

  ghost predicate CoolingAt(settings: Settings, calls: seq<Call>, k: nat)
    requires settings.Valid() && k <= |calls|
  {
    OpenMeansCooling(At(settings, calls, k))
  }

  ghost predicate AbandonedAt(settings: Settings, calls: seq<Call>, k: nat)
    requires settings.Valid() && k < |calls|
  {
    AbandonsCooldown(At(settings, calls, k), calls[k])
  }

  lemma OpenStep(settings: Settings, calls: seq<Call>, k: nat)
    requires settings.Valid() && k < |calls| && CoolingAt(settings, calls, k)
    ensures CoolingAt(settings, calls, k + 1) <==> !AbandonedAt(settings, calls, k)
  {
    AlwaysSound(settings, calls, k);
    OpenExactly(settings, At(settings, calls, k), calls[k]);
  }

  /** Before the first abandoned cooldown, open means a cooldown is pending, and conversely. */
  lemma {:induction false} OpenUntilAbandoned(settings: Settings, calls: seq<Call>, k: nat)
    requires settings.Valid() && k <= |calls|
    requires forall j :: 0 <= j < k ==> !AbandonedAt(settings, calls, j)
    ensures CoolingAt(settings, calls, k)
  {
    if k == 0 {
    } else {
      OpenUntilAbandoned(settings, calls, k - 1);
      OpenStep(settings, calls, k - 1);
    }
  }
}
