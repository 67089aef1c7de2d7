/**
 The bounded attempt history and the aggregates kept beside it: the first
 attempt, the latest 255, and counters over all of them.
 */
module AttemptHistory {
  import opened Common

  const CAPACITY: nat := 256
  const I32_MAX: int := 0x7FFF_FFFF

  // ----- records ---------------------------------------------------------------

  datatype ChildTermination = ExitCode(code: int) | UnixSignal(signal: int) | WindowsStatus(status: nat) | Unavailable

  datatype Cleanup = Cleanup(directChildReaped: bool, workloadEmpty: Option<bool>, errors: seq<string>)

  datatype RunOutcome =
    | Exited(child: ChildTermination, peak: Option<nat>, cleanup: Cleanup)
    | LimitExceeded(limit: nat, observed: Option<nat>, peak: Option<nat>, cleanup: Cleanup)
    | DeadlineExceeded(peak: Option<nat>, cleanup: Cleanup)
    | Interrupted(signal: int, cleanup: Cleanup)
    | MonitorFailed(error: string, cleanup: Cleanup)

  datatype SupervisionPhase =
    | InitialSetup | AttemptSetup | ActiveAttempt | LimitGrace | CleaningUp | Backoff | Cooldown | Finished

  datatype SpawnFailure = NotFound | NotExecutable

  /** `provenance` stands for the provenance checks on the fields left out here. */
  datatype ErrorRecord = ErrorRecord(
    code: string, attemptNumber: Option<nat>, phase: SupervisionPhase, spawnFailure: Option<SpawnFailure>, provenance: bool)

  datatype AttemptKind = Initial | Restart | HalfOpenTrial
  datatype AttemptPhase = Setup | Authorized | Running | InCleanup | Completed | Failed
  datatype Release = NotIssued | Issued(execConfirmed: bool) | Unknown
  datatype BoundaryRequirement = StandardRequired | SealedRequired
  datatype BoundaryClass = StandardBoundary | SealedBoundary | NoBoundary

  datatype Launch = Launch(
    targetReleased: bool, boundaryRequested: BoundaryRequirement, boundaryEffective: BoundaryClass,
    assignmentVerified: bool, reconfigurationDenied: bool, resourcesRestricted: bool, cleanupAuthorityVerified: bool)

  datatype Safety = Safety(safe: bool, sealedBoundaryRetired: bool)

  /** `evidence` stands for the policy, boundary and runtime evidence checks on the fields left out here. */
  datatype AttemptRecord = AttemptRecord(
    number: nat, kind: AttemptKind, phase: AttemptPhase, started: Option<nat>, authorized: Option<nat>,
    terminal: Option<nat>, finished: nat, outcome: Option<RunOutcome>, error: Option<ErrorRecord>,
    launch: Launch, release: Option<Release>, safety: Safety, evidence: bool)
  {
    predicate IsConsistent() {
      && evidence
      && ReleaseAgrees()
      && number > 0
      && outcome.Some? != error.Some?
      && (error.Some? ==> error.value.attemptNumber == Some(number))
      && ((outcome.Some? && phase == Completed) || (error.Some? && phase == Failed))
      && (started.Some? ==> started.value <= finished)
      && (authorized.Some? ==> started.Some? && started.value <= authorized.value <= finished)
      && (terminal.Some? ==> started.Some? && started.value <= terminal.value <= finished)
      && (authorized.Some? && terminal.Some? ==> authorized.value <= terminal.value)
    }

    predicate ReleaseAgrees() {
      release.Some? ==>
        match release.value
        case Issued(confirmed) => launch.targetReleased && authorized.Some? && (confirmed || !Succeeded())
        case NotIssued => !launch.targetReleased && authorized.None? && !Succeeded()
        case Unknown => !launch.targetReleased && authorized.None? && !safety.safe
    }

    predicate Succeeded() {
      outcome.Some? && OutcomeStatus(outcome.value) == 0
    }
  }

  function SaturatingStatus(signal: int): int {
    if 128 + signal > I32_MAX then I32_MAX else 128 + signal
  }

  function OutcomeStatus(outcome: RunOutcome): (status: int) {
    match outcome
    case LimitExceeded(_, _, _, _) => 124
    case DeadlineExceeded(_, _) => 123
    case MonitorFailed(_, _) => 125
    case Interrupted(signal, _) => SaturatingStatus(signal)
    case Exited(child, _, cleanup) =>
      if cleanup.errors != [] || !cleanup.directChildReaped || cleanup.workloadEmpty == Some(false) then 125
      else
        match child
        case ExitCode(code) => code
        case UnixSignal(signal) => SaturatingStatus(signal)
        case WindowsStatus(status) => if status <= I32_MAX then status else 125
        case Unavailable => 125
  }

  function ErrorStatus(error: ErrorRecord): (status: int) {
    match error.spawnFailure
    case Some(NotFound) => 127
    case Some(NotExecutable) => 126
    case None => 125
  }

  // ----- aggregates ----------------------------------------------------------------

  datatype ModelError = CounterRange | AttemptNumber

  datatype Aggregates = Aggregates(
    confirmed: nat, unknown: nat, retries: nat, confirmedRetries: nat,
    exits: nat, memoryLimits: nat, deadlines: nat, interruptions: nat, monitorFailures: nat, setupFailures: nat,
    maxPeak: Option<nat>)

  const EMPTY: Aggregates := Aggregates(0, 0, 0, 0, 0, 0, 0, 0, 0, 0, None)

  /** The counter, one up if `increment` says so; an error past 64 bits. */
  function Bump(counter: nat, increment: bool): (r: Result<nat, ModelError>) {
    if !increment then Ok(counter) else if counter < U64_MAX then Ok(counter + 1) else Err(CounterRange)
  }

  predicate IsRetry(r: AttemptRecord) {
    r.kind != Initial
  }

  function ObserveAuthorization(a: Aggregates, r: AttemptRecord): (n: Result<Aggregates, ModelError>) {
    var confirmed := Bump(a.confirmed, r.launch.targetReleased);
    var unknown := Bump(a.unknown, r.release == Some(Unknown));
    var retries := Bump(a.retries, IsRetry(r));
    var confirmedRetries := Bump(a.confirmedRetries, IsRetry(r) && r.launch.targetReleased);
    if confirmed.Err? || unknown.Err? || retries.Err? || confirmedRetries.Err? then Err(CounterRange)
    else Ok(a.(confirmed := confirmed.value, unknown := unknown.value, retries := retries.value,
               confirmedRetries := confirmedRetries.value))
  }

  function Peak(outcome: RunOutcome): Option<nat> {
    match outcome
    case Exited(_, peak, _) => peak
    case LimitExceeded(_, _, peak, _) => peak
    case DeadlineExceeded(peak, _) => peak
    case _ => None
  }

  function LargerPeak(a: Option<nat>, b: Option<nat>): (m: Option<nat>) {
    if a.None? then b else if b.None? || b.value <= a.value then a else b
  }

  function ObserveOutcome(a: Aggregates, outcome: RunOutcome): (n: Result<Aggregates, ModelError>) {
    var counted :=
      match outcome
      case Exited(_, _, _) => if a.exits < U64_MAX then Ok(a.(exits := a.exits + 1)) else Err(CounterRange)
      case LimitExceeded(_, _, _, _) =>
        if a.memoryLimits < U64_MAX then Ok(a.(memoryLimits := a.memoryLimits + 1)) else Err(CounterRange)
      case DeadlineExceeded(_, _) =>
        if a.deadlines < U64_MAX then Ok(a.(deadlines := a.deadlines + 1)) else Err(CounterRange)
      case Interrupted(_, _) =>
        if a.interruptions < U64_MAX then Ok(a.(interruptions := a.interruptions + 1)) else Err(CounterRange)
      case MonitorFailed(_, _) =>
        if a.monitorFailures < U64_MAX then Ok(a.(monitorFailures := a.monitorFailures + 1)) else Err(CounterRange);
    match counted
    case Err(e) => Err(e)
    case Ok(next) => Ok(next.(maxPeak := LargerPeak(a.maxPeak, Peak(outcome))))
  }

  function ObserveError(a: Aggregates, error: ErrorRecord): (n: Result<Aggregates, ModelError>) {
    if error.phase == ActiveAttempt then
      if a.monitorFailures < U64_MAX then Ok(a.(monitorFailures := a.monitorFailures + 1)) else Err(CounterRange)
    else
      if a.setupFailures < U64_MAX then Ok(a.(setupFailures := a.setupFailures + 1)) else Err(CounterRange)
  }

  function Observe(a: Aggregates, r: AttemptRecord): (n: Result<Aggregates, ModelError>) {
    match ObserveAuthorization(a, r)
    case Err(e) => Err(e)
    case Ok(next) => ObserveRest(next, r)
  }

  function ObserveRest(a: Aggregates, r: AttemptRecord): (n: Result<Aggregates, ModelError>) {
    if r.outcome.Some? then ObserveOutcome(a, r.outcome.value)
    else if r.error.Some? then ObserveError(a, r.error.value)
    else Ok(a)
  }

  // ----- the bounded history -----------------------------------------------------------

  datatype History = History(first: Option<AttemptRecord>, recent: seq<AttemptRecord>, total: nat, omitted: nat) {
    function Retained(): (n: nat) {
      (if first.Some? then 1 else 0) + |recent|
    }

    function Records(): (records: seq<AttemptRecord>) {
      (if first.Some? then [first.value] else []) + recent
    }

    predicate Validate() {
      if total == 0 then first.None? && recent == [] && omitted == 0
      else
        && first.Some? && first.value.number == 1
        && Retained() <= total && omitted == total - Retained()
        && (forall i :: 0 <= i < |recent| ==>
              recent[i].number == Max(total - |recent|, 0) + 1 + i && recent[i].IsConsistent())
        && first.value.IsConsistent()
    }
  }

  datatype Appended = Appended(history: History, aggregates: Aggregates, number: nat)

  function Append(h: History, a: Aggregates, record: AttemptRecord): (r: Result<Appended, ModelError>) {
    if h.total >= U64_MAX then Err(CounterRange)
    else
      var number := h.total + 1;
      if record.number != 0 && record.number != number then Err(AttemptNumber)
      else
        var numbered := record.(number := number);
        match Observe(a, numbered)
        case Err(e) => Err(e)
        case Ok(next) =>
          if h.first.None? then Ok(Appended(h.(first := Some(numbered), total := number), next, number))
          else if |h.recent| != CAPACITY - 1 then
            Ok(Appended(h.(recent := h.recent + [numbered], total := number), next, number))
          else if h.omitted >= U64_MAX then Err(CounterRange)
          else Ok(Appended(h.(recent := h.recent[1..] + [numbered], total := number, omitted := h.omitted + 1), next, number))
  }

  class BoundedHistory {
    var first: Option<AttemptRecord>
    var recent: seq<AttemptRecord>
    var total: nat
    var omitted: nat

    ghost function View(): History
      reads this
    {
      History(first, recent, total, omitted)
    }

    constructor ()
      ensures View() == History(None, [], 0, 0)
    {
      first, recent, total, omitted := None, [], 0, 0;
    }

    method AppendRecord(record: AttemptRecord, aggregates: Aggregates)
      returns (r: Result<nat, ModelError>, updated: Aggregates)
      modifies this
      ensures match Append(old(View()), aggregates, record)
              case Ok(done) => View() == done.history && updated == done.aggregates && r == Ok(done.number)
              case Err(e) => View() == old(View()) && updated == aggregates && r == Err(e)
    {
      updated := aggregates;
      if total >= U64_MAX {
        return Err(CounterRange), updated;
      }
      var number := total + 1;
      if record.number != 0 && record.number != number {
        return Err(AttemptNumber), updated;
      }
      var numbered := record.(number := number);
      var next := Observe(aggregates, numbered);
      if next.Err? {
        return Err(next.error), updated;
      }
      var full := first.Some? && |recent| == CAPACITY - 1;
      if full && omitted >= U64_MAX {
        return Err(CounterRange), updated;
      }
      total := number;
      updated := next.value;
      if first.None? {
        first := Some(numbered);
        return Ok(number), updated;
      }
      if full {
        recent := recent[1..];
        omitted := omitted + 1;
      }
      recent := recent + [numbered];
      r := Ok(number);
    }
  }

  // ----- what they stand for: folds over the whole log ---------------------------------

  /** What is kept of a log of `n` attempts: the first, and the last `min(n - 1, 255)`. */
  function Projection(log: seq<AttemptRecord>): (h: History) {
    if log == [] then History(None, [], 0, 0)
    else
      var start := Max(1, |log| - (CAPACITY - 1));
      History(Some(log[0]), log[start..], |log|, start - 1)
  }

  datatype Counter =
    | Confirmed | UnknownAuthorization | Retry | ConfirmedRetry
    | Exit | MemoryLimit | DeadlineHit | Interruption | MonitorFailure | SetupFailure

  predicate Counts(counter: Counter, r: AttemptRecord) {
    match counter
    case Confirmed => r.launch.targetReleased
    case UnknownAuthorization => r.release == Some(Unknown)
    case Retry => r.kind != Initial
    case ConfirmedRetry => r.kind != Initial && r.launch.targetReleased
    case Exit => r.outcome.Some? && r.outcome.value.Exited?
    case MemoryLimit => r.outcome.Some? && r.outcome.value.LimitExceeded?
    case DeadlineHit => r.outcome.Some? && r.outcome.value.DeadlineExceeded?
    case Interruption => r.outcome.Some? && r.outcome.value.Interrupted?
    case MonitorFailure =>
      if r.outcome.Some? then r.outcome.value.MonitorFailed? else r.error.Some? && r.error.value.phase == ActiveAttempt
    case SetupFailure => r.outcome.None? && r.error.Some? && r.error.value.phase != ActiveAttempt
  }

  function Count(counter: Counter, log: seq<AttemptRecord>): (n: nat)
    ensures n <= |log|
  {
    if log == [] then 0
    else Count(counter, log[..|log| - 1]) + if Counts(counter, log[|log| - 1]) then 1 else 0
  }

  function PeakOf(r: AttemptRecord): Option<nat> {
    if r.outcome.Some? then Peak(r.outcome.value) else None
  }

  function MaxPeak(log: seq<AttemptRecord>): (m: Option<nat>) {
    if log == [] then None
    else LargerPeak(MaxPeak(log[..|log| - 1]), PeakOf(log[|log| - 1]))
  }

  /** The attempt exited or ran into a limit or a deadline, with a peak of `v` bytes. */
  ghost predicate Peaks(r: AttemptRecord, v: nat) {
    && r.outcome.Some?
    && var o := r.outcome.value;
    (o.Exited? || o.LimitExceeded? || o.DeadlineExceeded?) && o.peak == Some(v)
  }

  /** The greatest peak of the log, if any attempt has one. */
  lemma {:induction false} MaxPeakIsMaximum(log: seq<AttemptRecord>)
    ensures MaxPeak(log).None? <==> forall i, v: nat :: 0 <= i < |log| ==> !Peaks(log[i], v)
    ensures MaxPeak(log).Some? ==>
      && (exists i :: 0 <= i < |log| && Peaks(log[i], MaxPeak(log).value))
      && (forall i, v: nat :: 0 <= i < |log| && Peaks(log[i], v) ==> v <= MaxPeak(log).value)
  {
    if log == [] {
    } else {
      var front, last := log[..|log| - 1], log[|log| - 1];
      MaxPeakIsMaximum(front);
      PeakOfExactly(last);
      assert forall i :: 0 <= i < |front| ==> front[i] == log[i];
      assert log[|front|] == last;
      if MaxPeak(log).Some? && MaxPeak(log) == MaxPeak(front) {
        var i :| 0 <= i < |front| && Peaks(front[i], MaxPeak(front).value);
        assert Peaks(log[i], MaxPeak(log).value);
      }
    }
  }

  lemma PeakOfExactly(r: AttemptRecord)
    ensures forall v: nat :: Peaks(r, v) <==> PeakOf(r) == Some(v)
  {
  }

  function Tally(log: seq<AttemptRecord>): (a: Aggregates) {
    Aggregates(Count(Confirmed, log), Count(UnknownAuthorization, log), Count(Retry, log), Count(ConfirmedRetry, log),
               Count(Exit, log), Count(MemoryLimit, log), Count(DeadlineHit, log), Count(Interruption, log),
               Count(MonitorFailure, log), Count(SetupFailure, log), MaxPeak(log))
  }

  // ----- the history is the projection of the full log ------------------------------------

  lemma CountSnoc(counter: Counter, log: seq<AttemptRecord>, r: AttemptRecord)
    ensures Count(counter, log + [r]) == Count(counter, log) + if Counts(counter, r) then 1 else 0
  {
    assert (log + [r])[..|log|] == log;
  }

  lemma MaxPeakSnoc(log: seq<AttemptRecord>, r: AttemptRecord)
    ensures MaxPeak(log + [r]) == LargerPeak(MaxPeak(log), PeakOf(r))
  {
    assert (log + [r])[..|log|] == log;
  }

  lemma CountBumps(counter: Counter, log: seq<AttemptRecord>, r: AttemptRecord, before: nat, after: nat)
    requires |log| < U64_MAX && before == Count(counter, log) && after == Count(counter, log + [r])
    ensures Bump(before, Counts(counter, r)) == Ok(after)
  {
    CountSnoc(counter, log, r);
  }

  lemma AuthorizationBumps(a: Aggregates, r: AttemptRecord, b: Aggregates)
    requires Bump(a.confirmed, Counts(Confirmed, r)) == Ok(b.confirmed)
    requires Bump(a.unknown, Counts(UnknownAuthorization, r)) == Ok(b.unknown)
    requires Bump(a.retries, Counts(Retry, r)) == Ok(b.retries)
    requires Bump(a.confirmedRetries, Counts(ConfirmedRetry, r)) == Ok(b.confirmedRetries)
    ensures ObserveAuthorization(a, r) == Ok(a.(
      confirmed := b.confirmed, unknown := b.unknown, retries := b.retries, confirmedRetries := b.confirmedRetries))
  {
  }

  lemma AuthorizationTally(a: Aggregates, log: seq<AttemptRecord>, r: AttemptRecord)
    requires |log| < U64_MAX
    requires a.confirmed == Count(Confirmed, log) && a.unknown == Count(UnknownAuthorization, log)
    requires a.retries == Count(Retry, log) && a.confirmedRetries == Count(ConfirmedRetry, log)
    ensures var b := Tally(log + [r]);
      ObserveAuthorization(a, r) == Ok(a.(
        confirmed := b.confirmed, unknown := b.unknown, retries := b.retries, confirmedRetries := b.confirmedRetries))
  {
    var b := Tally(log + [r]);
    CountBumps(Confirmed, log, r, a.confirmed, b.confirmed);
    CountBumps(UnknownAuthorization, log, r, a.unknown, b.unknown);
    CountBumps(Retry, log, r, a.retries, b.retries);
    CountBumps(ConfirmedRetry, log, r, a.confirmedRetries, b.confirmedRetries);
    AuthorizationBumps(a, r, b);
  }

  /** Observing one record extends the tally by it; no counter can overflow before the attempt number does. */
  lemma ObserveTally(log: seq<AttemptRecord>, r: AttemptRecord)
    requires |log| < U64_MAX
    ensures Observe(Tally(log), r) == Ok(Tally(log + [r]))
  {
    AuthorizationTally(Tally(log), log, r);
    var next := ObserveAuthorization(Tally(log), r).value;
    RestTally(log, r, next);
  }

  lemma RestTally(log: seq<AttemptRecord>, r: AttemptRecord, a: Aggregates)
    requires |log| < U64_MAX
    requires var t, u := Tally(log), Tally(log + [r]);
      a == t.(confirmed := u.confirmed, unknown := u.unknown, retries := u.retries, confirmedRetries := u.confirmedRetries)
    ensures ObserveRest(a, r) == Ok(Tally(log + [r]))
  {
    var b := Tally(log + [r]);
    CountBumps(Exit, log, r, a.exits, b.exits);
    CountBumps(MemoryLimit, log, r, a.memoryLimits, b.memoryLimits);
    CountBumps(DeadlineHit, log, r, a.deadlines, b.deadlines);
    CountBumps(Interruption, log, r, a.interruptions, b.interruptions);
    CountBumps(MonitorFailure, log, r, a.monitorFailures, b.monitorFailures);
    CountBumps(SetupFailure, log, r, a.setupFailures, b.setupFailures);
    MaxPeakSnoc(log, r);
    RestObserved(a, r, b);
  }

  lemma RestObserved(a: Aggregates, r: AttemptRecord, b: Aggregates)
    requires b == a.(exits := b.exits, memoryLimits := b.memoryLimits, deadlines := b.deadlines,
                     interruptions := b.interruptions, monitorFailures := b.monitorFailures,
                     setupFailures := b.setupFailures, maxPeak := LargerPeak(a.maxPeak, PeakOf(r)))
    requires Bump(a.exits, Counts(Exit, r)) == Ok(b.exits)
    requires Bump(a.memoryLimits, Counts(MemoryLimit, r)) == Ok(b.memoryLimits)
    requires Bump(a.deadlines, Counts(DeadlineHit, r)) == Ok(b.deadlines)
    requires Bump(a.interruptions, Counts(Interruption, r)) == Ok(b.interruptions)
    requires Bump(a.monitorFailures, Counts(MonitorFailure, r)) == Ok(b.monitorFailures)
    requires Bump(a.setupFailures, Counts(SetupFailure, r)) == Ok(b.setupFailures)
    ensures ObserveRest(a, r) == Ok(b)
  {
  }

  lemma ProjectionSnoc(log: seq<AttemptRecord>, r: AttemptRecord)
    ensures var h := Projection(log);
      Projection(log + [r]) ==
        if log == [] then h.(first := Some(r), total := 1)
        else if |h.recent| != CAPACITY - 1 then h.(recent := h.recent + [r], total := |log| + 1)
        else h.(recent := h.recent[1..] + [r], total := |log| + 1, omitted := h.omitted + 1)
  {
    var longer := log + [r];
    if log == [] {
      assert longer[1..] == [];
    } else {
      var start, next := Max(1, |log| - (CAPACITY - 1)), Max(1, |longer| - (CAPACITY - 1));
      assert longer[0] == log[0];
      if next == start {
        assert longer[next..] == log[start..] + [r];
      } else {
        assert longer[next..] == log[start..][1..] + [r];
      }
    }
  }

  /** One append, in terms of the whole log: the exact answer for every record and every log. */
  lemma AppendProjects(log: seq<AttemptRecord>, record: AttemptRecord)
    requires |log| <= U64_MAX
    ensures var n := |log| + 1;
      Append(Projection(log), Tally(log), record) ==
        if n > U64_MAX then Err(CounterRange)
        else if record.number != 0 && record.number != n then Err(AttemptNumber)
        else var whole := log + [record.(number := n)]; Ok(Appended(Projection(whole), Tally(whole), n))
  {
    if |log| < U64_MAX {
      var numbered := record.(number := |log| + 1);
      ObserveTally(log, numbered);
      ProjectionSnoc(log, numbered);
    }
  }

  /** The log a sequence of append calls leaves behind, refused records dropped. */
  function Accepted(records: seq<AttemptRecord>): (log: seq<AttemptRecord>)
    ensures |log| <= U64_MAX
  {
    if records == [] then []
    else
      var log, last := Accepted(records[..|records| - 1]), records[|records| - 1];
      if |log| < U64_MAX && (last.number == 0 || last.number == |log| + 1) then log + [last.(number := |log| + 1)] else log
  }

  function AfterAppends(records: seq<AttemptRecord>): (r: (History, Aggregates)) {
    if records == [] then (History(None, [], 0, 0), EMPTY)
    else
      var before := AfterAppends(records[..|records| - 1]);
      match Append(before.0, before.1, records[|records| - 1])
      case Ok(done) => (done.history, done.aggregates)
      case Err(_) => before
  }

  /** Every history built by appends is the projection of its log, every aggregate a count over all of it. */
  lemma {:induction false} AppendsProject(records: seq<AttemptRecord>)
    ensures AfterAppends(records) == (Projection(Accepted(records)), Tally(Accepted(records)))
  {
    if records == [] {
    } else {
      var front := records[..|records| - 1];
      AppendsProject(front);
      AppendProjects(Accepted(front), records[|records| - 1]);
    }
  }

  ghost predicate Numbered(log: seq<AttemptRecord>) {
    forall i :: 0 <= i < |log| ==> log[i].number == i + 1
  }

  lemma {:induction false} AcceptedNumbered(records: seq<AttemptRecord>)
    ensures Numbered(Accepted(records))
  {
    if records == [] {
    } else {
      AcceptedNumbered(records[..|records| - 1]);
    }
  }

  // ----- agreement of the aggregates with what is retained -----------------------------------

  lemma {:induction false} CountConcat(counter: Counter, a: seq<AttemptRecord>, b: seq<AttemptRecord>)
    ensures Count(counter, a + b) == Count(counter, a) + Count(counter, b)
  {
    if b == [] {
      assert a + b == a;
    } else {
      var front := b[..|b| - 1];
      CountConcat(counter, a, front);
      assert (a + b)[..|a + b| - 1] == a + front;
    }
  }

  lemma {:induction false} CountImplied(weak: Counter, strong: Counter, log: seq<AttemptRecord>)
    requires forall r :: r in log && Counts(strong, r) ==> Counts(weak, r)
    ensures Count(strong, log) <= Count(weak, log)
  {
    if log == [] {
    } else {
      CountImplied(weak, strong, log[..|log| - 1]);
    }
  }

  lemma {:induction false} CountDisjoint(a: Counter, b: Counter, log: seq<AttemptRecord>)
    requires forall r :: r in log ==> !(Counts(a, r) && Counts(b, r))
    ensures Count(a, log) + Count(b, log) <= |log|
  {
    if log == [] {
    } else {
      CountDisjoint(a, b, log[..|log| - 1]);
    }
  }

  /** Attempts no longer retained are counted, and account for at most one each. */
  lemma EvictedCount(counter: Counter, log: seq<AttemptRecord>)
    ensures var h := Projection(log);
      Count(counter, h.Records()) <= Count(counter, log) <= Count(counter, h.Records()) + h.omitted
  {
    if log != [] {
      var start := Max(1, |log| - (CAPACITY - 1));
      var head, evicted, tail := log[..1], log[1..start], log[start..];
      assert log == head + evicted + tail;
      CountConcat(counter, head + evicted, tail);
      CountConcat(counter, head, evicted);
      CountConcat(counter, head, tail);
      assert Projection(log).Records() == head + tail;
    }
  }

  function ObserveAll(a: Aggregates, records: seq<AttemptRecord>): (r: Result<Aggregates, ModelError>) {
    if records == [] then Ok(a)
    else
      match ObserveAll(a, records[..|records| - 1])
      case Err(e) => Err(e)
      case Ok(next) => ObserveAuthorization(next, records[|records| - 1])
  }

  predicate EvictedWithin(all: nat, visible: nat, omitted: nat) {
    visible <= all && all - visible <= omitted
  }

  predicate AuthorizationsMatch(a: Aggregates, records: seq<AttemptRecord>, total: nat, omitted: nat) {
    match ObserveAll(EMPTY, records)
    case Err(_) => false
    case Ok(retained) =>
      && a.confirmed + a.unknown <= U64_MAX && a.confirmed + a.unknown <= total
      && a.retries <= Max(total - 1, 0)
      && a.confirmedRetries <= a.confirmed
      && a.confirmedRetries <= a.retries
      && EvictedWithin(a.confirmed, retained.confirmed, omitted)
      && EvictedWithin(a.unknown, retained.unknown, omitted)
      && EvictedWithin(a.retries, retained.retries, omitted)
      && EvictedWithin(a.confirmedRetries, retained.confirmedRetries, omitted)
  }

  lemma {:induction false} ObserveAllCounts(records: seq<AttemptRecord>)
    requires |records| <= U64_MAX
    ensures ObserveAll(EMPTY, records) == Ok(EMPTY.(
      confirmed := Count(Confirmed, records), unknown := Count(UnknownAuthorization, records),
      retries := Count(Retry, records), confirmedRetries := Count(ConfirmedRetry, records)))
  {
    if records == [] {
    } else {
      var front, last := records[..|records| - 1], records[|records| - 1];
      ObserveAllCounts(front);
      assert records == front + [last];
      AuthorizationTally(ObserveAll(EMPTY, front).value, front, last);
    }
  }

  function OutcomeTotal(a: Aggregates): nat {
    a.exits + a.memoryLimits + a.deadlines + a.interruptions + a.monitorFailures + a.setupFailures
  }

  function Unit(b: bool): nat {
    if b then 1 else 0
  }

  lemma OneOutcome(r: AttemptRecord)
    requires r.outcome.Some? || r.error.Some?
    ensures Unit(Counts(Exit, r)) + Unit(Counts(MemoryLimit, r)) + Unit(Counts(DeadlineHit, r))
          + Unit(Counts(Interruption, r)) + Unit(Counts(MonitorFailure, r)) + Unit(Counts(SetupFailure, r)) == 1
  {
  }

  lemma {:induction false} OutcomesAddUp(log: seq<AttemptRecord>)
    requires forall r :: r in log ==> r.outcome.Some? || r.error.Some?
    ensures OutcomeTotal(Tally(log)) == |log|
  {
    if log == [] {
    } else {
      var front, last := log[..|log| - 1], log[|log| - 1];
      assert log == front + [last];
      OutcomesAddUp(front);
      CountSnoc(Exit, front, last);
      CountSnoc(MemoryLimit, front, last);
      CountSnoc(DeadlineHit, front, last);
      CountSnoc(Interruption, front, last);
      CountSnoc(MonitorFailure, front, last);
      CountSnoc(SetupFailure, front, last);
      assert last in log;
      OneOutcome(last);
    }
  }

  /** A log of consistent attempts that opens with the initial one. */
  ghost predicate WellFormed(log: seq<AttemptRecord>) {
    && Numbered(log)
    && (forall r :: r in log ==> r.IsConsistent())
    && (log != [] ==> log[0].kind == Initial)
  }

  lemma RetriesExcludeFirst(log: seq<AttemptRecord>)
    requires log != [] ==> log[0].kind == Initial
    ensures Count(Retry, log) <= Max(|log| - 1, 0)
  {
    if log != [] {
      assert log == log[..1] + log[1..];
      CountConcat(Retry, log[..1], log[1..]);
      assert log[..1][..0] == [];
    }
  }

  lemma AuthorizationsHold(log: seq<AttemptRecord>)
    requires WellFormed(log) && |log| <= U64_MAX
    ensures AuthorizationsMatch(Tally(log), Projection(log).Records(), |log|, Projection(log).omitted)
  {
    var records := Projection(log).Records();
    ObserveAllCounts(records);
    RetriesExcludeFirst(log);
    CountDisjoint(Confirmed, UnknownAuthorization, log);
    CountImplied(Confirmed, ConfirmedRetry, log);
    CountImplied(Retry, ConfirmedRetry, log);
    EvictedCount(Confirmed, log);
    EvictedCount(UnknownAuthorization, log);
    EvictedCount(Retry, log);
    EvictedCount(ConfirmedRetry, log);
  }

  lemma ProjectionSizes(log: seq<AttemptRecord>)
    ensures var h := Projection(log);
      h.total == |log| && h.Retained() <= CAPACITY && h.Retained() + h.omitted == h.total
  {
  }

  /** The bookkeeping checks cannot fail on a history built by appends. */
  lemma BookkeepingHolds(log: seq<AttemptRecord>)
    requires WellFormed(log) && |log| <= U64_MAX
    ensures AuthorizationsMatch(Tally(log), Projection(log).Records(), |log|, Projection(log).omitted)
    ensures OutcomeTotal(Tally(log)) == |log|
    ensures Projection(log).Validate()
  {
    assert forall r :: r in log ==> r.outcome.Some? || r.error.Some? by {
      assert forall r :: r in log ==> r.IsConsistent();
    }
    AuthorizationsHold(log);
    OutcomesAddUp(log);
    ProjectionValid(log);
  }

  /** The same for whatever appends leave behind: every check on the books holds of every append-built history. */
  lemma AppendedBooksHold(records: seq<AttemptRecord>)
    requires forall r :: r in Accepted(records) ==> r.IsConsistent()
    requires Accepted(records) != [] ==> Accepted(records)[0].kind == Initial
    ensures var h, a := AfterAppends(records).0, AfterAppends(records).1;
      AuthorizationsMatch(a, h.Records(), h.total, h.omitted) && OutcomeTotal(a) == h.total && h.Validate()
  {
    AppendsProject(records);
    AcceptedNumbered(records);
    BookkeepingHolds(Accepted(records));
    ProjectionSizes(Accepted(records));
  }

  lemma ProjectionValid(log: seq<AttemptRecord>)
    requires WellFormed(log)
    ensures Projection(log).Validate()
  {
    if log != [] {
      var start := Max(1, |log| - (CAPACITY - 1));
      assert log[0] in log;
      forall i | 0 <= i < |log[start..]| ensures log[start..][i].number == start + 1 + i && log[start..][i].IsConsistent() {
        assert log[start..][i] == log[start + i];
        assert log[start + i] in log;
      }
    }
  }
}
