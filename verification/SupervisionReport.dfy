/**
 Two independent checks of one execution: the constructor that admits it, and
 the validator that re-reads the report derived from it.
 */
module SupervisionReport {
  import opened Common
  import opened AttemptHistory

  datatype Terminal =
    | AttemptOutcome(attemptNumber: nat, outcome: RunOutcome)
    | DeadlineOutsideAttempt(supervisionScope: bool)
    | TerminalError(errorAttempt: Option<nat>, error: ErrorRecord)

  datatype Backend = Backend(
    boundary: BoundaryClass, targetGated: bool, verifiedBeforeAuthorization: bool, targetCanReconfigure: bool,
    cleanupAuthority: bool, workloadEmptyProof: bool)
  {
    predicate IsConsistent() {
      boundary == SealedBoundary ==>
        targetGated && verifiedBeforeAuthorization && !targetCanReconfigure && cleanupAuthority && workloadEmptyProof
    }
  }

  datatype Candidate = Candidate(
    backend: Backend, terminal: Terminal, attempts: History, aggregates: Aggregates, restartsLaunched: nat,
    deadlinePresent: bool, durationMs: nat, targetsAuthorized: nat)

  datatype Execution = Execution(candidate: Candidate, exitCode: int, phase: SupervisionPhase)

  datatype Rejection =
    | CounterOverflow | BackendInconsistent | OutcomeTotalMismatch | HistoryInvalid | OverCapacity | OmittedMismatch
    | TooManyRestarts | AuthorizationTotalMismatch | AuthorizationsMismatch | DeadlineScope | TerminalNotLatest
    | TerminalMismatch | DeadlinePresence | SealedProof | SealedBackend

  function Latest(records: seq<AttemptRecord>): Option<AttemptRecord> {
    if records == [] then None else Some(records[|records| - 1])
  }

  predicate LatestHasOutcome(records: seq<AttemptRecord>, number: nat, outcome: RunOutcome) {
    Latest(records).Some? && Latest(records).value.number == number && Latest(records).value.outcome == Some(outcome)
  }

  predicate LatestHasError(records: seq<AttemptRecord>, number: nat, error: ErrorRecord) {
    Latest(records).Some? && Latest(records).value.number == number && Latest(records).value.error == Some(error)
  }

  predicate TerminalMatchesLatest(terminal: Terminal, records: seq<AttemptRecord>) {
    match terminal
    case AttemptOutcome(number, outcome) => LatestHasOutcome(records, number, outcome)
    case TerminalError(Some(number), error) =>
      error.provenance && error.attemptNumber == Some(number) && LatestHasError(records, number, error)
    case TerminalError(None, error) => error.provenance && error.attemptNumber.None?
    case DeadlineOutsideAttempt(_) => true
  }

  function TerminalAttempt(terminal: Terminal): Option<nat> {
    match terminal
    case AttemptOutcome(number, _) => Some(number)
    case DeadlineOutsideAttempt(_) => None
    case TerminalError(number, _) => number
  }

  function TerminalStatus(terminal: Terminal): (status: int) {
    match terminal
    case AttemptOutcome(_, outcome) => OutcomeStatus(outcome)
    case DeadlineOutsideAttempt(_) => 123
    case TerminalError(_, error) => ErrorStatus(error)
  }

  predicate SealedProofMissing(backend: Backend, r: AttemptRecord) {
    var sealed := r.launch.boundaryRequested == SealedRequired;
    || (r.launch.boundaryEffective == SealedBoundary && backend.boundary != SealedBoundary)
    || (r.launch.targetReleased && sealed
        && !(r.launch.boundaryEffective == SealedBoundary && r.launch.assignmentVerified && r.launch.reconfigurationDenied
             && r.launch.resourcesRestricted && r.launch.cleanupAuthorityVerified))
    || (sealed && r.safety.safe && !r.safety.sealedBoundaryRetired)
  }

  /** The checks on the counters and the history, in the constructor's order. */
  function CheckBooks(c: Candidate): (r: Option<Rejection>) {
    var h, a := c.attempts, c.aggregates;
    if !c.backend.IsConsistent() then Some(BackendInconsistent)
    else if OutcomeTotal(a) > U64_MAX then Some(CounterOverflow)
    else if OutcomeTotal(a) != h.total then Some(OutcomeTotalMismatch)
    else if !h.Validate() then Some(HistoryInvalid)
    else if h.Retained() > CAPACITY then Some(OverCapacity)
    else if h.omitted != Max(h.total - h.Retained(), 0) then Some(OmittedMismatch)
    else if c.restartsLaunched > c.targetsAuthorized then Some(TooManyRestarts)
    else if c.targetsAuthorized != a.confirmed then Some(AuthorizationTotalMismatch)
    else if !AuthorizationsMatch(a, h.Records(), h.total, h.omitted) then Some(AuthorizationsMismatch)
    else None
  }

  /** The checks on how the execution ended and on its boundary, in the constructor's order. */
  function CheckEnding(c: Candidate): (r: Option<Rejection>) {
    var records := c.attempts.Records();
    if c.terminal.DeadlineOutsideAttempt? && !c.terminal.supervisionScope then Some(DeadlineScope)
    else if TerminalAttempt(c.terminal).Some?
            && (TerminalAttempt(c.terminal).value == 0 || TerminalAttempt(c.terminal).value != c.attempts.total)
    then Some(TerminalNotLatest)
    else if !TerminalMatchesLatest(c.terminal, records) then Some(TerminalMismatch)
    else if c.terminal.DeadlineOutsideAttempt? != c.deadlinePresent then Some(DeadlinePresence)
    else if exists r :: r in records && SealedProofMissing(c.backend, r) then Some(SealedProof)
    else if c.backend.boundary != SealedBoundary
            && exists r :: r in records && r.launch.boundaryRequested == SealedRequired && r.launch.targetReleased
    then Some(SealedBackend)
    else None
  }

  function NewExecution(c: Candidate): (r: Result<Execution, Rejection>) {
    match CheckBooks(c)
    case Some(why) => Err(why)
    case None =>
      match CheckEnding(c)
      case Some(why) => Err(why)
      case None => Ok(Execution(c, TerminalStatus(c.terminal), Finished))
  }

  // ----- the derived report and its own validator ---------------------------------------

  datatype Report = Report(
    phase: SupervisionPhase, created: nat, targetsAuthorized: nat, exitCode: int, terminal: Terminal,
    capacity: nat, retained: nat, total: nat, omitted: nat, truncated: bool, aggregates: Aggregates, restartsLaunched: nat)

  function FromExecution(e: Execution): (r: Report) {
    var c := e.candidate;
    Report(e.phase, c.attempts.total, c.targetsAuthorized, e.exitCode, c.terminal, CAPACITY, c.attempts.Retained(),
           c.attempts.total, c.attempts.omitted, c.attempts.omitted != 0, c.aggregates, c.restartsLaunched)
  }

  predicate ReportCountersAgree(r: Report, attempts: seq<AttemptRecord>) {
    var retained, total := |attempts|, r.total;
    && retained <= CAPACITY && r.retained == retained && r.capacity == CAPACITY
    && r.truncated == (r.omitted != 0)
    && total == r.created
    && OutcomeTotal(r.aggregates) <= U64_MAX && OutcomeTotal(r.aggregates) == total
    && r.targetsAuthorized <= total && r.targetsAuthorized == r.aggregates.confirmed
    && AuthorizationsMatch(r.aggregates, attempts, total, r.omitted)
    && r.aggregates.unknown <= Max(total - r.targetsAuthorized, 0)
    && r.aggregates.confirmedRetries <= r.targetsAuthorized
    && r.aggregates.confirmedRetries <= r.aggregates.retries
    && retained + r.omitted <= U64_MAX && retained + r.omitted == total
    && r.restartsLaunched <= r.targetsAuthorized
    && r.phase == Finished
    && TerminalStatus(r.terminal) == r.exitCode
  }

  predicate ReportNumbersAgree(total: nat, attempts: seq<AttemptRecord>) {
    if total == 0 || attempts == [] then total == 0 && attempts == []
    else
      var tail := attempts[1..];
      && attempts[0].number == 1
      && if |attempts| > 1 then
           && |tail| <= total
           && forall i :: 0 <= i < |tail| ==> tail[i].number == total - |tail| + 1 + i
         else total == 1
  }

  predicate ReportTerminalAgrees(terminal: Terminal, total: nat, attempts: seq<AttemptRecord>) {
    match terminal
    case AttemptOutcome(number, outcome) => number == total && LatestHasOutcome(attempts, number, outcome)
    case DeadlineOutsideAttempt(_) => true
    case TerminalError(Some(number), error) => number == total && LatestHasError(attempts, number, error)
    case TerminalError(None, _) => true
  }

  predicate ValidateReport(r: Report, attempts: seq<AttemptRecord>) {
    ReportCountersAgree(r, attempts) && ReportNumbersAgree(r.total, attempts)
    && ReportTerminalAgrees(r.terminal, r.total, attempts)
  }

  // ----- agreement --------------------------------------------------------------------------

  /** The one family the constructor lets through and the validator does not: several attempts, only the first kept. */
  predicate KeepsOnlyFirst(h: History) {
    h.total > 1 && h.recent == []
  }

  lemma NumbersAgree(h: History)
    requires h.Validate()
    ensures ReportNumbersAgree(h.total, h.Records()) <==> !KeepsOnlyFirst(h)
  {
    var records := h.Records();
    if h.total > 0 {
      assert records[1..] == h.recent;
    }
  }

  lemma CountersAgree(e: Execution)
    requires NewExecution(e.candidate) == Ok(e)
    ensures ReportCountersAgree(FromExecution(e), e.candidate.attempts.Records())
  {
  }

  /** For every admitted execution: the validator agrees exactly when its history is not reduced to the first attempt. */
  lemma AgreementExactly(e: Execution)
    requires NewExecution(e.candidate) == Ok(e)
    ensures ValidateReport(FromExecution(e), e.candidate.attempts.Records()) <==> !KeepsOnlyFirst(e.candidate.attempts)
  {
    CountersAgree(e);
    NumbersAgree(e.candidate.attempts);
    assert ReportTerminalAgrees(e.candidate.terminal, e.candidate.attempts.total, e.candidate.attempts.Records());
  }

  /** Histories built by appends are never of that family, so both checks agree on them. */
  lemma AppendedHistoriesAgree(records: seq<AttemptRecord>, e: Execution)
    requires e.candidate.attempts == AfterAppends(records).0
    requires NewExecution(e.candidate) == Ok(e)
    ensures ValidateReport(FromExecution(e), e.candidate.attempts.Records())
  {
    AppendsProject(records);
    AgreementExactly(e);
  }

  // ----- what an accepted execution says about the whole log -------------------------------

  /** Attempt `i` of `n` is still retained: the first one and the last 255 are. */
  predicate IsRetained(i: nat, n: nat) {
    i < n && (i == 0 || n - (CAPACITY - 1) <= i)
  }

  /** The claimed ending is the last attempt's own, or lies outside every attempt. */
  predicate EndsAsClaimed(terminal: Terminal, log: seq<AttemptRecord>) {
    match terminal
    case AttemptOutcome(number, outcome) =>
      log != [] && number == |log| && log[|log| - 1].outcome == Some(outcome)
    case DeadlineOutsideAttempt(supervisionScope) => supervisionScope
    case TerminalError(Some(number), error) =>
      && log != [] && number == |log| && log[|log| - 1].error == Some(error)
      && error.provenance && error.attemptNumber == Some(number)
    case TerminalError(None, error) => error.provenance && error.attemptNumber.None?
  }

  /**
   What a sealed attempt needs: the backend is sealed behind any effective seal, a
   released one had every proof, and one that ended safely has retired its boundary.
   */
  ghost predicate SealHolds(backend: Backend, r: AttemptRecord) {
    var launch := r.launch;
    && (launch.boundaryEffective == SealedBoundary ==> backend.boundary == SealedBoundary)
    && (launch.boundaryRequested == SealedRequired && launch.targetReleased ==>
          && launch.boundaryEffective == SealedBoundary
          && launch.assignmentVerified && launch.reconfigurationDenied
          && launch.resourcesRestricted && launch.cleanupAuthorityVerified)
    && (launch.boundaryRequested == SealedRequired && r.safety.safe ==> r.safety.sealedBoundaryRetired)
  }

  ghost predicate SealedAsRequired(backend: Backend, log: seq<AttemptRecord>) {
    forall i :: 0 <= i < |log| && IsRetained(i, |log|) ==> SealHolds(backend, log[i])
  }

  lemma RetainedRecords(log: seq<AttemptRecord>, r: AttemptRecord)
    ensures r in Projection(log).Records() <==> exists i :: 0 <= i < |log| && IsRetained(i, |log|) && log[i] == r
  {
    if log != [] {
      var start := Max(1, |log| - (CAPACITY - 1));
      assert Projection(log).Records() == [log[0]] + log[start..];
      if r in log[start..] {
        var k :| 0 <= k < |log[start..]| && log[start..][k] == r;
        assert IsRetained(start + k, |log|) && log[start + k] == r;
      } else if r == log[0] {
        assert IsRetained(0, |log|);
      }
      if i :| 0 <= i < |log| && IsRetained(i, |log|) && log[i] == r && i > 0 {
        assert log[start..][i - start] == r;
      }
    }
  }

  lemma LatestIsLast(log: seq<AttemptRecord>)
    ensures Latest(Projection(log).Records()) == if log == [] then None else Some(log[|log| - 1])
  {
    if log != [] {
      var start := Max(1, |log| - (CAPACITY - 1));
      assert Projection(log).Records() == [log[0]] + log[start..];
    }
  }

  lemma SealedFromRecords(backend: Backend, log: seq<AttemptRecord>)
    ensures SealedAsRequired(backend, log) <==> forall r :: r in Projection(log).Records() ==>
      && !SealedProofMissing(backend, r)
      && (r.launch.boundaryRequested == SealedRequired && r.launch.targetReleased ==> backend.boundary == SealedBoundary)
  {
    assert forall r :: SealHolds(backend, r) <==>
      && !SealedProofMissing(backend, r)
      && (r.launch.boundaryRequested == SealedRequired && r.launch.targetReleased ==> backend.boundary == SealedBoundary);
    forall r ensures r in Projection(log).Records()
      <==> exists i :: 0 <= i < |log| && IsRetained(i, |log|) && log[i] == r
    {
      RetainedRecords(log, r);
    }
  }

  lemma EndingFollowsTheLog(log: seq<AttemptRecord>, c: Candidate)
    requires c.attempts == Projection(log) && Numbered(log)
    ensures CheckEnding(c).None? <==>
      && EndsAsClaimed(c.terminal, log)
      && (c.deadlinePresent <==> c.terminal.DeadlineOutsideAttempt?)
      && SealedAsRequired(c.backend, log)
  {
    LatestIsLast(log);
    ProjectionSizes(log);
    SealedFromRecords(c.backend, log);
  }

  /**
   For the history and aggregates of a well-formed log, the constructor's bookkeeping
   checks add nothing: it accepts exactly when the caller's own claims fit the log.
   */
  lemma OnlyClaimsCanFail(log: seq<AttemptRecord>, c: Candidate)
    requires WellFormed(log) && |log| <= U64_MAX
    requires c.attempts == Projection(log) && c.aggregates == Tally(log)
    ensures NewExecution(c).Ok? <==>
      && c.backend.IsConsistent()
      && c.restartsLaunched <= c.targetsAuthorized == Count(Confirmed, log)
      && EndsAsClaimed(c.terminal, log)
      && (c.deadlinePresent <==> c.terminal.DeadlineOutsideAttempt?)
      && SealedAsRequired(c.backend, log)
  {
    BooksFollowTheLog(log, c);
    EndingFollowsTheLog(log, c);
  }

  lemma BooksFollowTheLog(log: seq<AttemptRecord>, c: Candidate)
    requires WellFormed(log) && |log| <= U64_MAX
    requires c.attempts == Projection(log) && c.aggregates == Tally(log)
    ensures CheckBooks(c).None? <==>
      c.backend.IsConsistent() && c.restartsLaunched <= c.targetsAuthorized == Count(Confirmed, log)
  {
    BookkeepingHolds(log);
    ProjectionSizes(log);
    OnlyClaimsLeft(c);
  }

  lemma OnlyClaimsLeft(c: Candidate)
    requires OutcomeTotal(c.aggregates) == c.attempts.total <= U64_MAX
    requires c.attempts.Validate() && c.attempts.Retained() <= CAPACITY
    requires c.attempts.Retained() + c.attempts.omitted == c.attempts.total
    requires AuthorizationsMatch(c.aggregates, c.attempts.Records(), c.attempts.total, c.attempts.omitted)
    ensures CheckBooks(c).None? <==>
      c.backend.IsConsistent() && c.restartsLaunched <= c.targetsAuthorized == c.aggregates.confirmed
  {
  }

  /** The disagreement is real: five attempts of which only the first is kept. */
  lemma DisagreementExists(first: AttemptRecord)
    requires first.IsConsistent() && first.number == 1 && first.kind == Initial
    requires !first.launch.targetReleased && first.launch.boundaryRequested == StandardRequired
    requires first.launch.boundaryEffective == StandardBoundary && first.release.None?
    ensures exists c: Candidate ::
      && c.attempts == History(Some(first), [], 5, 4)
      && NewExecution(c).Ok?
      && !ValidateReport(FromExecution(NewExecution(c).value), c.attempts.Records())
  {
    var h := History(Some(first), [], 5, 4);
    var error := ErrorRecord("", None, InitialSetup, None, true);
    var c := Candidate(Backend(StandardBoundary, false, false, false, false, false), TerminalError(None, error), h,
                       EMPTY.(setupFailures := 5), 0, false, 0, 0);
    assert h.Records() == [first];
    ObserveAllCounts([first]);
    assert [first][..0] == [];
    assert CheckBooks(c).None?;
    assert CheckEnding(c).None?;
    AgreementExactly(NewExecution(c).value);
  }
}
