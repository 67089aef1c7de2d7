/** What the checks on attempts, executions and reports come to, said without them. */
module ReportChecks {
  import opened Common
  import opened AttemptHistory
  import opened SupervisionReport

  // ----- one attempt ------------------------------------------------------------------------------

  function Known(t: Option<nat>): (times: seq<nat>) {
    if t.Some? then [t.value] else []
  }

  /** The known times of an attempt in the order they must have come. */
  function Times(r: AttemptRecord): (times: seq<nat>) {
    Known(r.started) + Known(r.authorized) + Known(r.terminal) + [r.finished]
  }

  ghost predicate Ordered(times: seq<nat>) {
    forall i, j :: 0 <= i < j < |times| ==> times[i] <= times[j]
  }

  /** One ending: an outcome and completed, or this attempt's own error and failed. */
  ghost predicate EndsOnce(r: AttemptRecord) {
    match (r.outcome, r.error)
    case (Some(_), None) => r.phase == Completed
    case (None, Some(error)) => r.phase == Failed && error.attemptNumber == Some(r.number)
    case _ => false
  }

  /** Where the record tells of a release, it was released and authorized exactly if issued, and the rest fits. */
  ghost predicate ReleaseFits(r: AttemptRecord) {
    r.release.Some? ==>
      && (r.release.value.Issued? ==> r.launch.targetReleased && r.authorized.Some?)
      && (!r.release.value.Issued? ==> !r.launch.targetReleased && r.authorized.None?)
      && (r.release.value.Unknown? ==> !r.safety.safe)
      && (r.outcome.Some? && OutcomeStatus(r.outcome.value) == 0 ==> r.release.value in {Issued(true), Unknown})
  }

  lemma OrderedTimes(r: AttemptRecord)
    ensures Ordered(Times(r)) <==>
      && (r.started.Some? ==> r.started.value <= r.finished)
      && (r.started.Some? && r.authorized.Some? ==> r.started.value <= r.authorized.value)
      && (r.started.Some? && r.terminal.Some? ==> r.started.value <= r.terminal.value)
      && (r.authorized.Some? ==> r.authorized.value <= r.finished)
      && (r.terminal.Some? ==> r.terminal.value <= r.finished)
      && (r.authorized.Some? && r.terminal.Some? ==> r.authorized.value <= r.terminal.value)
  {
    var s, a, t := Known(r.started), Known(r.authorized), Known(r.terminal);
    var times := Times(r);
    assert times[|times| - 1] == r.finished;
    assert r.started.Some? ==> times[0] == r.started.value;
    assert r.authorized.Some? ==> times[|s|] == r.authorized.value;
    assert r.terminal.Some? ==> times[|s| + |a|] == r.terminal.value;
  }

  /** A record is consistent exactly when it is numbered, ends once, runs forward in time and fits its release. */
  lemma ConsistentExactly(r: AttemptRecord)
    ensures r.IsConsistent() <==>
      && r.evidence && r.number >= 1 && EndsOnce(r) && ReleaseFits(r)
      && Ordered(Times(r)) && (r.authorized.Some? || r.terminal.Some? ==> r.started.Some?)
  {
    OrderedTimes(r);
  }

  // ----- the exit status -----------------------------------------------------------------------------

  ghost predicate Clean(cleanup: Cleanup) {
    cleanup.errors == [] && cleanup.directChildReaped && cleanup.workloadEmpty != Some(false)
  }

  /** The exit status of an ending, in the numbers users see. */
  ghost predicate Exits(terminal: Terminal, status: int) {
    match terminal
    case DeadlineOutsideAttempt(_) => status == 123
    case TerminalError(_, error) =>
      && (error.spawnFailure == Some(NotFound) ==> status == 127)
      && (error.spawnFailure == Some(NotExecutable) ==> status == 126)
      && (error.spawnFailure.None? ==> status == 125)
    case AttemptOutcome(_, DeadlineExceeded(_, _)) => status == 123
    case AttemptOutcome(_, LimitExceeded(_, _, _, _)) => status == 124
    case AttemptOutcome(_, MonitorFailed(_, _)) => status == 125
    case AttemptOutcome(_, Interrupted(signal, _)) => Signals(signal, status)
    case AttemptOutcome(_, Exited(child, _, cleanup)) => if Clean(cleanup) then ChildExits(child, status) else status == 125
  }

  /** 128 and the signal, held at the greatest 32-bit status. */
  ghost predicate Signals(signal: int, status: int) {
    if signal <= 2147483519 then status == 128 + signal else status == 2147483647
  }

  ghost predicate ChildExits(child: ChildTermination, status: int) {
    match child
    case ExitCode(code) => status == code
    case UnixSignal(signal) => Signals(signal, status)
    case WindowsStatus(code) => status == if code < 0x8000_0000 then code else 125
    case Unavailable => status == 125
  }

  /** Every admitted execution carries the status of its ending, and so does every report its validator passes. */
  lemma StatusTold(c: Candidate, r: Report, attempts: seq<AttemptRecord>)
    ensures NewExecution(c).Ok? ==> Exits(c.terminal, NewExecution(c).value.exitCode)
    ensures ValidateReport(r, attempts) ==> Exits(r.terminal, r.exitCode)
  {
  }

  /** Zero means that the child ended with zero and all was cleaned up; a signal would have to be number -128. */
  lemma SuccessExactly(e: Execution)
    requires NewExecution(e.candidate) == Ok(e)
    ensures e.exitCode == 0 <==>
      && e.candidate.terminal.AttemptOutcome?
      && var o := e.candidate.terminal.outcome;
      || (o.Exited? && Clean(o.cleanup) && o.child in {ExitCode(0), WindowsStatus(0), UnixSignal(-128)})
      || (o.Interrupted? && o.signal == -128)
  {
    StatusTold(e.candidate, FromExecution(e), []);
  }

  // ----- the books -----------------------------------------------------------------------------------

  /** A counter kept over the whole run lies between what the retained records show and that plus one per omitted one. */
  ghost predicate WithinOmitted(value: nat, counter: Counter, records: seq<AttemptRecord>, omitted: nat) {
    Count(counter, records) <= value <= Count(counter, records) + omitted
  }

  ghost predicate CountersFit(a: Aggregates, records: seq<AttemptRecord>, total: nat, omitted: nat) {
    && a.confirmed + a.unknown <= total && a.retries <= Max(total - 1, 0)
    && a.confirmedRetries <= Min(a.confirmed, a.retries)
    && WithinOmitted(a.confirmed, Confirmed, records, omitted)
    && WithinOmitted(a.unknown, UnknownAuthorization, records, omitted)
    && WithinOmitted(a.retries, Retry, records, omitted)
    && WithinOmitted(a.confirmedRetries, ConfirmedRetry, records, omitted)
  }

  lemma AuthorizationsExactly(a: Aggregates, records: seq<AttemptRecord>, total: nat, omitted: nat)
    requires |records| <= U64_MAX && total <= U64_MAX
    ensures AuthorizationsMatch(a, records, total, omitted) <==> CountersFit(a, records, total, omitted)
  {
    ObserveAllCounts(records);
  }

  /** A history as the constructor wants it: numbered from one and then up to the total, at most 256, the rest omitted. */
  ghost predicate HistoryFits(h: History) {
    if h.total == 0 then h == History(None, [], 0, 0)
    else
      && h.first.Some? && h.first.value.number == 1 && h.first.value.IsConsistent()
      && 1 + |h.recent| + h.omitted == h.total
      && |h.recent| <= 255
      && forall i :: 0 <= i < |h.recent| ==> h.recent[i].number == h.total - |h.recent| + 1 + i && h.recent[i].IsConsistent()
  }

  lemma HistoryExactly(h: History)
    ensures h.Validate() && h.Retained() <= CAPACITY && h.omitted == Max(h.total - h.Retained(), 0) <==> HistoryFits(h)
  {
  }

  ghost predicate SealedBackendProven(backend: Backend) {
    backend.boundary == SealedBoundary ==>
      && backend.targetGated && backend.verifiedBeforeAuthorization && backend.cleanupAuthority
      && backend.workloadEmptyProof && !backend.targetCanReconfigure
  }

  /** The bookkeeping half of the constructor accepts exactly the candidates whose counters can be those of their history. */
  lemma BooksExactly(c: Candidate)
    ensures CheckBooks(c).None? <==>
      && SealedBackendProven(c.backend)
      && OutcomeTotal(c.aggregates) == c.attempts.total <= U64_MAX
      && HistoryFits(c.attempts)
      && c.restartsLaunched <= c.targetsAuthorized == c.aggregates.confirmed
      && CountersFit(c.aggregates, c.attempts.Records(), c.attempts.total, c.attempts.omitted)
  {
    BooksUnrolled(c);
    HistoryExactly(c.attempts);
    if HistoryFits(c.attempts) && c.attempts.total <= U64_MAX {
      AuthorizationsExactly(c.aggregates, c.attempts.Records(), c.attempts.total, c.attempts.omitted);
    }
  }

  lemma BooksUnrolled(c: Candidate)
    ensures CheckBooks(c).None? <==>
      && SealedBackendProven(c.backend)
      && OutcomeTotal(c.aggregates) == c.attempts.total <= U64_MAX
      && c.attempts.Validate() && c.attempts.Retained() <= CAPACITY
      && c.attempts.omitted == Max(c.attempts.total - c.attempts.Retained(), 0)
      && c.restartsLaunched <= c.targetsAuthorized == c.aggregates.confirmed
      && AuthorizationsMatch(c.aggregates, c.attempts.Records(), c.attempts.total, c.attempts.omitted)
  {
  }

  // ----- the report ------------------------------------------------------------------------------------

  /** What the validator leaves open: everything else about a report follows from these and the attempts. */
  ghost predicate SameClaims(r: Report, s: Report) {
    r.aggregates == s.aggregates && r.terminal == s.terminal && r.restartsLaunched == s.restartsLaunched
  }

  lemma ReportDetermined(r: Report, s: Report, attempts: seq<AttemptRecord>)
    requires ValidateReport(r, attempts) && ValidateReport(s, attempts) && SameClaims(r, s)
    ensures r == s
  {
  }

  /** For an admitted execution the validator passes only the derived report, and none if only the first attempt is kept. */
  lemma ValidatedIsDerived(e: Execution, r: Report)
    requires NewExecution(e.candidate) == Ok(e) && SameClaims(r, FromExecution(e))
    ensures ValidateReport(r, e.candidate.attempts.Records()) <==>
      r == FromExecution(e) && !KeepsOnlyFirst(e.candidate.attempts)
  {
    AgreementExactly(e);
    var attempts := e.candidate.attempts.Records();
    if ValidateReport(r, attempts) {
      if KeepsOnlyFirst(e.candidate.attempts) {
        LoneRecord(e.candidate.attempts, r);
      } else {
        ReportDetermined(r, FromExecution(e), attempts);
      }
    }
  }

  lemma LoneRecord(h: History, r: Report)
    requires h.Validate() && KeepsOnlyFirst(h) && r.total == h.total
    ensures !ReportNumbersAgree(r.total, h.Records())
  {
    NumbersAgree(h);
  }

  /** The first attempt and then the last ones, up to `total`; a lone record is the only attempt there was. */
  ghost predicate NumbersFit(total: nat, attempts: seq<AttemptRecord>) {
    if |attempts| <= 1 then total == |attempts| && (total == 1 ==> attempts[0].number == 1)
    else
      && attempts[0].number == 1 && |attempts| <= total + 1
      && forall i :: 1 <= i < |attempts| ==> attempts[i].number == total - |attempts| + 1 + i
  }

  lemma NumbersExactly(total: nat, attempts: seq<AttemptRecord>)
    ensures ReportNumbersAgree(total, attempts) <==> NumbersFit(total, attempts)
  {
    if |attempts| > 1 {
      var tail := attempts[1..];
      assert forall i :: 0 <= i < |tail| ==> tail[i] == attempts[i + 1];
      if ReportNumbersAgree(total, attempts) {
        forall i | 1 <= i < |attempts| ensures attempts[i].number == total - |attempts| + 1 + i {
          assert tail[i - 1] == attempts[i];
        }
      }
    }
  }

  /** The ending is the last attempt's own, or no attempt's. */
  ghost predicate EndingFits(terminal: Terminal, total: nat, attempts: seq<AttemptRecord>) {
    match terminal
    case AttemptOutcome(number, outcome) => number == total && EndsLast(attempts, number, Some(outcome), None)
    case TerminalError(Some(number), error) => number == total && EndsLast(attempts, number, None, Some(error))
    case _ => true
  }

  ghost predicate EndsLast(attempts: seq<AttemptRecord>, number: nat, outcome: Option<RunOutcome>,
                           error: Option<ErrorRecord>)
  {
    && attempts != [] && var last := attempts[|attempts| - 1];
    && last.number == number
    && (outcome.Some? ==> last.outcome == outcome) && (error.Some? ==> last.error == error)
  }

  lemma EndingExactly(terminal: Terminal, total: nat, attempts: seq<AttemptRecord>)
    ensures ReportTerminalAgrees(terminal, total, attempts) <==> EndingFits(terminal, total, attempts)
  {
  }

  /** Sizes as a reader would add them up. */
  ghost predicate SizesFit(r: Report, attempts: seq<AttemptRecord>) {
    && r.phase == Finished && r.capacity == 256
    && r.retained == |attempts| <= 256 && r.omitted == r.total - |attempts|
    && (r.truncated <==> r.omitted > 0)
    && r.created == r.total == OutcomeTotal(r.aggregates) <= U64_MAX
    && r.restartsLaunched <= r.targetsAuthorized == r.aggregates.confirmed
  }

  lemma SizesExactly(r: Report, attempts: seq<AttemptRecord>)
    ensures ReportCountersAgree(r, attempts) <==>
      && SizesFit(r, attempts)
      && AuthorizationsMatch(r.aggregates, attempts, r.total, r.omitted)
      && TerminalStatus(r.terminal) == r.exitCode
  {
  }

  /** The validator passes exactly the reports whose sizes, counters, numbers, ending and status all fit the attempts. */
  lemma ReportExactly(r: Report, attempts: seq<AttemptRecord>)
    ensures ValidateReport(r, attempts) <==>
      && SizesFit(r, attempts) && CountersFit(r.aggregates, attempts, r.total, r.omitted)
      && NumbersFit(r.total, attempts) && EndingFits(r.terminal, r.total, attempts) && Exits(r.terminal, r.exitCode)
  {
    SizesExactly(r, attempts);
    NumbersExactly(r.total, attempts);
    EndingExactly(r.terminal, r.total, attempts);
    ExitsExactly(r.terminal, r.exitCode);
    if SizesFit(r, attempts) {
      AuthorizationsExactly(r.aggregates, attempts, r.total, r.omitted);
    }
  }

  lemma ExitsExactly(terminal: Terminal, status: int)
    ensures TerminalStatus(terminal) == status <==> Exits(terminal, status)
  {
  }
}
