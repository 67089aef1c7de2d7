# Verified models of memcordon

memcordon runs a program under memory and time budgets, restarts it under a
policy, and leaves reports and diagnostics behind. This project models the parts
of it that keep state, encode bytes or count things, and proves what those parts
promise: for every input, every run and every reachable state, not for examples.

`dafny verify dfyconfig.toml` checks everything; there are no axioms and no
assumptions.

The models follow one pattern. Code that updates an object in place is a class
whose methods are proved to change the abstract state by a step function; code
that loops is a method proved equal to a recursive specification; the theorems
then speak about the step function over whole sequences of calls, or about the
specification over all inputs.

- `CommandLine`, `CommandLineRules`, `EnvironmentBlock`, `RelayProtocol`: the Windows command-line
  quoter and its decoder (the backslash and quote rules of Microsoft's "Parsing C
  command-line arguments"), the environment-block encoder, the relay phases and
  the terminal-recovery object.
- `HalfLife`, `Backoff`, `BackoffRecovery`, `BackoffMultiplier`, `CircuitPressure`: the
  half-life logistic backoff, its rational multiplier and the decayed circuit pressure.
- `RestartController`, `RestartRuns`, `RestartWaits`, `RestartBooks`,
  `RestartCircuit`, `RestartStates`, `RestartRecords`: the restart coordinator, what
  holds over every run of it, how long its waits are, exactly when its summary
  balances, exactly when its circuit opens, and what its decision records say.
- `AttemptHistory`, `SupervisionReport`, `ReportChecks`: the bounded attempt history
  with its aggregates, the two independent checks of an execution, and what these
  checks come to.
- `CausalJournal`, `DigestTranscript`, `TranscriptReader`, `JsonBudget`: the causal
  diagnostic journal, the byte transcript its digest is taken over and a reader of it,
  and the one-pass JSON budget check.
- `ProcessObserver`: the bounded sample of process identities.
- `PeImports`, `PeLayout`, `PeFallback`: the two independent walks over the import
  tables of the Microsoft PE Format ("Import Directory Table", "Delay-Load Directory Table").
- `DecimalBudget`, `BudgetSets`: byte sizes, durations and the budget set.

Durations are nanoseconds and are truncated to milliseconds where the code does
so. The floating-point recurrences are modelled over exact reals: a half-life
carries a factor `rate` strictly between 0 and 1 with `rate^halfLife == 1/2`, and
decay over `n` milliseconds is `rate^n`, so that every law of decay used is proved
rather than postulated. Clocks, cleanup proofs, safety evidence and native results
are parameters.

Six promises turned out not to hold of the code as it stands; each is shown by a
concrete input and then proved under the exact condition:

- An original observed after a secondary event makes the journal inconsistent
  (`LateOriginalBreaks`, `ObserveKeepsExactly`, `RunConsistentExactly`).
- The history check alone accepts a history that keeps only the first of several
  attempts, which the report validator refuses (`DisagreementExists`,
  `AgreementExactly`).
- The circuit pressure can exceed the sum of `decay(now - t)`, because each gap is
  truncated to milliseconds separately (`PressureOvercounts`,
  `PressureAgainstClock`).
- A circuit duration that does not fit 64-bit milliseconds, which
  `CircuitBreakerPolicy::validate` admits, loses an event that was already counted
  (`UnrepresentableCooldownUnbalances`, `StepLosesExactly`,
  `BooksBalanceExactly`).
- A delay-load descriptor by virtual addresses that has no lookup table falls back
  to its import address table at an address rebased twice (`FallbackRefused`,
  `FallbackExactly`).
- After an abandoned cooldown a wait is recorded with a closed circuit although the
  circuit is open (`OpenCircuitShownClosed`, `RecordedStateExactly`).

## Model

| member | source | states |
|---|---|---|
| `CommandLine.EncodeArgument` | crates/memcordon-core/src/windows_sealed.rs:1117-1143 | the loop over backslash runs appends exactly the specified form; which arguments are quoted, and how, is stated on code units in CommandLineRules |
| `CommandLine.Encode` | crates/memcordon-core/src/windows_sealed.rs:1045-1054 | the encoder loop builds the specified line, arguments separated by one space |
| `CommandLine.CountSlashes` | crates/memcordon-core/src/windows_sealed.rs:1082-1086 | the inner loop returns the length of the maximal backslash run at the cursor |
| `CommandLine.ScanTurn` | crates/memcordon-core/src/windows_sealed.rs:1076-1108 | one turn of the argument loop: the backslash run is halved or kept, the quote toggles or is literal, a blank ends an unquoted argument, and the scan of the rest is unchanged |
| `CommandLine.ScanArgument` | crates/memcordon-core/src/windows_sealed.rs:1074-1109 | reading one argument yields its text, its final quote state and the cursor that the functional scan yields |
| `CommandLine.Decode` | crates/memcordon-core/src/windows_sealed.rs:1059-1115 | the decoder, which terminates on every input, equals the functional decoder, refusals included; what that splits and unescapes is stated on code units in CommandLineRules |
| `CommandLine.RoundTrip` | crates/memcordon-core/src/windows_sealed.rs:1045-1143 | for every list of NUL-free arguments, empty ones and any backslash or quote pattern included, decoding the encoded line gives back exactly that list |
| `CommandLine.EncodingInjective` | crates/memcordon-core/src/windows_sealed.rs:1045-1143 | two argument lists with the same command line are equal, with no condition on their contents |
| `CommandLine.DecodeFailsExactly` | crates/memcordon-core/src/windows_sealed.rs:1059-1115 | a line is refused exactly when it has a NUL or an odd number of quotes preceded by an even number of backslashes |
| `CommandLineRules.WrittenBareExactly` | crates/memcordon-core/src/windows_sealed.rs:1117-1125 | an argument is written as it stands if and only if it is not empty and holds no space, tab or double quote, given as code units |
| `CommandLineRules.WrittenInQuotes` | crates/memcordon-core/src/windows_sealed.rs:1126-1143 | any other argument is longer by at least two units and stands between double quotes |
| `CommandLineRules.LineGrowsByOne` | crates/memcordon-core/src/windows_sealed.rs:1045-1054 | each further argument is appended after exactly one space |
| `CommandLineRules.SplitAtBlanks` | crates/memcordon-core/src/windows_sealed.rs:1065-1079 | any words without quotes and backslashes, joined by any runs of spaces and tabs with any such runs at either end, decode to exactly those words |
| `CommandLineRules.EvenRunOpensQuote` | crates/memcordon-core/src/windows_sealed.rs:1081-1093 | 2n backslashes before a double quote stand for n, and the quote opens text in which blanks are kept |
| `CommandLineRules.OddRunKeepsQuote` | crates/memcordon-core/src/windows_sealed.rs:1081-1093 | 2n + 1 backslashes before a double quote stand for n and the quote itself |
| `EnvironmentBlock.Encode` | crates/memcordon-core/src/windows_sealed.rs:1159-1199 | sorting, the adjacent duplicate scan, the entry checks and the output loop compute the specified block or refusal |
| `EnvironmentBlock.SortsByKey` | crates/memcordon-core/src/windows_sealed.rs:1162-1163 | the sort yields a permutation of the entries in non-decreasing key order |
| `EnvironmentBlock.AdjacentSuffices` | crates/memcordon-core/src/windows_sealed.rs:1164-1168 | in a sorted list, comparing neighbours finds a duplicate key if and only if there is one anywhere |
| `EnvironmentBlock.BlockMeaning` | crates/memcordon-core/src/windows_sealed.rs:1159-1199 | a returned block, split at its NULs and at the first separator past position 0, is a permutation of the input in strictly increasing key order; its only double NUL is at its end; it has at most 32767 units |
| `EnvironmentBlock.BlockRefusals` | crates/memcordon-core/src/windows_sealed.rs:1159-1199 | each of the three refusals happens exactly under a condition on the unsorted input: a duplicate key anywhere; an entry whose name is empty, or whose name or value has a NUL, or whose name has an equals sign and is not one of the drive names =A: to =z:; or a total length over 32767 units |
| `EnvironmentBlock.OrderIrrelevant` | crates/memcordon-core/src/windows_sealed.rs:1159-1199 | rearranging the input never changes the answer |
| `Lex.LessExactly` | crates/memcordon-core/src/windows_sealed.rs:1162-1163 | the order of keys, and of DLL names: at the first difference the smaller unit comes first, and a proper prefix comes first |
| `RelayProtocol.Relay.Advance` | crates/memcordon-core/src/windows_sealed.rs:155-190 | an accepted event moves the phase along the transition table and a refused one leaves it unchanged; which events are accepted is stated over whole traces in AcceptedExactly |
| `RelayProtocol.AcceptedExactly` | crates/memcordon-core/src/windows_sealed.rs:155-190 | over every event trace an event is accepted if and only if what happened before allows it: the next ordinary or abort step, a rejection of a run not yet over, a test terminal of a run neither over nor aborted, or a test hook after the relays are ready and before authorization or abort |
| `RelayProtocol.PathLeads` | crates/memcordon-core/src/windows_sealed.rs:155-190 | every phase that is not final is reached by its path, so no step of the protocol is missing |
| `RelayProtocol.ProgressIsPath` | crates/memcordon-core/src/windows_sealed.rs:155-190 | over every event trace the accepted events are exactly the one path into the current phase, so no step is skipped, repeated or reordered |
| `RelayProtocol.OrdinaryTerminal` | crates/memcordon-core/src/windows_sealed.rs:155-190 | the ordinary terminal event is accepted if and only if exactly the five ordinary steps have been accepted, in order |
| `RelayProtocol.AbortEndsInRejection` | crates/memcordon-core/src/windows_sealed.rs:155-190 | once an abort is accepted, no authorization and no terminal event is ever accepted, and the run is over exactly when a rejection is |
| `RelayProtocol.TerminatedAbsorbs` | crates/memcordon-core/src/windows_sealed.rs:155-190 | after termination no further event changes the phase or counts as progress |
| `RelayProtocol.TerminalRecovery.Bind` | crates/memcordon-core/src/windows_sealed.rs:107-113 | binding succeeds as its specification says and changes only the bound flag |
| `RelayProtocol.TerminalRecovery.Observe` | crates/memcordon-core/src/windows_sealed.rs:115-128 | observing a frame failure grants a replay and consumes it as specified |
| `RelayProtocol.TerminalRecovery.BeginReplayAfterPending` | crates/memcordon-core/src/windows_sealed.rs:130-137 | a replay asked for after a pending attempt is granted and consumed as specified |
| `RelayProtocol.TerminalRecovery.RetireLocalRelaysOnce` | crates/memcordon-core/src/windows_sealed.rs:145-152 | retirement is handed out and marked as specified |
| `RelayProtocol.ReplayGrantedOnce` | crates/memcordon-core/src/windows_sealed.rs:99-153 | over every sequence of calls a replay is granted exactly to the first request made once an attempt is bound |
| `RelayProtocol.AttemptBoundOnce` | crates/memcordon-core/src/windows_sealed.rs:107-113 | over every sequence of calls only the first binding is accepted |
| `RelayProtocol.RelaysRetiredOnce` | crates/memcordon-core/src/windows_sealed.rs:145-152 | over every sequence of calls only the first retirement request becomes the owner |
| `HalfLife.PowAdd` | crates/memcordon-core/src/restart.rs:385 | decay over consecutive quiet spells multiplies |
| `HalfLife.DecayAntitone` | crates/memcordon-core/src/restart.rs:385 | longer silence decays strictly further |
| `HalfLife.DecayHalves` | crates/memcordon-core/src/restart.rs:1036-1045 | a half-life or more of silence keeps at most half |
| `Backoff.PulseTowardAsymptote` | crates/memcordon-core/src/restart.rs:388-393 | a pulse moves toward the asymptote, strictly when the multiplier exceeds one, and never past it |
| `Backoff.NextWithin` | crates/memcordon-core/src/restart.rs:374-395 | from any interval between base and asymptote the next one is computed without error and stays between them |
| `Backoff.NextMonotone` | fuzz/fuzz_targets/half_life_logistic_recurrence.rs:57-63 | as quiet time grows the next interval moves monotonically toward the pulse from base, from either side |
| `Backoff.PulseEquation` | crates/memcordon-core/src/restart.rs:388-393 | the reciprocal form computes the logistic pulse p from x: p (a + (m - 1) x) = a m x, for asymptote a and multiplier m |
| `Backoff.BackoffState.Observe` | crates/memcordon-core/src/restart.rs:438-457 | one backoff event updates interval and time by the step function, and a refused one changes nothing; what that step does to the interval is stated in BackoffRecovery |
| `Backoff.AlwaysInRange` | crates/memcordon-core/src/restart.rs:404-457 | for every list of event times, refused ones included, the current interval lies between min and max of base and asymptote |
| `Backoff.BurstClimbs` | crates/memcordon-core/src/restart.rs:374-457 | with multiplier above one and base below asymptote, simultaneous events strictly increase the interval each step, reach exactly the asymptote within asymptote - base steps, and stay there |
| `BackoffRecovery.RecoversExactly` | crates/memcordon-core/src/restart.rs:438-457 | for every event after any quiet time of e whole milliseconds: it is accepted, its time is stored, and the new interval is the pulse, rounded up to a whole millisecond, from base + (current - base) d, where d is the positive number with d^halfLife = (1/2)^e |
| `BackoffRecovery.RecoversByHalves` | crates/memcordon-core/src/restart.rs:385-387 | after n half-lives of quiet the pulse starts from base + (current - base) / 2^n |
| `BackoffRecovery.LaterIsNearer` | fuzz/fuzz_targets/half_life_logistic_recurrence.rs:57-63 | of two possible times for the next event, the later one leaves an interval at least as near to the pulse from base, from either side |
| `BackoffRecovery.RefusedExactly` | crates/memcordon-core/src/restart.rs:438-464 | an event is refused if and only if time went backwards or the quiet time exceeds 64-bit milliseconds, each with its own error |
| `BackoffMultiplier.Gcd` | crates/memcordon-core/src/restart.rs:249-256 | the remainder loop yields a common divisor that every common divisor divides, and that is the largest one |
| `BackoffMultiplier.GcdGreatest` | crates/memcordon-core/src/restart.rs:249-256 | every common divisor divides the result and is at most it |
| `BackoffMultiplier.NewIsReduced` | crates/memcordon-core/src/restart.rs:159-176 | an accepted multiplier keeps the value of the pair it was built from and is in lowest terms |
| `BackoffMultiplier.CanonicalForm` | crates/memcordon-core/src/restart.rs:159-176 | two accepted pairs are stored alike if and only if they are the same number |
| `BackoffMultiplier.ParseIsExact` | crates/memcordon-core/src/restart.rs:202-247 | the digits of an accepted text, whole and fraction, are exactly those the text is written with, and the stored fraction is their value in lowest terms |
| `BackoffMultiplier.ParseAccepts` | crates/memcordon-core/src/restart.rs:202-247 | a text is accepted if and only if it is a well-formed decimal whose two integers fit 64 bits, whose value is a quotient of two 32-bit numbers, and which lies between 1 and 100; a well-formed one that does not fit, and no other text, is refused for its range |
| `BackoffMultiplier.ParsesAsWritten` | crates/memcordon-core/src/restart.rs:202-247 | for every text spelled from whole digits and fraction digits: whether it is accepted, and that the stored fraction is the number so written |
| `BackoffMultiplier.LowestTermsLeast` | crates/memcordon-core/src/restart.rs:238-243 | of all pairs writing a number the one in lowest terms is smallest on both sides, so that no accepted value is refused for its size |
| `BackoffMultiplier.ParseCanonical` | crates/memcordon-core/src/restart.rs:202-247 | two accepted texts give equal multipliers if and only if they write the same number |
| `CircuitPressure.PressureIsDecaySum` | crates/memcordon-core/src/restart.rs:1032-1050 | for non-decreasing event times the incremental pressure is the sum over all events of their decay, ages counted gap by gap in whole milliseconds |
| `CircuitPressure.PressureAgainstClock` | crates/memcordon-core/src/restart.rs:1032-1050 | the pressure is never below the sum of decay(now - t), and equals it if and only if the sub-millisecond parts of the gaps add up to less than a millisecond |
| `CircuitPressure.PressureOvercounts` | crates/memcordon-core/src/restart.rs:459-464 | a concrete run where truncation makes the pressure exceed that sum: events at 0, 0.6 and 1.2 ms |
| `CircuitPressure.PressureOnWholeMillis` | crates/memcordon-core/src/restart.rs:1032-1050 | when event times are whole milliseconds the pressure is exactly the sum of decay(now - t) over all events |
| `CircuitPressure.SpacedEventsStayBelowTwo` | crates/memcordon-core/src/restart.rs:1032-1050 | events at least one half-life apart keep the pressure below 2 |
| `RestartController.RestartCoordinator.constructor` | crates/memcordon-core/src/restart.rs:841-853 | a fresh coordinator holds the initial controller state and an empty summary |
| `RestartController.RestartCoordinator.AfterLimit` | crates/memcordon-core/src/restart.rs:861-954 | one limit event changes controller, record and summary exactly as specified, partial updates before an error included |
| `RestartController.RestartCoordinator.ScheduleWait` | crates/memcordon-core/src/restart.rs:891-898 | the backoff, the event counter and the circuit are advanced in the source order, and an error stops there |
| `RestartController.RestartCoordinator.PlaceWait` | crates/memcordon-core/src/restart.rs:898-921 | the circuit opens and the wait is chosen as specified; what kind, duration, number and index it has in every run is stated in RestartWaits.WaitLength and RestartCircuit.CircuitOpensExactly |
| `RestartController.RestartCoordinator.BookWait` | crates/memcordon-core/src/restart.rs:922-953 | the wait becomes pending and is entered in record and summary |
| `RestartController.RestartCoordinator.AuthorizeAfterWait` | crates/memcordon-core/src/restart.rs:956-1017 | the end of a wait takes the pending wait and launches, stops or fails exactly as specified |
| `RestartRuns.AlwaysSound` | crates/memcordon-core/src/restart.rs:861-1050 | in every state any calls can reach: the launch count plus a pending wait never exceeds the sequence or the limit, the pending wait is numbered next and is at least the backoff (and cooldown), the circuit is closed if there is no breaker |
| `RestartRuns.DeadBranches` | crates/memcordon-core/src/restart.rs:900-906 | in every run the branches for a missing circuit policy, circuit time reversal, a limit exhausted during a wait and launch-counter overflow are never taken |
| `RestartRuns.LaunchedCounts` | crates/memcordon-core/src/restart.rs:995-998 | the launch counter is the number of launches so far |
| `RestartRuns.LaunchStory` | crates/memcordon-core/src/restart.rs:861-1017 | every launch of every run has the next number, is within the limit, and follows its own selected limit event whose cleanup proved the child and helpers reaped, the workload empty, the containment gone or harmless and no errors, and a wait completed for at least the scheduled time, which covers the cooldown when the circuit had opened |
| `RestartWaits.WaitLength` | crates/memcordon-core/src/restart.rs:891-921 | every scheduled wait of every run is numbered one past the launches so far, indexed by the events counted before it, and lasts exactly the interval the backoff computes over all events offered to it, or the longer of that and the cooldown if it is a cooldown |
| `RestartWaits.BackoffOverRuns` | crates/memcordon-core/src/restart.rs:891 | in every reachable state the backoff is the backoff run over exactly the events that were selected, safely cleaned up, within the launch limit and came with no wait pending |
| `RestartWaits.WaitsInRange` | crates/memcordon-core/src/restart.rs:891-921 | every scheduled backoff wait of every run lies between base and asymptote |
| `RestartWaits.WaitRecovers` | crates/memcordon-core/src/restart.rs:438-457 | in every run the interval behind each scheduled wait is the rounded pulse from the previous one decayed by the quiet time in between |
| `RestartWaits.BurstWaits` | crates/memcordon-core/src/restart.rs:374-457 | in every run whose n offered events all came at one instant, the wait is the burst interval, at least min(base + n, asymptote) milliseconds |
| `RestartBooks.LaunchesExactly` | crates/memcordon-core/src/restart.rs:956-1017 | in every run a launch happens if and only if the call reports a pending wait complete, for at least its duration, with supervision time left |
| `RestartBooks.WaitsExactly` | crates/memcordon-core/src/restart.rs:861-954 | while the books balance a wait is scheduled if and only if the condition is selected, the cleanup safe, a launch and a sequence number left, nothing pending, time not reversed, and no circuit duration needed that does not fit |
| `RestartRuns.EarlyCompletionDropsWait` | crates/memcordon-core/src/restart.rs:979-981 | in every run a wait reported complete too early is refused and dropped, and nothing is launched afterwards before some later call has scheduled another wait |
| `RestartRuns.BooksBalance` | crates/memcordon-core/src/restart.rs:891-953 | over runs whose calls all answer, and over every run once circuit durations fit 64-bit milliseconds: waits + cooldowns = sequence index, launches match, the final circuit state is the current one |
| `RestartBooks.ParsedDurationFits` | crates/memcordon-cli/src/lib.rs:44-104 | every duration the parser accepts fits 64-bit milliseconds |
| `RestartBooks.ParsedCircuitBalances` | crates/memcordon-core/src/restart.rs:526-534 | a circuit configured with parsed durations keeps the books over every run |
| `RestartRuns.SummaryValid` | crates/memcordon-core/src/supervision.rs:1270-1282 | balanced books pass the summary validity check; launches plus a pending wait never exceed waits + cooldowns; cooldowns = circuit open count |
| `RestartBooks.StepLosesExactly` | crates/memcordon-core/src/restart.rs:887-953 | one call upsets balanced books if and only if, before it, its event passes every check and an unrepresentable circuit duration is needed for it |
| `RestartBooks.BooksBalanceExactly` | crates/memcordon-core/src/restart.rs:861-954 | over every run, whatever its results, the books balance if and only if no call so far lost its event |
| `RestartRuns.UnrepresentableCooldownUnbalances` | crates/memcordon-core/src/restart.rs:526-534 | such calls exist: with a cooldown past 64-bit milliseconds, which validation admits, the first event is counted and lost |
| `RestartRuns.OpenExactly` | crates/memcordon-core/src/restart.rs:898-1017 | a call leaves the circuit open without a pending cooldown if and only if it ends a cooldown wait that was cut short, stopped or past the deadline |
| `RestartRuns.OpenUntilAbandoned` | crates/memcordon-core/src/restart.rs:861-1017 | over every run, until a cooldown is first abandoned, the circuit is open exactly when a cooldown is pending |
| `RestartCircuit.CircuitOpensExactly` | crates/memcordon-core/src/restart.rs:897-912 | in every run, refused and failing calls included, the wait for an event is a cooldown if and only if the decay sum over all events the circuit has recorded, this one included, reaches the threshold, or it is the first event recorded since a half-open trial was launched |
| `RestartCircuit.HalfOpenExactly` | crates/memcordon-core/src/restart.rs:898-1003 | in every run the circuit is half-open exactly from a half-open launch to the next event the circuit records |
| `RestartCircuit.PressureOverRuns` | crates/memcordon-core/src/restart.rs:1032-1050 | in every reachable state the pressure and its time are those of the recurrence run over the recorded events, whose times never decrease |
| `RestartCircuit.RecordedAreEligible` | crates/memcordon-core/src/restart.rs:891-922 | as long as no event is lost, the recorded events are exactly those that led to a wait |
| `RestartCircuit.CircuitOpensForWaits` | crates/memcordon-core/src/restart.rs:897-912 | in every run that has lost no event, the same equivalence with the sum taken over the events that led to a wait |
| `RestartCircuit.SpacedEventsNeverOpen` | crates/memcordon-core/src/restart.rs:897-912 | in every run whose recorded events are at least a half-life apart, a circuit with threshold two or more stays closed |
| `RestartStates.RecordedStateExactly` | crates/memcordon-core/src/restart.rs:899-952 | in every run the record of a scheduled wait shows the circuit state the controller and the summary are in, if and only if the wait is a cooldown or the circuit was not open before it |
| `RestartStates.UnabandonedStateShown` | crates/memcordon-core/src/restart.rs:899-952 | so it does as long as no cooldown has been abandoned |
| `RestartStates.OpenCircuitShownClosed` | crates/memcordon-core/src/restart.rs:913-921 | a five-call run whose last wait is recorded with a closed circuit while controller and summary are open |
| `RestartRecords.LimitReportedExactly` | crates/memcordon-core/src/restart.rs:882-886 | in every run the limit is reported exhausted if and only if a selected, safely cleaned-up event finds exactly as many launches made as the limit allows |
| `RestartRecords.LimitExhaustedExactly` | crates/memcordon-core/src/restart.rs:882-886 | in every run the summary says the limit was exhausted if and only if there was such an event |
| `RestartRecords.StopsExactly` | crates/memcordon-core/src/restart.rs:871-991 | in every run each stop has its exact cause: an unselected condition first, then an unsafe cleanup; an interrupted wait; a supervision deadline, or none of its time left |
| `RestartRecords.OutOfTurnExactly` | crates/memcordon-core/src/restart.rs:887-981 | in every run a call is refused as out of turn if and only if an eligible event finds a wait pending, or the end of a wait finds none or comes too early |
| `RestartRecords.EnabledExactly` | crates/memcordon-core/src/restart.rs:871 | in every run the summary says restarts are enabled if and only if some limit event was reported |
| `RestartRecords.LaunchRecorded` | crates/memcordon-core/src/restart.rs:861-1017 | a record carried from the limit event to the completed wait ends up with the trigger, number, sequence index, configured and actual wait, kind and circuit state of that launch, the actual wait not below the configured one |
| `AttemptHistory.BoundedHistory.AppendRecord` | crates/memcordon-core/src/supervision.rs:873-917 | append changes history and aggregates together as specified; a failing append changes neither |
| `AttemptHistory.MaxPeakIsMaximum` | crates/memcordon-core/src/supervision.rs:1168-1189 | the aggregate peak is the greatest peak of any attempt that exited, or ran into a memory limit or a deadline, and absent exactly when none of them has one |
| `AttemptHistory.ObserveTally` | crates/memcordon-core/src/supervision.rs:1139-1213 | observing one record extends every counter by it, and no counter can overflow before the attempt number does |
| `AttemptHistory.AppendProjects` | crates/memcordon-core/src/supervision.rs:873-917 | appending to the projection of any log gives the projection and tally of the longer log, or the exact refusal |
| `AttemptHistory.AppendsProject` | crates/memcordon-core/src/supervision.rs:853-926 | after any sequence of appends the history is the first record plus the last min(n - 1, 255) of the accepted log, with exact total and omitted counts, and every aggregate is a count over the whole log, evicted records included |
| `AttemptHistory.EvictedCount` | crates/memcordon-core/src/supervision.rs:1100-1137 | what the retained records show is below the true count by at most the number omitted |
| `AttemptHistory.OutcomesAddUp` | crates/memcordon-core/src/supervision.rs:1168-1213 | the six outcome counters sum to the number of attempts |
| `AttemptHistory.BookkeepingHolds` | crates/memcordon-core/src/supervision.rs:1100-1137 | for the projection of any numbered log of consistent records that opens with an initial attempt, the authorization check, the outcome sum and the history check all hold |
| `AttemptHistory.AcceptedNumbered` | crates/memcordon-core/src/supervision.rs:873-889 | the accepted log is numbered 1, 2, 3, ... whatever was offered |
| `AttemptHistory.AppendedBooksHold` | crates/memcordon-core/src/supervision.rs:1100-1137 | for every history and aggregates built by appends of consistent records whose first is an initial attempt, the authorization check holds, the six outcome counters sum to the total and the history check accepts |
| `SupervisionReport.AgreementExactly` | crates/memcordon-core/src/report.rs:791-894 | an execution the constructor accepts yields a report the independent validator accepts, if and only if its history does not keep only the first of several attempts |
| `SupervisionReport.AppendedHistoriesAgree` | crates/memcordon-core/src/supervision.rs:1386-1592 | for append-built histories the two checks always agree |
| `SupervisionReport.OnlyClaimsCanFail` | crates/memcordon-core/src/supervision.rs:1386-1592 | for the history and aggregates of a well-formed log the constructor accepts if and only if the backend is consistent, the claimed launches and authorizations fit the log, the claimed ending is that of the last attempt of the whole log or lies outside every attempt, the deadline evidence is there exactly for a deadline outside attempts, and every retained sealed attempt has its proofs and a sealed backend |
| `SupervisionReport.DisagreementExists` | crates/memcordon-core/src/supervision.rs:854-871 | the disagreement is real: five attempts of which only the first is kept |
| `ReportChecks.ConsistentExactly` | crates/memcordon-core/src/supervision.rs:929-1001 | an attempt record is consistent if and only if it is numbered, ends exactly one way in the matching phase, its known times never decrease and start with its start, and its release agrees with its authorization, its safety and its success |
| `ReportChecks.BooksExactly` | crates/memcordon-core/src/supervision.rs:1473-1504 | the bookkeeping half of the constructor accepts if and only if a sealed backend has all five proofs, the outcomes add up, the history is numbered and complete up to the omitted part, and every counter lies between what the retained records show and that plus one per omitted record |
| `ReportChecks.StatusTold` | crates/memcordon-core/src/supervision.rs:1626-1647 | every admitted execution and every validated report carries the exit status of its ending: 123, 124, 125, 126, 127, 128 plus a signal, or the child status |
| `ReportChecks.ExitsExactly` | crates/memcordon-core/src/supervision.rs:683-688 | the status of an ending is that one and no other |
| `ReportChecks.SuccessExactly` | crates/memcordon-core/src/supervision.rs:1626-1647 | an admitted execution exits with 0 if and only if its last attempt ended with status 0 and everything was cleaned up, the nonexistent signal -128 apart |
| `ReportChecks.ReportExactly` | crates/memcordon-core/src/report.rs:791-894 | the validator accepts a report over given attempts if and only if its sizes, counters, numbers, ending and status all fit them |
| `ReportChecks.ValidatedIsDerived` | crates/memcordon-core/src/report.rs:791-894 | for an admitted execution and its claims the validator accepts exactly one report, the derived one, and none when only the first of several attempts is kept |
| `CausalJournal.CausalDiagnostics.constructor` | crates/memcordon-core/src/diagnostics.rs:549-561 | a default journal is empty, without an original |
| `CausalJournal.CausalDiagnostics.ObserveFirst` | crates/memcordon-core/src/diagnostics.rs:588-607 | a first observation is stamped and placed as the original or kept, and refused only at the end of the sequence |
| `CausalJournal.CausalDiagnostics.ObserveSecondary` | crates/memcordon-core/src/diagnostics.rs:574-586 | a secondary observation is stamped and kept or counted as lost |
| `CausalJournal.CausalDiagnostics.CheckConsistent` | crates/memcordon-core/src/diagnostics.rs:608-641 | the loop over the retained events decides exactly the stated consistency |
| `CausalJournal.ObserveKeepsExactly` | crates/memcordon-core/src/diagnostics.rs:574-607 | from a consistent journal, one observation leaves a consistent one if and only if it is not a late original and its reference is in range (or it is not stored) |
| `CausalJournal.OriginalPersists` | crates/memcordon-core/src/diagnostics.rs:588-607 | once observed, the original survives every later sequence of observations |
| `CausalJournal.RunIsExpected` | crates/memcordon-core/src/diagnostics.rs:574-607 | an orderly run leaves the first event, the next eight and exact counts of all others |
| `CausalJournal.RunConsistentExactly` | crates/memcordon-core/src/diagnostics.rs:594-628 | a whole run ends consistent if and only if no original was observed after a secondary and every retained event has its terminalization reference in range; no condition on the run |
| `CausalJournal.EventsConserved` | crates/memcordon-core/src/diagnostics.rs:574-607 | in every run, orderly or not, kept plus lost events are all events observed: the list overflows only when full, and the 32-bit loss counter is exact until it saturates, its flag set exactly when the loss exceeded it |
| `CausalJournal.KeepsEarliest` | crates/memcordon-core/src/diagnostics.rs:574-607 | an orderly run retains the earliest events, in order |
| `CausalJournal.LateOriginalBreaks` | crates/memcordon-core/src/diagnostics.rs:594-600 | one secondary event followed by an original is enough to make the journal inconsistent |
| `CausalJournal.ConsistentExactly` | crates/memcordon-core/src/diagnostics.rs:608-641 | over every journal of at most eight secondary events: the consistency check passes if and only if some orderly run of observations with references in range leaves exactly this journal, its durable mark not past the last observation |
| `DigestTranscript.HashEvent` | crates/memcordon-core/src/diagnostics.rs:852-899 | the hasher is fed exactly the event encoding, in order |
| `DigestTranscript.HashEvents` | crates/memcordon-core/src/diagnostics.rs:813-820 | the event loop feeds the encodings one after another |
| `DigestTranscript.HashJournal` | crates/memcordon-core/src/diagnostics.rs:795-826 | sequence, durable mark, original, list and loss are fed in order |
| `DigestTranscript.CanonicalTranscript` | crates/memcordon-core/src/diagnostics.rs:777-828 | the bytes fed to the hash are exactly the specified transcript |
| `DigestTranscript.EventUnique` | crates/memcordon-core/src/diagnostics.rs:852-899 | an event encoding followed by anything determines the event and what follows |
| `DigestTranscript.TranscriptUnique` | crates/memcordon-core/src/diagnostics.rs:777-828 | projections within the field bounds with equal transcripts agree in every field but the digest itself |
| `TranscriptReader.TranscriptReadsBack` | crates/memcordon-core/src/diagnostics.rs:777-828 | a reader of the format, written with its own tags, widths and order, gets every projection back from its transcript |
| `TranscriptReader.TranscriptExactly` | crates/memcordon-core/src/diagnostics.rs:777-828 | the reader accepts for a projection its transcript and no other bytes |
| `TranscriptReader.EventBack` | crates/memcordon-core/src/diagnostics.rs:852-899 | the same for one event, whatever follows it |
| `JsonBudget.Visit` | crates/memcordon-core/src/diagnostics.rs:45-107 | the recursive pass over shared budgets accepts a subtree exactly when it fits, and leaves exactly the budgets minus its node count and text |
| `JsonBudget.VisitItems` | crates/memcordon-core/src/diagnostics.rs:84-95 | the same for the items of a sequence |
| `JsonBudget.VisitFields` | crates/memcordon-core/src/diagnostics.rs:96-106 | the same for the fields of a map, key bounds included |
| `JsonBudget.DepthIsHeight` | crates/memcordon-core/src/diagnostics.rs:47-53 | the per-node depth check is a bound on the height of the tree |
| `JsonBudget.ChargedText` | crates/memcordon-core/src/diagnostics.rs:72-80 | the text charged is all string bytes less exactly those directly under the top-level outbox key |
| `JsonBudget.ValidateStructure` | crates/memcordon-core/src/diagnostics.rs:37-119 | the check accepts a document if and only if it has at most 16384 nodes, height at most 32, keys of at most 64 bytes without NUL, and at most 262144 bytes of text not directly under the top-level key terminal_response_json |
| `ProcessObserver.Observer.constructor` | crates/memcordon-core/src/windows_process_observation.rs:290-327 | a new observer is empty, with or without sample storage |
| `ProcessObserver.Increment` | crates/memcordon-core/src/windows_process_observation.rs:270-277 | a counter goes up by one or stays at the top, and the flag is raised exactly when it would have passed it |
| `ProcessObserver.Observer.CountPoll` | crates/memcordon-core/src/windows_process_observation.rs:329-334 | polls are counted with saturation |
| `ProcessObserver.Observer.CountSnapshot` | crates/memcordon-core/src/windows_process_observation.rs:336-341 | snapshots are counted with saturation |
| `ProcessObserver.Observer.CountQuery` | crates/memcordon-core/src/windows_process_observation.rs:343-348 | identity queries are counted with saturation |
| `ProcessObserver.Observer.CountVanished` | crates/memcordon-core/src/windows_process_observation.rs:350-355 | vanished identities are counted with saturation |
| `ProcessObserver.Observer.Observe` | crates/memcordon-core/src/windows_process_observation.rs:357-396 | a verified identity refreshes its entry in place or is admitted, evicting the oldest when full; an invalid one is refused and changes nothing |
| `ProcessObserver.Observer.Account` | crates/memcordon-core/src/windows_process_observation.rs:426-438 | accounting is recorded and the regression flag is sticky |
| `ProcessObserver.RunDescribed` | crates/memcordon-core/src/windows_process_observation.rs:290-438 | after every run each counter is its true count capped at 64 bits with the flag set exactly on overflow, and the sample is the window of the most recently admitted identities, each with its latest sequence |
| `ProcessObserver.AdmissionsConserved` | crates/memcordon-core/src/windows_process_observation.rs:357-396 | evictions + sample length = admissions |
| `ProcessObserver.LastSeenMeaning` | crates/memcordon-core/src/windows_process_observation.rs:368-379 | the sequence shown is that of the identity's last verification |
| `ProcessObserver.ValidateSample` | crates/memcordon-core/src/windows_process_observation.rs:250-259 | the loop over the sample accepts exactly when every identity is valid, no two are equal and no sequence is zero |
| `ProcessObserver.FrozenRunAccepted` | crates/memcordon-core/src/windows_process_observation.rs:197-259 | a frozen run passes the counter and sample checks if and only if the root is valid and snapshots, verifications and losses do not exceed what was asked for |
| `ProcessObserver.AcceptedExactly` | crates/memcordon-core/src/windows_process_observation.rs:197-259 | any observation passes the counter and sample checks if and only if the root and every sampled identity have a process id and a creation time, the sample has at most 1024 entries and repeats none, no entry is unseen, and nothing is answered that was not asked |
| `ProcessObserver.DisciplineCounts` | crates/memcordon-core/src/windows_process_observation.rs:243-247 | in such a run snapshots never exceed polls, and verified and vanished identities together never exceed queries |
| `ProcessObserver.DisciplinedRunAccepted` | crates/memcordon-core/src/windows_process_observation.rs:197-259 | every run in which each snapshot comes while a counted poll is open, and each verified or vanished identity while a counted query is, passes all counter and sample checks |
| `ProcessObserver.RegressionExactly` | crates/memcordon-core/src/windows_process_observation.rs:426-438 | the last accounting is kept as it was observed, and its regression flag is set exactly when an observed total was ever below an earlier one |
| `PeImports.ReadSections` | crates/memcordon-core/src/windows_pe.rs:182-242 | the section loop reads the table or stops at its first error |
| `PeImports.SectionsMeaning` | crates/memcordon-core/src/windows_pe.rs:182-242 | the section table is read if and only if every entry is, each in its place |
| `PeImports.FindOffset` | crates/memcordon-core/src/windows_pe.rs:92-126 | the section search maps an address as specified |
| `PeImports.OffsetMeaning` | crates/memcordon-core/src/windows_pe.rs:92-126 | an address maps to an offset if and only if it lies in the headers as it stands, or in the file data of the first section that covers it, no section up to that one overflowing |
| `PeImports.ReadSymbols` | crates/memcordon-core/src/windows_pe.rs:254-299 | the thunk loop yields the specified symbols or error |
| `PeImports.ReadDescriptors` | crates/memcordon-core/src/windows_pe.rs:301-386 | the descriptor loop yields the specified descriptors or error |
| `PeImports.ReadNames` | crates/memcordon-core/src/windows_pe.rs:526-584 | the name loop, inserting into an ordered set, yields the specified names or error |
| `PeImports.SymbolsMeaning` | crates/memcordon-core/src/windows_pe.rs:254-299 | a symbol list is read if and only if it spells the thunks before the first zero one, which comes within the bound |
| `PeImports.DescriptorsMeaning` | crates/memcordon-core/src/windows_pe.rs:301-386 | a descriptor list is read if and only if it spells the entries before the first all-zero one, which comes within the bound |
| `PeImports.FallbackExactly` | crates/memcordon-core/src/windows_pe.rs:353-365 | for every readable entry without a lookup table, whatever becomes of the rest of it: the address taken over from the import address table is kept if and only if it is relative, the image base is zero or it is zero; it is refused if and only if it is not relative and lies strictly between zero and the image base; otherwise it is lower by the image base once too often |
| `PeImports.LookupDecides` | crates/memcordon-core/src/windows_pe.rs:345-384 | a parsed descriptor stores exactly that address, and an entry whose address fails is refused |
| `PeFallback.FallbackRefused` | crates/memcordon-core/src/windows_pe.rs:345-365 | a whole 512-byte file on which this shows: its name parse succeeds with one delayed name, its address table is in place and empty, and its contract parse refuses an address below the image base |
| `PeImports.WalkMeaning` | crates/memcordon-core/src/windows_pe.rs:271-298 | a bounded walk succeeds with exactly the items before its first end mark |
| `PeImports.WalksAgree` | crates/memcordon-core/src/windows_pe.rs:301-386 | whenever the descriptor walk succeeds, the name walk succeeds with the DLL names of those descriptors, in order |
| `PeImports.ParsersAgree` | crates/memcordon-core/src/windows_pe.rs:488-615 | whenever the loader-contract parse of a file succeeds, the name parse succeeds with the same machine, and its lists are the strictly sorted lists of exactly the DLL names of the contract descriptors |
| `PeImports.SortedNamesUnique` | crates/memcordon-core/src/windows_pe.rs:526-584 | such a sorted list is determined by the descriptors |
| `PeLayout.HeadersExactly` | crates/memcordon-core/src/windows_pe.rs:182-242 | the headers of a file are read if and only if the file holds them, field by field: MZ, the PE offset at 0x3C, PE, one of two machines, a complete PE32+ optional header with more than 13 directories, and every section header, each at its own offset |
| `PeLayout.EntryExactly` | crates/memcordon-core/src/windows_pe.rs:347-383 | an import or delay-load entry with given fields at their offsets is read as the one descriptor these describe: addresses relative if the attributes are odd, else less the image base |
| `PeLayout.NameEntryExactly` | crates/memcordon-core/src/windows_pe.rs:566-581 | the name walk reads from an entry the name its name field leads to |
| `PeLayout.TableExactly` | crates/memcordon-core/src/windows_pe.rs:328-346 | entries are 20 bytes, delay-load entries 32, and the first all-zero one ends the table |
| `PeLayout.DirectoryExactly` | crates/memcordon-core/src/windows_pe.rs:309-326 | a directory needs both its fields and has room for as many whole entries as its size gives |
| `PeLayout.ThunkExactly` | crates/memcordon-core/src/windows_pe.rs:271-297 | a zero thunk ends a table; otherwise bit 63 and sixteen bits are an ordinal, and a 32-bit address leads to a hint and a name |
| `PeLayout.DllExactly` | crates/memcordon-core/src/windows_pe.rs:144-167 | a DLL name is read if and only if 1 to 4096 ASCII characters without slashes and a NUL stand there, and it is those with letters in upper case |
| `PeLayout.QwordExactly` | crates/memcordon-core/src/windows_pe.rs:61-82 | numbers are little-endian and refused only past the end of the file |
| `DecimalBudget.ScaledExactly` | crates/memcordon-core/src/policy.rs:86-118 | a decimal is accepted exactly when its fraction fits 128-bit arithmetic and the result 64 bits, and the value is the ceiling of the whole product although only the fraction is rounded |
| `DecimalBudget.DecimalParsesAsWritten` | crates/memcordon-core/src/policy.rs:73-84 | a text parses to given whole and fraction digits if and only if it is written with exactly these: a nonempty run of digits and, after a dot, another |
| `DecimalBudget.SizeAsWritten` | crates/memcordon-core/src/policy.rs:48-118 | for every number and unit written: whether the size is accepted, and that it is the number times the unit, rounded up |
| `DecimalBudget.DurationAsWritten` | crates/memcordon-cli/src/lib.rs:44-104 | the same for durations, in milliseconds |
| `DecimalBudget.ByteUnitValues` | crates/memcordon-core/src/policy.rs:56-71 | a prefix K, M, G, T, P or E and B stands for the powers of 1000, with iB for the powers of 1024, and B or nothing for one |
| `DecimalBudget.ByteUnitsOnly` | crates/memcordon-core/src/policy.rs:56-71 | there is no other byte unit |
| `DecimalBudget.DurationUnitValues` | crates/memcordon-cli/src/lib.rs:49-55 | ms, s, m and h stand for 1, 1000, 60000 and 3600000 milliseconds, and there is no other unit |
| `DecimalBudget.RefusalsExactly` | crates/memcordon-core/src/policy.rs:48-84 | a token is split after its longest run of digits and dots, and is refused for the first thing wrong: no number, unknown unit, malformed number, too large |
| `DecimalBudget.AcceptedTokensAreExact` | crates/memcordon-cli/src/lib.rs:44-104 | every accepted byte size or duration is written as whole digits, fraction digits and a unit, and is the ceiling of the number so written times its unit |
| `DecimalBudget.GrammarsDisjoint` | crates/memcordon-cli/src/lib.rs:44-104 | no token is both a byte size and a duration |
| `DecimalBudget.DisplayRoundTrip` | crates/memcordon-core/src/policy.rs:27-31 | parsing a displayed byte size returns it |
| `DecimalBudget.BudgetExactly` | crates/memcordon-cli/src/invocation.rs:671-704 | a budget is read as a size or as a duration if and only if it is a plus sign and one; text outside ASCII has its own refusal, everything else is malformed, and nothing is ever ambiguous |
| `BudgetSets.BudgetSet.Push` | crates/memcordon-cli/src/invocation.rs:643-668 | one push stores the token and its value or refuses it and changes nothing |
| `BudgetSets.HoldsFirstOfEachKind` | crates/memcordon-cli/src/invocation.rs:636-669 | after any pushes the set holds exactly the first token of each kind in source order, and the two value fields agree with it |
| `BudgetSets.RefusedExactly` | crates/memcordon-cli/src/invocation.rs:643-668 | a push is refused exactly when its kind came before, as one too many when both kinds did and as a duplicate otherwise |

## Left out

- Floating-point rounding: backoff and pressure are exact reals; nothing is claimed about the last unit of an `f64`. The final ceiling and the saturating cast to 64 bits are modelled.
- Unicode upper-casing of environment names: the key is an arbitrary function from names to unit sequences, so the results hold for every such function.
- SHA-256, serde, JSON text and base64: the transcript theorem is about the hash's input bytes; a JSON document is a tree with its object keys in order.
- Closed vocabularies of the diagnostics (origins, categories, operations, phases, codes) are modelled by their numeric tags, and the texts of a binding by their bytes.
- CausalJournal.ConsistentExactly: over journals of at most eight secondary events, the bound the list type carries in the code.
- Attempt and error records keep the fields the history, the aggregates and the two validators read; the policy, boundary and runtime evidence checks of a record are collapsed into one flag each (`evidence`, `provenance`).
- Settings validation: configured and dormant conditions, the duplicate-condition scan of restart settings and the default policies are represented by `Valid()`.
- The read-only effective interval between backoff events, and the display of multipliers.
- The 64-bit wrap of the first retained number when a history claims 2^64 - 1 attempts with nothing recent kept.
- Machine-word overflow of PE file offsets: offsets are unbounded here, so an offset past the address space is a truncated read.
- PE exports and the mapped-image layout: a third walk of the same shape that would add no new kind of claim. Without the exports the modelled contract parse accepts more files than the code's, so the agreement proved covers every file the code's accepts.
- ParsersAgree: one direction only, because the name parse deliberately reads less; `FallbackRefused` gives a file it accepts and the contract parse does not.
- ReportChecks.SuccessExactly: the nonexistent signal number -128 would also give status 0, and is named as an exception because signals are any integers here.
- TranscriptUnique: requires the field bounds the types carry (texts of at most 256 and 64 bytes, 32-byte digests, at most eight events), as the code does.
- The process-observation wire-byte budget and the qualification witness; the four omission counters are modelled as calls without a method of their own.
- Budget tokens that are not valid Unicode: refused with the same error as non-ASCII ones before any parsing.
- Durable-record, receipt, rejection and evidence validators, mutant and fault matrices: conjunctions of flags that would only add easy members.
- Agreement of the command-line exit code with the core outcome status, and the run-state, certification and attempt-state transition tables.
- Native launcher, guardian, platform backends, file writing, help text and the build script.
