/** The vocabulary of causal failure observations. Closed vocabularies are their numeric tags. */
module CausalEvents {
  import opened Common

  type Origin = t: int | 0 <= t < 6
  type Category = t: int | 0 <= t < 8
  type Operation = t: int | 0 <= t < 34
  type FailureCode = t: int | 0 <= t < 15
  type MessageId = t: int | 0 <= t < 5
  type ObservedPhase = t: int | 0 <= t < 8
  type UnavailableReason = t: int | 0 <= t < 7
  type I32 = v: int | -0x8000_0000 <= v < 0x8000_0000

  const NO_EARLIER_ERROR: UnavailableReason := 0

  datatype NativeCode =
    | Win32(code: U32) | NtStatus(status: U32) | HResult(result: U32)
    | Winsock(error: I32) | Errno(number: I32) | LegacyUntyped(value: I32)

  datatype Detail = NoDetail | CountAndLimit(observed: U32, limit: U32) | ProviderMessage(id: MessageId)
  datatype Reference = FirstError | SecondaryError(index: Byte)

  datatype Event = Event(
    sequence: U64, origin: Origin, category: Category, operation: Operation, code: FailureCode,
    native: Option<NativeCode>, phase: ObservedPhase, detail: Detail, redacted: bool, truncated: bool,
    reference: Option<Reference>)

  datatype Original = Observed(event: Event) | Unavailable(reason: UnavailableReason)

  datatype Loss = Loss(omitted: U32, saturated: bool, persistenceFailure: bool, writerUnavailable: bool)
}

/**
 The causal diagnostic journal: an immutable first observation, at most eight
 later ones, and a count of what did not fit.
 */
module CausalJournal {
  import opened Common
  import opened CausalEvents

  const SCHEMA: nat := 1
  const CAPACITY: nat := 8
  const MAX_SECONDARY_ERRORS: nat := 4

  datatype Journal = Journal(
    schema: U32, original: Original, secondary: seq<Event>, sequence: U64, durable: Option<U64>, loss: Loss)

  function Empty(reason: UnavailableReason): (j: Journal) {
    Journal(SCHEMA, Unavailable(reason), [], 0, None, Loss(0, false, false, false))
  }

  predicate ReferenceInRange(e: Event) {
    e.reference.Some? && e.reference.value.SecondaryError? ==> e.reference.value.index < MAX_SECONDARY_ERRORS
  }

  /** Appends to the secondary list, or counts the event as lost once the list is full. */
  function Push(j: Journal, e: Event): (next: Journal) {
    if |j.secondary| != CAPACITY then j.(secondary := j.secondary + [e])
    else if j.loss.omitted == U32_MAX then j.(loss := j.loss.(saturated := true))
    else j.(loss := j.loss.(omitted := j.loss.omitted + 1))
  }

  datatype Observation = First(event: Event) | Secondary(event: Event)

  /** One observation; `None` when the sequence is exhausted and nothing changes. */
  function Observe(j: Journal, o: Observation): (r: Option<Journal>) {
    if j.sequence == U64_MAX then None
    else
      var e := o.event.(sequence := j.sequence + 1);
      var stamped := j.(sequence := j.sequence + 1);
      if o.First? && j.original == Unavailable(NO_EARLIER_ERROR) then Some(stamped.(original := Observed(e)))
      else Some(Push(stamped, e))
  }

  function Chain(j: Journal): (events: seq<Event>) {
    (if j.original.Observed? then [j.original.event] else []) + j.secondary
  }

  /** Numbered 1, 2, 3, ... up to at most `last`, with references in range. */
  predicate InOrder(events: seq<Event>, last: nat) {
    forall i :: 0 <= i < |events| ==> events[i].sequence == i + 1 <= last && ReferenceInRange(events[i])
  }

  /** With `kept` events retained, the loss counters account for all the others. */
  predicate Accounted(loss: Loss, sequence: nat, kept: nat) {
    if loss.saturated then loss.omitted == U32_MAX && sequence > kept + U32_MAX
    else sequence == kept + loss.omitted
  }

  predicate IsConsistent(j: Journal) {
    && j.schema == SCHEMA
    && (j.durable.Some? ==> j.durable.value <= j.sequence)
    && InOrder(Chain(j), j.sequence)
    && (j.loss.omitted > 0 ==> |j.secondary| == CAPACITY)
    && Accounted(j.loss, j.sequence, |Chain(j)|)
  }

  class CausalDiagnostics {
    var schema: U32
    var original: Original
    var secondary: seq<Event>
    var sequence: U64
    var durable: Option<U64>
    var loss: Loss

    ghost function View(): Journal
      reads this
    {
      Journal(schema, original, secondary, sequence, durable, loss)
    }

    constructor ()
      ensures View() == Empty(NO_EARLIER_ERROR)
    {
      schema, original, secondary := SCHEMA, Unavailable(NO_EARLIER_ERROR), [];
      sequence, durable, loss := 0, None, Loss(0, false, false, false);
    }

    method ObserveFirst(event: Event) returns (ok: bool)
      modifies this
      ensures var r := Observe(old(View()), First(event));
        ok == r.Some? && View() == if ok then r.value else old(View())
    {
      if sequence == U64_MAX {
        return false;
      }
      sequence := sequence + 1;
      var e := event.(sequence := sequence);
      if original == Unavailable(NO_EARLIER_ERROR) {
        original := Observed(e);
      } else {
        Keep(e);
      }
      return true;
    }

    method ObserveSecondary(event: Event) returns (ok: bool)
      modifies this
      ensures var r := Observe(old(View()), Secondary(event));
        ok == r.Some? && View() == if ok then r.value else old(View())
    {
      if sequence == U64_MAX {
        return false;
      }
      sequence := sequence + 1;
      Keep(event.(sequence := sequence));
      return true;
    }

    method Keep(e: Event)
      modifies this
      ensures View() == Push(old(View()), e)
    {
      if |secondary| != CAPACITY {
        secondary := secondary + [e];
      } else {
        var overflow := loss.omitted == U32_MAX;
        loss := loss.(omitted := if overflow then U32_MAX else loss.omitted + 1, saturated := loss.saturated || overflow);
      }
    }

    method CheckConsistent() returns (r: bool)
      ensures r == IsConsistent(View())
    {
      if schema != SCHEMA || (durable.Some? && durable.value > sequence) {
        return false;
      }
      ghost var j := View();
      var events := (if original.Observed? then [original.event] else []) + secondary;
      assert events == Chain(j);
      var previous: nat := 0;
      for i := 0 to |events|
        invariant previous == i
        invariant forall k :: 0 <= k < i ==> events[k].sequence == k + 1 <= sequence && ReferenceInRange(events[k])
      {
        var event := events[i];
        if event.sequence != previous + 1 || event.sequence > sequence || !ReferenceInRange(event) {
          return false;
        }
        previous := event.sequence;
      }
      if loss.omitted > 0 && |secondary| != CAPACITY {
        return false;
      }
      if loss.saturated {
        return loss.omitted == U32_MAX && sequence > previous + U32_MAX;
      }
      return sequence == previous + loss.omitted;
    }
  }

  // ----- one step ------------------------------------------------------------------------

  predicate Full(j: Journal) {
    |j.secondary| == CAPACITY
  }

  lemma InOrderSnoc(events: seq<Event>, e: Event, last: nat)
    requires InOrder(events, last) && e.sequence == last + 1
    ensures InOrder(events, last + 1)
    ensures InOrder(events + [e], last + 1) <==> |events| == last && ReferenceInRange(e)
  {
    assert (events + [e])[|events|] == e;
  }

  lemma PushKeeps(j: Journal, e: Event)
    requires IsConsistent(j) && j.sequence < U64_MAX && e.sequence == j.sequence + 1
    ensures IsConsistent(Push(j.(sequence := j.sequence + 1), e)) <==> ReferenceInRange(e) || Full(j)
  {
    var next := Push(j.(sequence := j.sequence + 1), e);
    InOrderSnoc(Chain(j), e, j.sequence);
    if Full(j) {
      assert Chain(next) == Chain(j);
    } else {
      assert Chain(next) == Chain(j) + [e];
    }
  }

  /** An observation that would become the original although later ones are already on record. */
  predicate Late(j: Journal, o: Observation) {
    o.First? && j.original == Unavailable(NO_EARLIER_ERROR) && j.sequence != 0
  }

  /** Exactly when an observation keeps the journal consistent. */
  lemma ObserveKeepsExactly(j: Journal, o: Observation)
    requires IsConsistent(j) && j.sequence < U64_MAX
    ensures var placed := o.First? && j.original == Unavailable(NO_EARLIER_ERROR);
      IsConsistent(Observe(j, o).value) <==>
        !Late(j, o) && (ReferenceInRange(o.event) || (Full(j) && !placed))
  {
    var e := o.event.(sequence := j.sequence + 1);
    if o.First? && j.original == Unavailable(NO_EARLIER_ERROR) {
      var next := Observe(j, o).value;
      assert Chain(next)[0] == e;
      if j.sequence == 0 {
        assert Chain(j) == j.secondary == [];
        assert Chain(next) == [e];
      }
    } else {
      PushKeeps(j, e);
    }
  }

  // ----- runs -----------------------------------------------------------------------------

  function After(reason: UnavailableReason, ops: seq<Observation>): (j: Journal) {
    if ops == [] then Empty(reason)
    else
      var j := After(reason, ops[..|ops| - 1]);
      match Observe(j, ops[|ops| - 1])
      case Some(next) => next
      case None => j
  }

  /** The observed events as numbered, up to the end of the sequence. */
  function Stamped(ops: seq<Observation>): (events: seq<Event>)
    ensures |events| == Min(|ops|, U64_MAX)
  {
    seq(Min(|ops|, U64_MAX), i requires 0 <= i < Min(|ops|, U64_MAX) => ops[i].event.(sequence := i + 1))
  }

  /** The journal that holds `original`, as many of `rest` as fit, and counts of the rest. */
  function Filled(original: Original, rest: seq<Event>, observed: U64): (j: Journal) {
    var kept := Min(|rest|, 8);
    var lost := |rest| - kept;
    Journal(1, original, rest[..kept], observed, None, Loss(Min(lost, U32_MAX), lost > U32_MAX, false, false))
  }

  lemma FilledPush(original: Original, rest: seq<Event>, e: Event, observed: U64, next: U64)
    ensures Push(Filled(original, rest, observed).(sequence := next), e) == Filled(original, rest + [e], next)
  {
    var kept := Min(|rest|, CAPACITY);
    if kept == CAPACITY {
      assert (rest + [e])[..kept] == rest[..kept];
    } else {
      assert rest[..kept] == rest && (rest + [e])[..kept + 1] == rest + [e];
    }
  }

  /** The first observation starts the journal, or there is no place for an original at all. */
  predicate Orderly(reason: UnavailableReason, ops: seq<Observation>) {
    reason == 0 ==> ops == [] || ops[0].First? || forall i :: 0 <= i < |ops| ==> ops[i].Secondary?
  }

  predicate OpensWithOriginal(reason: UnavailableReason, ops: seq<Observation>) {
    reason == 0 && ops != [] && ops[0].First?
  }

  /** What a whole orderly run leaves: the first event apart, the next eight, and exact counts of the others. */
  function Expected(reason: UnavailableReason, ops: seq<Observation>): (j: Journal) {
    var events := Stamped(ops);
    if OpensWithOriginal(reason, ops) then Filled(Observed(events[0]), events[1..], |events|)
    else Filled(Unavailable(reason), events, |events|)
  }

  lemma StampedSnoc(ops: seq<Observation>)
    requires ops != []
    ensures var front, n := Stamped(ops[..|ops| - 1]), |ops|;
      Stamped(ops) == if n <= U64_MAX then front + [ops[n - 1].event.(sequence := n)] else front
  {
  }

  lemma {:induction false} RunIsExpected(reason: UnavailableReason, ops: seq<Observation>)
    requires Orderly(reason, ops)
    ensures After(reason, ops) == Expected(reason, ops)
  {
    if ops == [] {
      assert Stamped(ops) == [];
    } else {
      var front := ops[..|ops| - 1];
      RunIsExpected(reason, front);
      StampedSnoc(ops);
      ExpectedStep(reason, ops);
    }
  }

  lemma ExpectedStep(reason: UnavailableReason, ops: seq<Observation>)
    requires Orderly(reason, ops) && ops != []
    requires var front, n := Stamped(ops[..|ops| - 1]), |ops|;
      Stamped(ops) == if n <= U64_MAX then front + [ops[n - 1].event.(sequence := n)] else front
    ensures var j := Expected(reason, ops[..|ops| - 1]);
      Expected(reason, ops) == match Observe(j, ops[|ops| - 1]) case Some(next) => next case None => j
  {
    var front, n := ops[..|ops| - 1], |ops|;
    var events := Stamped(front);
    if n <= U64_MAX {
      var e := ops[n - 1].event.(sequence := n);
      if front == [] {
        assert events == [] && Stamped(ops) == [e];
        assert [e][1..] == [] && [e][..1] == [e];
      } else if OpensWithOriginal(reason, ops) {
        assert Stamped(ops)[1..] == events[1..] + [e];
        FilledPush(Observed(events[0]), events[1..], e, n - 1, n);
      } else {
        FilledPush(Unavailable(reason), events, e, n - 1, n);
      }
    }
  }

  /** Once observed, the original never changes. */
  lemma {:induction false} OriginalPersists(reason: UnavailableReason, ops: seq<Observation>, more: seq<Observation>)
    requires After(reason, ops).original.Observed?
    ensures After(reason, ops + more).original == After(reason, ops).original
    decreases |more|
  {
    if more == [] {
      assert ops + more == ops;
    } else {
      var all := ops + more;
      assert all[..|all| - 1] == ops + more[..|more| - 1];
      OriginalPersists(reason, ops, more[..|more| - 1]);
    }
  }

  /** The reference, if it names a secondary error, names one of the four there can be. */
  predicate PointsInRange(e: Event) {
    match e.reference
    case Some(SecondaryError(index)) => index < 4
    case _ => true
  }

  /** The references of the first `n` events are in range. */
  predicate ReferencesHold(events: seq<Event>, n: nat)
    requires n <= |events|
  {
    forall i :: 0 <= i < n ==> PointsInRange(events[i])
  }

  lemma FilledConsistent(original: Original, rest: seq<Event>, all: seq<Event>, n: nat)
    requires |all| <= U64_MAX && all == (if original.Observed? then [original.event] else []) + rest
    requires forall i :: 0 <= i < |all| ==> all[i].sequence == i + 1
    requires n == |Chain(Filled(original, rest, |all|))| <= |all|
    ensures IsConsistent(Filled(original, rest, |all|)) <==> ReferencesHold(all, n)
  {
    var chain := Chain(Filled(original, rest, |all|));
    assert chain == all[..n];
    assert forall i :: 0 <= i < n ==> chain[i] == all[i];
  }

  /** How many of the observed events an orderly run retains. */
  function Retained(reason: UnavailableReason, ops: seq<Observation>): (n: nat)
    ensures n <= |ops|
  {
    Min(|ops|, if OpensWithOriginal(reason, ops) then 9 else 8)
  }

  lemma ExpectedConsistent(reason: UnavailableReason, ops: seq<Observation>)
    requires |ops| <= U64_MAX
    ensures IsConsistent(Expected(reason, ops)) <==> ReferencesHold(Stamped(ops), Retained(reason, ops))
  {
    var events, n := Stamped(ops), Retained(reason, ops);
    if OpensWithOriginal(reason, ops) {
      FilledConsistent(Observed(events[0]), events[1..], events, n);
    } else {
      FilledConsistent(Unavailable(reason), events, events, n);
    }
  }

  lemma FirstObservedAt(ops: seq<Observation>, k: nat)
    requires 0 < k < |ops| && k < U64_MAX
    requires ops[k].First? && forall i :: 0 <= i < k ==> ops[i].Secondary?
    ensures After(NO_EARLIER_ERROR, ops[..k + 1]).original == Observed(ops[k].event.(sequence := k + 1))
  {
    var front := ops[..k];
    RunIsExpected(NO_EARLIER_ERROR, front);
    assert ops[..k + 1][..k] == front;
  }

  lemma {:induction false} SequenceCounts(reason: UnavailableReason, ops: seq<Observation>)
    ensures After(reason, ops).sequence == Min(|ops|, U64_MAX)
  {
    if ops == [] {
    } else {
      SequenceCounts(reason, ops[..|ops| - 1]);
    }
  }

  /** The observations a journal hears before its sequence runs out. */
  function Heard(ops: seq<Observation>): (heard: seq<Observation>) {
    ops[..Min(|ops|, U64_MAX)]
  }

  lemma {:induction false} UnheardIgnored(reason: UnavailableReason, ops: seq<Observation>)
    ensures After(reason, ops) == After(reason, Heard(ops))
  {
    if |ops| <= U64_MAX {
      assert Heard(ops) == ops;
    } else {
      var front := ops[..|ops| - 1];
      SequenceCounts(reason, front);
      UnheardIgnored(reason, front);
      assert Heard(front) == Heard(ops);
    }
  }

  lemma DisorderlyInconsistent(reason: UnavailableReason, ops: seq<Observation>)
    requires !Orderly(reason, ops) && |ops| <= U64_MAX
    ensures !IsConsistent(After(reason, ops))
  {
    var k := FirstIndex(ops);
    FirstObservedAt(ops, k);
    OriginalPersists(reason, ops[..k + 1], ops[k + 1..]);
    assert ops[..k + 1] + ops[k + 1..] == ops;
    assert Chain(After(reason, ops))[0].sequence == k + 1;
  }

  lemma OrderlyConsistent(reason: UnavailableReason, ops: seq<Observation>)
    requires Orderly(reason, ops) && |ops| <= U64_MAX
    ensures IsConsistent(After(reason, ops)) <==> ReferencesHold(Stamped(ops), Retained(reason, ops))
  {
    RunIsExpected(reason, ops);
    ExpectedConsistent(reason, ops);
  }

  /** Over every run: consistent at the end exactly when no original came late and every retained reference is in range. */
  lemma RunConsistentExactly(reason: UnavailableReason, ops: seq<Observation>)
    ensures IsConsistent(After(reason, ops)) <==>
      Orderly(reason, Heard(ops)) && ReferencesHold(Stamped(Heard(ops)), Retained(reason, Heard(ops)))
  {
    UnheardIgnored(reason, ops);
    if Orderly(reason, Heard(ops)) {
      OrderlyConsistent(reason, Heard(ops));
    } else {
      DisorderlyInconsistent(reason, Heard(ops));
    }
  }

  lemma FirstIndex(ops: seq<Observation>) returns (k: nat)
    requires !forall i :: 0 <= i < |ops| ==> ops[i].Secondary?
    ensures k < |ops| && ops[k].First? && forall i :: 0 <= i < k ==> ops[i].Secondary?
  {
    k := 0;
    while ops[k].Secondary?
      invariant k < |ops| && forall i :: 0 <= i < k ==> ops[i].Secondary?
      decreases |ops| - k
    {
      if k + 1 == |ops| {
        assert forall i :: 0 <= i < |ops| ==> ops[i].Secondary?;
      }
      k := k + 1;
    }
  }

  ghost predicate Conserves(j: Journal) {
    Accounted(j.loss, j.sequence, |Chain(j)|) && |j.secondary| <= CAPACITY && (j.loss.omitted > 0 ==> Full(j))
  }

  lemma ObserveConserves(j: Journal, o: Observation)
    requires Conserves(j) && Observe(j, o).Some?
    ensures Conserves(Observe(j, o).value)
  {
  }

  lemma {:induction false} AlwaysConserves(reason: UnavailableReason, ops: seq<Observation>)
    ensures Conserves(After(reason, ops))
  {
    if ops == [] {
    } else {
      var j, o := After(reason, ops[..|ops| - 1]), ops[|ops| - 1];
      AlwaysConserves(reason, ops[..|ops| - 1]);
      if Observe(j, o).Some? {
        ObserveConserves(j, o);
      }
    }
  }

  /** Nothing is lost uncounted, in any run: kept plus lost is everything observed, the counter saturating honestly. */
  lemma EventsConserved(reason: UnavailableReason, ops: seq<Observation>)
    ensures var j := After(reason, ops);
      var lost := Min(|ops|, U64_MAX) - |Chain(j)|;
      && 0 <= lost && j.loss.omitted == Min(lost, U32_MAX) && (j.loss.saturated <==> lost > U32_MAX)
      && (lost > 0 ==> |j.secondary| == 8)
  {
    AlwaysConserves(reason, ops);
    SequenceCounts(reason, ops);
  }

  /** An orderly run keeps the earliest events, in order. */
  lemma KeepsEarliest(reason: UnavailableReason, ops: seq<Observation>)
    requires Orderly(reason, ops)
    ensures Chain(After(reason, ops)) <= Stamped(ops)
  {
    RunIsExpected(reason, ops);
    var events, j := Stamped(ops), Expected(reason, ops);
    if OpensWithOriginal(reason, ops) {
      assert Chain(j) == events[..Min(|events| - 1, CAPACITY) + 1];
    } else {
      assert Chain(j) == events[..Min(|events|, CAPACITY)];
    }
  }

  /** The guard is needed: an original observed second is numbered 2 and stands first. */
  lemma LateOriginalBreaks(e: Event)
    requires ReferenceInRange(e)
    ensures var j := After(NO_EARLIER_ERROR, [Secondary(e)]);
      IsConsistent(j) && Late(j, First(e)) && !IsConsistent(After(NO_EARLIER_ERROR, [Secondary(e), First(e)]))
  {
    var one, two := [Secondary(e)], [Secondary(e), First(e)];
    RunConsistentExactly(NO_EARLIER_ERROR, one);
    RunConsistentExactly(NO_EARLIER_ERROR, two);
    assert one[..0] == [] && one[..1] == one && two[..2] == two;
  }

  // ----- the check, by the runs that pass it -----------------------------------------------------

  const FILLER := Event(0, 0, 0, 0, 0, None, 0, NoDetail, false, false, None)

  function AsSecondary(events: seq<Event>): (ops: seq<Observation>)
    ensures |ops| == |events|
  {
    seq(|events|, i requires 0 <= i < |events| => Secondary(events[i]))
  }

  /** A run that would leave `j`: its events as they stand, then as many more as it has lost. */
  function RunOf(j: Journal): (ops: seq<Observation>)
    requires |Chain(j)| <= j.sequence
  {
    (if j.original.Observed? then [First(j.original.event)] else []) + AsSecondary(j.secondary)
    + seq(j.sequence - |Chain(j)|, _ => Secondary(FILLER))
  }

  function ReasonOf(j: Journal): (reason: UnavailableReason) {
    if j.original.Observed? then 0 else j.original.reason
  }

  /** The journal without the marks made apart from observations: durability and the writer's own failures. */
  function Unmarked(j: Journal): Journal {
    j.(durable := None, loss := Loss(j.loss.omitted, j.loss.saturated, false, false))
  }

  lemma RunOfStamps(j: Journal)
    requires InOrder(Chain(j), j.sequence) && |Chain(j)| <= j.sequence
    ensures |RunOf(j)| == j.sequence && Stamped(RunOf(j))[..|Chain(j)|] == Chain(j)
    ensures Orderly(ReasonOf(j), RunOf(j)) && (OpensWithOriginal(ReasonOf(j), RunOf(j)) <==> j.original.Observed?)
  {
    var ops, chain := RunOf(j), Chain(j);
    forall i | 0 <= i < |chain| ensures Stamped(ops)[i] == chain[i] {
      assert ops[i].event == chain[i];
    }
  }

  lemma ChainInOrder(j: Journal)
    requires IsConsistent(j)
    ensures |Chain(j)| <= j.sequence && InOrder(Chain(j), j.sequence)
  {
    if Chain(j) != [] {
      assert Chain(j)[|Chain(j)| - 1].sequence == |Chain(j)|;
    }
  }

  lemma RunOfExpected(j: Journal)
    requires IsConsistent(j) && |j.secondary| <= 8 && |Chain(j)| <= j.sequence
    requires Stamped(RunOf(j))[..|Chain(j)|] == Chain(j) && |RunOf(j)| == j.sequence
    requires OpensWithOriginal(ReasonOf(j), RunOf(j)) <==> j.original.Observed?
    ensures Expected(ReasonOf(j), RunOf(j)) == Unmarked(j)
  {
    var events, chain := Stamped(RunOf(j)), Chain(j);
    if j.original.Observed? {
      assert events[0] == chain[0] == j.original.event;
      assert events[1..][..|j.secondary|] == events[..|chain|][1..] == j.secondary;
    } else {
      assert events[..|j.secondary|] == j.secondary;
    }
  }

  /** `j` is what observing `ops` leaves, in order and with good references; durable only up to what was observed. */
  ghost predicate LeftBy(j: Journal, reason: UnavailableReason, ops: seq<Observation>) {
    && |ops| <= U64_MAX && Orderly(reason, ops)
    && ReferencesHold(Stamped(ops), Retained(reason, ops))
    && After(reason, ops) == Unmarked(j)
    && (j.durable.Some? ==> j.durable.value <= |ops|)
  }

  lemma UnmarkedConsistent(j: Journal)
    ensures IsConsistent(j) <==> IsConsistent(Unmarked(j)) && (j.durable.Some? ==> j.durable.value <= j.sequence)
  {
    assert Chain(Unmarked(j)) == Chain(j);
  }

  lemma ConsistentIsLeft(j: Journal)
    requires IsConsistent(j) && |j.secondary| <= 8
    ensures LeftBy(j, ReasonOf(j), RunOf(j))
  {
    ChainInOrder(j);
    RunOfStamps(j);
    RunOfExpected(j);
    RunIsExpected(ReasonOf(j), RunOf(j));
    UnmarkedConsistent(j);
    ExpectedConsistent(ReasonOf(j), RunOf(j));
  }

  lemma LeftIsConsistent(j: Journal, reason: UnavailableReason, ops: seq<Observation>)
    requires LeftBy(j, reason, ops)
    ensures IsConsistent(j)
  {
    OrderlyConsistent(reason, ops);
    SequenceCounts(reason, ops);
    UnmarkedConsistent(j);
  }

  /** Over every journal: the check passes exactly those that some orderly run of observations leaves. */
  lemma ConsistentExactly(j: Journal)
    requires |j.secondary| <= 8
    ensures IsConsistent(j) <==> exists reason, ops :: LeftBy(j, reason, ops)
  {
    if IsConsistent(j) {
      ConsistentIsLeft(j);
    }
    if reason, ops :| LeftBy(j, reason, ops) {
      LeftIsConsistent(j, reason, ops);
    }
  }
}
