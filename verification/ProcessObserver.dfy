/**
 The bounded, explicitly partial observation of a Windows job: saturating
 counters, a first-in first-out sample of process identities, and a sticky flag
 for a total that ever went down.
 */
module ProcessObserver {
  import opened Common

  /** 24 KiB of sample storage in 24-byte entries. */
  const SLOTS: nat := 24 * 1024 / 24

  datatype Identity = Identity(processId: U32, creationTime: U64) {
    predicate IsValid() {
      processId != 0 && creationTime != 0
    }
  }

  datatype Entry = Entry(identity: Identity, lastSeen: U64)

  datatype Counters = Counters(
    polls: U64, snapshots: U64, queries: U64, verified: U64, vanished: U64, evictions: U64, saturated: bool)

  datatype Omissions = Omissions(byteBudget: U64, raceOrRetry: U64, perTick: U64, allocation: U64, eviction: U64)

  datatype Accounting = Accounting(total: U32, active: U32, afterRetirement: bool, regression: bool)

  datatype State = State(
    counters: Counters, omissions: Omissions, sample: seq<Entry>, storage: bool, sequence: U64,
    accounting: Option<Accounting>, lastTotal: Option<U32>)

  datatype Call =
    | AttemptPoll | SnapshotObtained | IdentityQuery | VanishedOrNotMember
    | ObserveIdentity(identity: Identity)
    | OmitByteBudget | OmitRaceOrRetry | OmitPerTick | OmitAllocation
    | ObserveAccounting(total: U32, active: U32, afterRetirement: bool)

  function Start(storage: bool): (s: State) {
    State(Counters(0, 0, 0, 0, 0, 0, false), Omissions(0, 0, 0, if storage then 0 else 1, 0), [], storage, 0, None, None)
  }

  /** A checked increment that stays put at the top. */
  function Up(n: U64): U64 {
    if n < U64_MAX then n + 1 else n
  }

  function Flag(c: Counters, n: U64): Counters {
    c.(saturated := c.saturated || n == U64_MAX)
  }

  function IndexOf(sample: seq<Entry>, identity: Identity): (i: nat)
    ensures i <= |sample|
    ensures i < |sample| ==> sample[i].identity == identity
    ensures forall k :: 0 <= k < i ==> sample[k].identity != identity
  {
    if sample == [] || sample[0].identity == identity then 0
    else 1 + IndexOf(sample[1..], identity)
  }

  function Sampled(s: State, identity: Identity): (next: State) {
    var c1 := Flag(s.counters, s.counters.verified).(verified := Up(s.counters.verified));
    var c2 := Flag(c1, s.sequence);
    var counted := s.(counters := c2, sequence := Up(s.sequence));
    if !s.storage then counted
    else
      var i := IndexOf(s.sample, identity);
      if i < |s.sample| then counted.(sample := s.sample[i := Entry(identity, counted.sequence)])
      else if |s.sample| == SLOTS then
        var c3 := Flag(Flag(c2, c2.evictions), s.omissions.eviction).(evictions := Up(c2.evictions));
        counted.(sample := s.sample[1..] + [Entry(identity, counted.sequence)], counters := c3,
                 omissions := s.omissions.(eviction := Up(s.omissions.eviction)))
      else counted.(sample := s.sample + [Entry(identity, counted.sequence)])
  }

  function Step(s: State, call: Call): (next: State) {
    var c, o := s.counters, s.omissions;
    match call
    case AttemptPoll => s.(counters := Flag(c, c.polls).(polls := Up(c.polls)))
    case SnapshotObtained => s.(counters := Flag(c, c.snapshots).(snapshots := Up(c.snapshots)))
    case IdentityQuery => s.(counters := Flag(c, c.queries).(queries := Up(c.queries)))
    case VanishedOrNotMember => s.(counters := Flag(c, c.vanished).(vanished := Up(c.vanished)))
    case ObserveIdentity(identity) => if identity.IsValid() then Sampled(s, identity) else s
    case OmitByteBudget => s.(counters := Flag(c, o.byteBudget), omissions := o.(byteBudget := Up(o.byteBudget)))
    case OmitRaceOrRetry => s.(counters := Flag(c, o.raceOrRetry), omissions := o.(raceOrRetry := Up(o.raceOrRetry)))
    case OmitPerTick => s.(counters := Flag(c, o.perTick), omissions := o.(perTick := Up(o.perTick)))
    case OmitAllocation => s.(counters := Flag(c, o.allocation), omissions := o.(allocation := Up(o.allocation)))
    case ObserveAccounting(total, active, after) =>
      var regression := (s.lastTotal.Some? && total < s.lastTotal.value) || (s.accounting.Some? && s.accounting.value.regression);
      s.(lastTotal := Some(total), accounting := Some(Accounting(total, active, after, regression)))
  }

  /** The counter incremented, or left at the top with the flag raised. */
  method Increment(counter: U64, saturated: bool) returns (next: U64, flag: bool)
    ensures next == Min(counter + 1, U64_MAX)
    ensures flag <==> saturated || counter + 1 > U64_MAX
  {
    if counter < U64_MAX {
      next, flag := counter + 1, saturated;
    } else {
      next, flag := counter, true;
    }
  }

  class Observer {
    var counters: Counters
    var omissions: Omissions
    var sample: seq<Entry>
    var storage: bool
    var sequence: U64
    var accounting: Option<Accounting>
    var lastTotal: Option<U32>

    ghost function View(): State
      reads this
    {
      State(counters, omissions, sample, storage, sequence, accounting, lastTotal)
    }

    constructor (storage: bool)
      ensures View() == Start(storage)
    {
      counters := Counters(0, 0, 0, 0, 0, 0, false);
      omissions := Omissions(0, 0, 0, if storage then 0 else 1, 0);
      sample, this.storage, sequence, accounting, lastTotal := [], storage, 0, None, None;
    }

    method CountPoll()
      modifies this
      ensures View() == Step(old(View()), AttemptPoll)
    {
      var next, flag := Increment(counters.polls, counters.saturated);
      counters := counters.(polls := next, saturated := flag);
    }

    method CountSnapshot()
      modifies this
      ensures View() == Step(old(View()), SnapshotObtained)
    {
      var next, flag := Increment(counters.snapshots, counters.saturated);
      counters := counters.(snapshots := next, saturated := flag);
    }

    method CountQuery()
      modifies this
      ensures View() == Step(old(View()), IdentityQuery)
    {
      var next, flag := Increment(counters.queries, counters.saturated);
      counters := counters.(queries := next, saturated := flag);
    }

    method CountVanished()
      modifies this
      ensures View() == Step(old(View()), VanishedOrNotMember)
    {
      var next, flag := Increment(counters.vanished, counters.saturated);
      counters := counters.(vanished := next, saturated := flag);
    }

    method Observe(identity: Identity) returns (ok: bool)
      modifies this
      ensures ok == identity.IsValid() && View() == Step(old(View()), ObserveIdentity(identity))
    {
      if !identity.IsValid() {
        return false;
      }
      var verified, flag := Increment(counters.verified, counters.saturated);
      sequence, flag := Increment(sequence, flag);
      counters := counters.(verified := verified, saturated := flag);
      ok := true;
      if !storage {
        return;
      }
      var i := Find(identity);
      if i < |sample| {
        sample := sample[i := sample[i].(lastSeen := sequence)];
        return;
      }
      if |sample| == SLOTS {
        CountEviction();
        sample := sample[1..];
      }
      sample := sample + [Entry(identity, sequence)];
    }

    method CountEviction()
      modifies this
      ensures View() == old(View()).(
        counters := Flag(Flag(old(counters), old(counters.evictions)), old(omissions.eviction)).(
          evictions := Up(old(counters.evictions))),
        omissions := old(omissions).(eviction := Up(old(omissions.eviction))))
    {
      var evictions, flag := Increment(counters.evictions, counters.saturated);
      var omitted;
      omitted, flag := Increment(omissions.eviction, flag);
      counters, omissions := counters.(evictions := evictions, saturated := flag), omissions.(eviction := omitted);
    }

    method Find(identity: Identity) returns (i: nat)
      ensures i == IndexOf(sample, identity)
    {
      i := 0;
      assert sample[0..] == sample;
      while i < |sample| && sample[i].identity != identity
        invariant i <= |sample|
        invariant i + IndexOf(sample[i..], identity) == IndexOf(sample, identity)
      {
        assert sample[i..][1..] == sample[i + 1..];
        i := i + 1;
      }
    }

    method Account(total: U32, active: U32, afterRetirement: bool)
      modifies this
      ensures View() == Step(old(View()), ObserveAccounting(total, active, afterRetirement))
    {
      var regression := (lastTotal.Some? && total < lastTotal.value) || (accounting.Some? && accounting.value.regression);
      lastTotal := Some(total);
      accounting := Some(Accounting(total, active, afterRetirement, regression));
    }
  }

  // ----- what a run of calls amounts to ------------------------------------------------------

  function After(storage: bool, calls: seq<Call>): (s: State) {
    if calls == [] then Start(storage) else Step(After(storage, calls[..|calls| - 1]), calls[|calls| - 1])
  }

  /** Calls equal to `call`. */
  function Count(calls: seq<Call>, call: Call): (n: nat) {
    if calls == [] then 0 else Count(calls[..|calls| - 1], call) + if calls[|calls| - 1] == call then 1 else 0
  }

  /** The verified identities, in order. */
  function Verified(calls: seq<Call>): (ids: seq<Identity>) {
    if calls == [] then []
    else
      var front, last := Verified(calls[..|calls| - 1]), calls[|calls| - 1];
      if last.ObserveIdentity? && last.identity.processId > 0 && last.identity.creationTime > 0
      then front + [last.identity] else front
  }

  function Window(admitted: seq<Identity>): (w: seq<Identity>) {
    admitted[Max(0, |admitted| - 1024)..]
  }

  /** Identities in the order they entered the sample: one already in the window is not admitted again. */
  function Admissions(ids: seq<Identity>): (admitted: seq<Identity>) {
    if ids == [] then []
    else
      var front, last := Admissions(ids[..|ids| - 1]), ids[|ids| - 1];
      if last in Window(front) then front else front + [last]
  }

  /** One past the last position of `id`, or zero. */
  function LastSeen(ids: seq<Identity>, id: Identity): (n: nat) {
    if ids == [] then 0 else if ids[|ids| - 1] == id then |ids| else LastSeen(ids[..|ids| - 1], id)
  }

  lemma {:induction false} LastSeenMeaning(ids: seq<Identity>, id: Identity)
    ensures LastSeen(ids, id) <= |ids|
    ensures LastSeen(ids, id) > 0 ==> ids[LastSeen(ids, id) - 1] == id
    ensures forall k :: LastSeen(ids, id) <= k < |ids| ==> ids[k] != id
  {
    if ids != [] && ids[|ids| - 1] != id {
      LastSeenMeaning(ids[..|ids| - 1], id);
    }
  }

  // ----- the sample ------------------------------------------------------------------------------

  ghost predicate Distinct(ids: seq<Identity>) {
    forall i, j :: 0 <= i < j < |ids| ==> ids[i] != ids[j]
  }

  /** The sample lists `window` in order, each identity with the sequence at which it was last seen. */
  ghost predicate Lists(sample: seq<Entry>, window: seq<Identity>, ids: seq<Identity>) {
    && |sample| == |window|
    && forall i :: 0 <= i < |sample| ==>
         sample[i] == Entry(window[i], Min(LastSeen(ids, window[i]), U64_MAX)) && LastSeen(ids, window[i]) > 0
  }

  lemma WindowSnoc(admitted: seq<Identity>, id: Identity)
    ensures Window(admitted + [id])
         == (if |Window(admitted)| == SLOTS then Window(admitted)[1..] else Window(admitted)) + [id]
  {
  }

  lemma LastSeenSnoc(ids: seq<Identity>, id: Identity, other: Identity)
    ensures LastSeen(ids + [id], other) == if id == other then |ids| + 1 else LastSeen(ids, other)
  {
    assert (ids + [id])[..|ids|] == ids;
  }

  /** The sample after one more verified identity. */
  function Resampled(sample: seq<Entry>, id: Identity, sequence: U64): (next: seq<Entry>) {
    var i := IndexOf(sample, id);
    if i < |sample| then sample[i := Entry(id, sequence)]
    else (if |sample| == SLOTS then sample[1..] else sample) + [Entry(id, sequence)]
  }

  lemma Refreshed(sample: seq<Entry>, window: seq<Identity>, ids: seq<Identity>, i: nat)
    requires Lists(sample, window, ids) && Distinct(window) && i < |window|
    ensures Lists(sample[i := Entry(window[i], Min(|ids| + 1, U64_MAX))], window, ids + [window[i]])
  {
    forall k | 0 <= k < |window|
      ensures LastSeen(ids + [window[i]], window[k]) == if k == i then |ids| + 1 else LastSeen(ids, window[k])
    {
      LastSeenSnoc(ids, window[i], window[k]);
    }
  }

  lemma Admitted(sample: seq<Entry>, window: seq<Identity>, ids: seq<Identity>, id: Identity)
    requires Lists(sample, window, ids) && id !in window
    ensures Lists(sample + [Entry(id, Min(|ids| + 1, U64_MAX))], window + [id], ids + [id])
  {
    forall k | 0 <= k < |window| ensures LastSeen(ids + [id], window[k]) == LastSeen(ids, window[k]) {
      LastSeenSnoc(ids, id, window[k]);
      assert window[k] in window;
    }
    LastSeenSnoc(ids, id, id);
  }

  lemma AdmissionsSnoc(ids: seq<Identity>, id: Identity)
    ensures Admissions(ids + [id])
         == if id in Window(Admissions(ids)) then Admissions(ids) else Admissions(ids) + [id]
  {
    assert (ids + [id])[..|ids|] == ids;
  }

  lemma FoundInWindow(sample: seq<Entry>, window: seq<Identity>, ids: seq<Identity>, id: Identity)
    requires Lists(sample, window, ids)
    ensures var i := IndexOf(sample, id);
      if i < |sample| then window[i] == id else id !in window
  {
    assert forall k :: 0 <= k < |sample| ==> window[k] == sample[k].identity;
  }

  lemma Replaced(sample: seq<Entry>, window: seq<Identity>, ids: seq<Identity>, id: Identity)
    requires Lists(sample, window, ids) && IndexOf(sample, id) == |sample|
    ensures Lists(Resampled(sample, id, Min(|ids| + 1, U64_MAX)),
                  (if |window| == SLOTS then window[1..] else window) + [id], ids + [id])
  {
    FoundInWindow(sample, window, ids, id);
    if |sample| == SLOTS {
      Admitted(sample[1..], window[1..], ids, id);
    } else {
      Admitted(sample, window, ids, id);
    }
  }

  lemma SampleStep(sample: seq<Entry>, ids: seq<Identity>, id: Identity)
    requires Lists(sample, Window(Admissions(ids)), ids) && Distinct(Window(Admissions(ids)))
    ensures Lists(Resampled(sample, id, Min(|ids| + 1, U64_MAX)), Window(Admissions(ids + [id])), ids + [id])
    ensures |Admissions(ids + [id])| - |Admissions(ids)| == (if IndexOf(sample, id) < |sample| then 0 else 1)
  {
    var window, i := Window(Admissions(ids)), IndexOf(sample, id);
    AdmissionsSnoc(ids, id);
    FoundInWindow(sample, window, ids, id);
    if i < |sample| {
      Refreshed(sample, window, ids, i);
    } else {
      WindowSnoc(Admissions(ids), id);
      Replaced(sample, window, ids, id);
    }
  }

  // ----- counters -----------------------------------------------------------------------------------

  /** The true, unbounded counts a run adds up to. */
  datatype Totals = Totals(
    polls: nat, snapshots: nat, queries: nat, verified: nat, vanished: nat, evictions: nat,
    byteBudget: nat, raceOrRetry: nat, perTick: nat, allocation: nat)

  /** Admitted identities that have left the window. */
  function Evictions(ids: seq<Identity>): (n: nat) {
    Max(0, |Admissions(ids)| - 1024)
  }

  function TotalsOf(storage: bool, calls: seq<Call>): (t: Totals) {
    Totals(Count(calls, AttemptPoll), Count(calls, SnapshotObtained), Count(calls, IdentityQuery), |Verified(calls)|,
           Count(calls, VanishedOrNotMember), if storage then Evictions(Verified(calls)) else 0,
           Count(calls, OmitByteBudget), Count(calls, OmitRaceOrRetry), Count(calls, OmitPerTick),
           Count(calls, OmitAllocation) + if storage then 0 else 1)
  }

  predicate Overflows(t: Totals) {
    || t.polls > U64_MAX || t.snapshots > U64_MAX || t.queries > U64_MAX || t.verified > U64_MAX || t.vanished > U64_MAX
    || t.evictions > U64_MAX || t.byteBudget > U64_MAX || t.raceOrRetry > U64_MAX || t.perTick > U64_MAX
    || t.allocation > U64_MAX
  }

  function Clamp(n: nat): U64 {
    Min(n, U64_MAX)
  }

  /** Every counter shows its true count, capped; the flag says whether any cap was passed. */
  ghost predicate Shows(s: State, t: Totals) {
    && s.counters == Counters(Clamp(t.polls), Clamp(t.snapshots), Clamp(t.queries), Clamp(t.verified), Clamp(t.vanished),
                              Clamp(t.evictions), Overflows(t))
    && s.omissions == Omissions(Clamp(t.byteBudget), Clamp(t.raceOrRetry), Clamp(t.perTick), Clamp(t.allocation),
                                Clamp(t.evictions))
    && s.sequence == Clamp(t.verified)
  }

  /** The whole state after a run, in terms of the calls made. */
  ghost predicate Describes(storage: bool, calls: seq<Call>, s: State) {
    s.storage == storage && Shows(s, TotalsOf(storage, calls)) && Tracks(s, Verified(calls))
  }

  ghost predicate Tracks(s: State, ids: seq<Identity>) {
    && Distinct(Window(Admissions(ids)))
    && if s.storage then Lists(s.sample, Window(Admissions(ids)), ids) else s.sample == []
  }

  function Bumped(t: Totals, call: Call): Totals {
    match call
    case AttemptPoll => t.(polls := t.polls + 1)
    case SnapshotObtained => t.(snapshots := t.snapshots + 1)
    case IdentityQuery => t.(queries := t.queries + 1)
    case VanishedOrNotMember => t.(vanished := t.vanished + 1)
    case OmitByteBudget => t.(byteBudget := t.byteBudget + 1)
    case OmitRaceOrRetry => t.(raceOrRetry := t.raceOrRetry + 1)
    case OmitPerTick => t.(perTick := t.perTick + 1)
    case OmitAllocation => t.(allocation := t.allocation + 1)
    case _ => t
  }

  lemma TotalsStep(storage: bool, calls: seq<Call>)
    requires calls != [] && !calls[|calls| - 1].ObserveIdentity?
    ensures TotalsOf(storage, calls) == Bumped(TotalsOf(storage, calls[..|calls| - 1]), calls[|calls| - 1])
  {
  }

  lemma ShowsStep(s: State, t: Totals, call: Call)
    requires Shows(s, t) && !call.ObserveIdentity?
    ensures Shows(Step(s, call), Bumped(t, call))
  {
  }

  lemma ShowsSampled(s: State, t: Totals, id: Identity)
    requires Shows(s, t)
    ensures var evicts := s.storage && IndexOf(s.sample, id) == |s.sample| == SLOTS;
      Shows(Sampled(s, id), t.(verified := t.verified + 1, evictions := t.evictions + if evicts then 1 else 0))
  {
  }

  ghost predicate EndsVerified(calls: seq<Call>) {
    calls != [] && calls[|calls| - 1].ObserveIdentity? && calls[|calls| - 1].identity.IsValid()
  }

  lemma SampledShows(storage: bool, calls: seq<Call>, s: State)
    requires EndsVerified(calls) && Describes(storage, calls[..|calls| - 1], s)
    ensures Shows(Step(s, calls[|calls| - 1]), TotalsOf(storage, calls))
  {
    ShowsSampled(s, TotalsOf(storage, calls[..|calls| - 1]), calls[|calls| - 1].identity);
    TotalsSampled(storage, calls, s);
  }

  lemma SampledTracks(s: State, ids: seq<Identity>, id: Identity)
    requires s.sequence == Clamp(|ids|) && Tracks(s, ids)
    ensures Tracks(Sampled(s, id), ids + [id])
  {
    WindowDistinct(ids + [id]);
    if s.storage {
      SampledSample(s, id);
      SampleStep(s.sample, ids, id);
    }
  }

  lemma VerifiedSnoc(calls: seq<Call>)
    requires EndsVerified(calls)
    ensures Verified(calls) == Verified(calls[..|calls| - 1]) + [calls[|calls| - 1].identity]
  {
  }

  lemma StepSamples(s: State, call: Call)
    requires call.ObserveIdentity? && call.identity.IsValid()
    ensures Step(s, call) == Sampled(s, call.identity) && Sampled(s, call.identity).storage == s.storage
  {
  }

  lemma SampledVerified(calls: seq<Call>, s: State)
    requires EndsVerified(calls)
    requires s.sequence == Clamp(|Verified(calls[..|calls| - 1])|) && Tracks(s, Verified(calls[..|calls| - 1]))
    ensures Tracks(Sampled(s, calls[|calls| - 1].identity), Verified(calls))
  {
    VerifiedSnoc(calls);
    SampledTracks(s, Verified(calls[..|calls| - 1]), calls[|calls| - 1].identity);
  }

  lemma SampledStep(storage: bool, calls: seq<Call>, s: State)
    requires EndsVerified(calls) && Describes(storage, calls[..|calls| - 1], s)
    ensures Describes(storage, calls, Step(s, calls[|calls| - 1]))
  {
    StepSamples(s, calls[|calls| - 1]);
    SampledShows(storage, calls, s);
    SampledVerified(calls, s);
  }

  lemma SampledSample(s: State, id: Identity)
    requires s.storage
    ensures Sampled(s, id).sample == Resampled(s.sample, id, Up(s.sequence))
  {
  }

  lemma TotalsSampled(storage: bool, calls: seq<Call>, s: State)
    requires EndsVerified(calls) && s.storage == storage
    requires storage ==> Lists(s.sample, Window(Admissions(Verified(calls[..|calls| - 1]))), Verified(calls[..|calls| - 1]))
    ensures var front, id := calls[..|calls| - 1], calls[|calls| - 1].identity;
      var t := TotalsOf(storage, front);
      var evicts := s.storage && IndexOf(s.sample, id) == |s.sample| == SLOTS;
      TotalsOf(storage, calls) == t.(verified := t.verified + 1, evictions := t.evictions + if evicts then 1 else 0)
  {
    var ids, id := Verified(calls[..|calls| - 1]), calls[|calls| - 1].identity;
    assert Verified(calls) == ids + [id];
    if storage {
      EvictionsSnoc(s.sample, ids, id);
    }
  }

  lemma EvictionsSnoc(sample: seq<Entry>, ids: seq<Identity>, id: Identity)
    requires Lists(sample, Window(Admissions(ids)), ids)
    ensures Evictions(ids + [id]) == Evictions(ids) + if IndexOf(sample, id) == |sample| == SLOTS then 1 else 0
  {
    var window := Window(Admissions(ids));
    AdmissionsSnoc(ids, id);
    assert forall k :: 0 <= k < |sample| ==> window[k] == sample[k].identity;
  }

  lemma {:induction false} WindowDistinct(ids: seq<Identity>)
    ensures Distinct(Window(Admissions(ids)))
  {
    if ids == [] {
    } else {
      var front, last := ids[..|ids| - 1], ids[|ids| - 1];
      WindowDistinct(front);
      if last !in Window(Admissions(front)) {
        WindowSnoc(Admissions(front), last);
      }
    }
  }

  lemma CountedStep(storage: bool, calls: seq<Call>, s: State)
    requires calls != [] && !calls[|calls| - 1].ObserveIdentity? && Describes(storage, calls[..|calls| - 1], s)
    ensures Describes(storage, calls, Step(s, calls[|calls| - 1]))
  {
    TotalsStep(storage, calls);
    ShowsStep(s, TotalsOf(storage, calls[..|calls| - 1]), calls[|calls| - 1]);
  }

  lemma IgnoredStep(storage: bool, calls: seq<Call>, s: State)
    requires calls != [] && calls[|calls| - 1].ObserveIdentity? && !calls[|calls| - 1].identity.IsValid()
    requires Describes(storage, calls[..|calls| - 1], s)
    ensures Describes(storage, calls, Step(s, calls[|calls| - 1]))
  {
    assert TotalsOf(storage, calls) == TotalsOf(storage, calls[..|calls| - 1]);
  }

  /** Over every run: exact counts up to saturation, and exactly the last admitted identities. */
  lemma {:induction false} RunDescribed(storage: bool, calls: seq<Call>)
    ensures Describes(storage, calls, After(storage, calls))
  {
    if calls == [] {
    } else {
      var front, last := calls[..|calls| - 1], calls[|calls| - 1];
      RunDescribed(storage, front);
      if !last.ObserveIdentity? {
        CountedStep(storage, calls, After(storage, front));
      } else if last.identity.IsValid() {
        SampledStep(storage, calls, After(storage, front));
      } else {
        IgnoredStep(storage, calls, After(storage, front));
      }
    }
  }

  /** Every admitted identity is still sampled or was evicted, and counted as such. */
  lemma AdmissionsConserved(calls: seq<Call>)
    ensures var s := After(true, calls);
      && |s.sample| <= 1024
      && TotalsOf(true, calls).evictions + |s.sample| == |Admissions(Verified(calls))|
      && s.counters.evictions == s.omissions.eviction == Clamp(TotalsOf(true, calls).evictions)
  {
    RunDescribed(true, calls);
  }

  // ----- the frozen observation ---------------------------------------------------------------------

  datatype Observation = Observation(
    counters: Counters, omissions: Omissions, sample: seq<Entry>, root: Option<Identity>, accounting: Option<Accounting>)

  function Freeze(s: State, root: Option<Identity>): (o: Observation) {
    Observation(s.counters, s.omissions, s.sample, root, s.accounting)
  }

  datatype Verdict = Accepted | BadRoot | OverCapacity | BadCounters | BadSample

  /** The validator's checks up to the wire budget, for an observation without a witness. */
  function Validate(o: Observation): (v: Verdict) {
    if o.root.Some? && !o.root.value.IsValid() then BadRoot
    else if |o.sample| > SLOTS then OverCapacity
    else if || o.counters.snapshots > o.counters.polls || o.counters.verified > o.counters.queries
            || o.counters.vanished > o.counters.queries || o.omissions.eviction != o.counters.evictions
    then BadCounters
    else if !SampleValid(o.sample) then BadSample
    else Accepted
  }

  predicate SampleValid(sample: seq<Entry>) {
    forall i :: 0 <= i < |sample| ==>
      && sample[i].identity.IsValid() && sample[i].lastSeen != 0
      && forall k :: 0 <= k < i ==> sample[k].identity != sample[i].identity
  }

  method ValidateSample(sample: seq<Entry>) returns (ok: bool)
    ensures ok <==> SampleValid(sample)
  {
    for i := 0 to |sample|
      invariant SampleValid(sample[..i])
    {
      var entry := sample[i];
      if !entry.identity.IsValid() || entry.lastSeen == 0 || exists k :: 0 <= k < i && sample[k].identity == entry.identity {
        return false;
      }
      assert sample[..i + 1] == sample[..i] + [entry];
    }
    assert sample[..|sample|] == sample;
    return true;
  }

  lemma {:induction false} VerifiedValid(calls: seq<Call>)
    ensures forall i :: 0 <= i < |Verified(calls)| ==> Verified(calls)[i].IsValid()
  {
    if calls == [] {
    } else {
      VerifiedValid(calls[..|calls| - 1]);
    }
  }

  lemma SampleAlwaysValid(storage: bool, calls: seq<Call>)
    ensures SampleValid(After(storage, calls).sample)
  {
    RunDescribed(storage, calls);
    VerifiedValid(calls);
    var sample, ids := After(storage, calls).sample, Verified(calls);
    if storage {
      var window := Window(Admissions(ids));
      forall i | 0 <= i < |sample|
        ensures sample[i].identity.IsValid() && sample[i].lastSeen != 0
        ensures forall k :: 0 <= k < i ==> sample[k].identity != sample[i].identity
      {
        LastSeenMeaning(ids, window[i]);
        assert forall k :: 0 <= k < i ==> window[k] != window[i];
      }
    }
  }

  /** A frozen run is refused exactly for a bad root or for snapshots, verifications or losses never asked for. */
  lemma FrozenRunAccepted(storage: bool, calls: seq<Call>, root: Option<Identity>)
    ensures Validate(Freeze(After(storage, calls), root)) == Accepted <==>
      && (root.Some? ==> root.value.processId > 0 && root.value.creationTime > 0)
      && Clamp(Count(calls, SnapshotObtained)) <= Clamp(Count(calls, AttemptPoll))
      && Clamp(|Verified(calls)|) <= Clamp(Count(calls, IdentityQuery))
      && Clamp(Count(calls, VanishedOrNotMember)) <= Clamp(Count(calls, IdentityQuery))
  {
    RunDescribed(storage, calls);
    SampleAlwaysValid(storage, calls);
  }

  predicate IsAnswer(call: Call) {
    call.VanishedOrNotMember? || (call.ObserveIdentity? && call.identity.IsValid())
  }

  function Answers(calls: seq<Call>): (n: nat) {
    Count(calls, VanishedOrNotMember) + |Verified(calls)|
  }

  /** Each snapshot comes when a counted poll is still open, each answer when a counted query is. */
  ghost predicate DisciplinedAt(calls: seq<Call>, k: nat)
    requires k < |calls|
  {
    var before := calls[..k];
    && (calls[k].SnapshotObtained? ==> Count(before, SnapshotObtained) < Count(before, AttemptPoll))
    && (IsAnswer(calls[k]) ==> Answers(before) < Count(before, IdentityQuery))
  }

  ghost predicate Disciplined(calls: seq<Call>) {
    forall k :: 0 <= k < |calls| ==> DisciplinedAt(calls, k)
  }

  lemma DisciplinedFront(calls: seq<Call>)
    requires Disciplined(calls) && calls != []
    ensures Disciplined(calls[..|calls| - 1])
  {
    var front := calls[..|calls| - 1];
    forall k | 0 <= k < |front| ensures DisciplinedAt(front, k) {
      assert front[..k] == calls[..k];
      assert DisciplinedAt(calls, k);
    }
  }

  lemma OneMore(calls: seq<Call>)
    requires calls != []
    ensures var front, last := calls[..|calls| - 1], calls[|calls| - 1];
      && Count(calls, SnapshotObtained) == Count(front, SnapshotObtained) + (if last.SnapshotObtained? then 1 else 0)
      && Count(calls, AttemptPoll) >= Count(front, AttemptPoll)
      && Count(calls, IdentityQuery) >= Count(front, IdentityQuery)
      && Answers(calls) == Answers(front) + (if IsAnswer(last) then 1 else 0)
  {
  }

  /** Calls made in that order never answer more than was asked, counting both kinds of answer together. */
  lemma {:induction false} DisciplineCounts(calls: seq<Call>)
    requires Disciplined(calls)
    ensures Count(calls, SnapshotObtained) <= Count(calls, AttemptPoll)
    ensures Answers(calls) <= Count(calls, IdentityQuery)
  {
    if calls == [] {
    } else {
      DisciplinedFront(calls);
      DisciplineCounts(calls[..|calls| - 1]);
      OneMore(calls);
      assert DisciplinedAt(calls, |calls| - 1);
    }
  }

  /** A run that counts a poll before each snapshot and a query before each answer is always accepted. */
  lemma DisciplinedRunAccepted(storage: bool, calls: seq<Call>, root: Option<Identity>)
    requires Disciplined(calls) && (root.Some? ==> root.value.IsValid())
    ensures Validate(Freeze(After(storage, calls), root)) == Accepted
  {
    DisciplineCounts(calls);
    FrozenRunAccepted(storage, calls, root);
  }

  // ----- accounting -----------------------------------------------------------------------------------

  /** The accountings observed, in order. */
  function Accountings(calls: seq<Call>): (seen: seq<Call>)
    ensures forall i :: 0 <= i < |seen| ==> seen[i].ObserveAccounting?
  {
    if calls == [] then []
    else
      var front, last := Accountings(calls[..|calls| - 1]), calls[|calls| - 1];
      if last.ObserveAccounting? then front + [last] else front
  }

  ghost predicate AllAccountings(seen: seq<Call>) {
    forall i :: 0 <= i < |seen| ==> seen[i].ObserveAccounting?
  }

  ghost predicate Decreased(seen: seq<Call>)
    requires AllAccountings(seen)
  {
    exists i, j :: 0 <= i < j < |seen| && seen[j].total < seen[i].total
  }

  /** The last accounting as it was observed, and whether any total was ever below an earlier one. */
  ghost predicate Remembers(s: State, seen: seq<Call>)
    requires AllAccountings(seen)
  {
    if seen == [] then s.lastTotal.None? && s.accounting.None?
    else
      var last := seen[|seen| - 1];
      && s.lastTotal == Some(last.total)
      && s.accounting.Some?
      && s.accounting.value.total == last.total && s.accounting.value.active == last.active
      && s.accounting.value.afterRetirement == last.afterRetirement
      && (s.accounting.value.regression <==> Decreased(seen))
  }

  lemma AccountingStep(s: State, seen: seq<Call>, call: Call)
    requires AllAccountings(seen) && Remembers(s, seen)
    ensures Remembers(Step(s, call), if call.ObserveAccounting? then seen + [call] else seen)
  {
    if call.ObserveAccounting? {
      DecreasedSnoc(seen, call);
    }
  }

  /** The last accounting is kept as observed, flagged exactly when a total was ever below an earlier one. */
  lemma {:induction false} RegressionExactly(storage: bool, calls: seq<Call>)
    ensures Remembers(After(storage, calls), Accountings(calls))
  {
    if calls == [] {
    } else {
      var front, last := calls[..|calls| - 1], calls[|calls| - 1];
      RegressionExactly(storage, front);
      AccountingStep(After(storage, front), Accountings(front), last);
    }
  }

  lemma DecreasedSnoc(seen: seq<Call>, call: Call)
    requires AllAccountings(seen) && call.ObserveAccounting?
    ensures Decreased(seen + [call])
       <==> Decreased(seen) || (seen != [] && call.total < seen[|seen| - 1].total)
  {
    var more := seen + [call];
    if Decreased(seen) {
      var i, j :| 0 <= i < j < |seen| && seen[j].total < seen[i].total;
      assert more[j].total < more[i].total;
    } else if seen != [] && call.total < seen[|seen| - 1].total {
      assert more[|seen|].total < more[|seen| - 1].total;
    }
  }

  // ----- the validator on any observation ----------------------------------------------------------------

  function Identities(sample: seq<Entry>): (ids: seq<Identity>)
    ensures |ids| == |sample|
  {
    seq(|sample|, i requires 0 <= i < |sample| => sample[i].identity)
  }

  /**
   Accepted exactly when the root and each sampled identity are real, the sample is
   small and repeats none, and nothing is answered that was not asked.
   */
  lemma AcceptedExactly(o: Observation)
    ensures Validate(o) == Accepted <==>
      && (o.root.Some? ==> o.root.value.processId > 0 && o.root.value.creationTime > 0)
      && |o.sample| <= 1024
      && o.counters.snapshots <= o.counters.polls
      && Max(o.counters.verified, o.counters.vanished) <= o.counters.queries
      && o.counters.evictions == o.omissions.eviction
      && Distinct(Identities(o.sample))
      && forall e :: e in o.sample ==> e.lastSeen > 0 && e.identity.processId > 0 && e.identity.creationTime > 0
  {
    var ids := Identities(o.sample);
    assert forall i :: 0 <= i < |o.sample| ==> ids[i] == o.sample[i].identity;
  }
}
