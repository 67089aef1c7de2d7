/**
 The relay phase machine of the Windows provider and the one-shot replay
 budget of its public frontend, over every trace of calls: accepted, refused
 or repeated.
 */
module RelayProtocol {
  import opened Common

  datatype Phase =
    | AwaitStreams
    | AwaitRelaysReady
    | AwaitAuthorizationOrAbort
    | Authorized
    | AwaitRelayAck
    | AwaitAbortRelayAck
    | AwaitTerminal
    | AwaitAbortRejection
    | Terminated

  datatype Event =
    | StreamsPrepared
    | RelaysReady
    | TargetAuthorized
    | TargetRetired
    | RelaysAbort
    | RelaysRetired
    | Terminal
    | Reject
    | MutantHook
    | MutantTerminal

  function Next(phase: Phase, event: Event): (r: Option<Phase>) {
    match (phase, event)
    case (AwaitStreams, StreamsPrepared) => Some(AwaitRelaysReady)
    case (AwaitRelaysReady, RelaysReady) => Some(AwaitAuthorizationOrAbort)
    case (AwaitAuthorizationOrAbort, TargetAuthorized) => Some(Authorized)
    case (AwaitAuthorizationOrAbort, RelaysAbort) => Some(AwaitAbortRelayAck)
    case (AwaitAuthorizationOrAbort, MutantHook) => Some(AwaitAuthorizationOrAbort)
    case (Authorized, TargetRetired) => Some(AwaitRelayAck)
    case (AwaitRelayAck, RelaysRetired) => Some(AwaitTerminal)
    case (AwaitAbortRelayAck, RelaysRetired) => Some(AwaitAbortRejection)
    case (AwaitTerminal, Terminal) => Some(Terminated)
    case (Terminated, _) => None
    case (_, Reject) => Some(Terminated)
    case (AwaitAbortRelayAck, MutantTerminal) => None
    case (AwaitAbortRejection, MutantTerminal) => None
    case (_, MutantTerminal) => Some(Terminated)
    case _ => None
  }

  class Relay {
    var phase: Phase

    constructor ()
      ensures phase == AwaitStreams
    {
      phase := AwaitStreams;
    }

    method Advance(event: Event) returns (accepted: bool)
      modifies this
      ensures accepted <==> Next(old(phase), event).Some?
      ensures phase == if accepted then Next(old(phase), event).value else old(phase)
    {
      var next: Phase;
      match (phase, event) {
        case (AwaitStreams, StreamsPrepared) => next := AwaitRelaysReady;
        case (AwaitRelaysReady, RelaysReady) => next := AwaitAuthorizationOrAbort;
        case (AwaitAuthorizationOrAbort, TargetAuthorized) => next := Authorized;
        case (AwaitAuthorizationOrAbort, RelaysAbort) => next := AwaitAbortRelayAck;
        case (AwaitAuthorizationOrAbort, MutantHook) => next := phase;
        case (Authorized, TargetRetired) => next := AwaitRelayAck;
        case (AwaitRelayAck, RelaysRetired) => next := AwaitTerminal;
        case (AwaitAbortRelayAck, RelaysRetired) => next := AwaitAbortRejection;
        case (AwaitTerminal, Terminal) => next := Terminated;
        case (_, Reject) =>
          if phase == Terminated {
            return false;
          }
          next := Terminated;
        case (_, MutantTerminal) =>
          if phase == AwaitAbortRelayAck || phase == AwaitAbortRejection || phase == Terminated {
            return false;
          }
          next := Terminated;
        case _ => return false;
      }
      phase := next;
      return true;
    }
  }

  // ----- traces --------------------------------------------------------------

  /** Phase after offering `events` in turn to a fresh relay, refused ones included. */
  function After(events: seq<Event>): (phase: Phase) {
    if events == [] then AwaitStreams
    else
      var phase := After(events[..|events| - 1]);
      match Next(phase, events[|events| - 1])
      case Some(next) => next
      case None => phase
  }

  predicate AcceptedAt(events: seq<Event>, k: nat)
    requires k < |events|
  {
    Next(After(events[..k]), events[k]).Some?
  }

  /** The accepted events other than hooks: what really happened, in order. */
  function Progress(events: seq<Event>): (happened: seq<Event>) {
    if events == [] then []
    else
      var front, last := events[..|events| - 1], events[|events| - 1];
      if Next(After(front), last).Some? && last != MutantHook then Progress(front) + [last] else Progress(front)
  }

  const ORDINARY: seq<Event> := [StreamsPrepared, RelaysReady, TargetAuthorized, TargetRetired, RelaysRetired]
  const ABORTED: seq<Event> := [StreamsPrepared, RelaysReady, RelaysAbort, RelaysRetired]

  /** The only way into each phase that is not final. */
  function PathTo(phase: Phase): (path: seq<Event>)
    requires phase != Terminated
  {
    match phase
    case AwaitStreams => []
    case AwaitRelaysReady => ORDINARY[..1]
    case AwaitAuthorizationOrAbort => ORDINARY[..2]
    case Authorized => ORDINARY[..3]
    case AwaitRelayAck => ORDINARY[..4]
    case AwaitTerminal => ORDINARY
    case AwaitAbortRelayAck => ABORTED[..3]
    case AwaitAbortRejection => ABORTED
  }

  /** A finished trace: the path to some phase, closed by an event that phase accepts as final. */
  ghost predicate Closed(happened: seq<Event>) {
    exists phase, closing: Event ::
      phase != Terminated && Next(phase, closing) == Some(Terminated) && happened == PathTo(phase) + [closing]
  }

  /** Over every trace, what has happened is determined by the phase: no step is skipped, repeated or reordered. */
  lemma {:induction false} ProgressIsPath(events: seq<Event>)
    ensures After(events) != Terminated ==> Progress(events) == PathTo(After(events))
    ensures After(events) == Terminated ==> Closed(Progress(events))
  {
    if events == [] {
    } else {
      var front, last := events[..|events| - 1], events[|events| - 1];
      ProgressIsPath(front);
      if After(front) != Terminated {
        match Next(After(front), last)
        case None =>
        case Some(next) =>
          PathStep(After(front), last);
      }
    }
  }

  lemma PathStep(phase: Phase, event: Event)
    requires phase != Terminated && Next(phase, event).Some?
    ensures var next := Next(phase, event).value;
      next != Terminated && event != MutantHook ==> PathTo(next) == PathTo(phase) + [event]
    ensures event == MutantHook ==> Next(phase, event) == Some(phase)
  {
  }

  /** The ordinary terminal event is accepted after exactly the five ordinary steps, and never otherwise. */
  lemma OrdinaryTerminal(events: seq<Event>, k: nat)
    requires k < |events| && events[k] == Terminal
    ensures AcceptedAt(events, k) <==> Progress(events[..k]) == ORDINARY
  {
    var front := events[..k];
    ProgressIsPath(front);
    if After(front) == Terminated {
      ClosedIsNotOrdinary(Progress(front));
    }
  }

  lemma ClosedIsNotOrdinary(happened: seq<Event>)
    requires Closed(happened)
    ensures happened != ORDINARY
  {
    var phase, closing: Event :|
      phase != Terminated && Next(phase, closing) == Some(Terminated) && happened == PathTo(phase) + [closing];
    EndsUnlike(PathTo(phase), closing);
  }

  lemma EndsUnlike(path: seq<Event>, closing: Event)
    requires closing != RelaysRetired
    ensures path + [closing] != ORDINARY
  {
    var happened := path + [closing];
    assert happened[|happened| - 1] == closing && ORDINARY[|ORDINARY| - 1] == RelaysRetired;
  }

  lemma PathEvents(phase: Phase)
    requires phase != Terminated
    ensures RelaysAbort in PathTo(phase) <==> phase == AwaitAbortRelayAck || phase == AwaitAbortRejection
    ensures RelaysAbort in PathTo(phase) ==> TargetAuthorized !in PathTo(phase)
    ensures Terminal !in PathTo(phase) && MutantTerminal !in PathTo(phase) && Reject !in PathTo(phase)
  {
    assert ORDINARY[2] == TargetAuthorized && ABORTED[2] == RelaysAbort;
    match phase
    case AwaitAbortRelayAck => assert PathTo(phase)[2] == RelaysAbort;
    case AwaitAbortRejection => assert PathTo(phase)[2] == RelaysAbort;
    case _ =>
  }

  lemma AbortClosing(phase: Phase, closing: Event)
    requires phase != Terminated && Next(phase, closing) == Some(Terminated)
    requires RelaysAbort in PathTo(phase) + [closing]
    ensures closing == Reject && (phase == AwaitAbortRelayAck || phase == AwaitAbortRejection)
  {
    PathEvents(phase);
  }

  /** Once an abort is accepted the run can only finish by rejection. */
  lemma AbortEndsInRejection(events: seq<Event>)
    requires RelaysAbort in Progress(events)
    ensures Terminal !in Progress(events) && MutantTerminal !in Progress(events) && TargetAuthorized !in Progress(events)
    ensures After(events) == Terminated <==> Reject in Progress(events)
    ensures After(events) == Terminated ==> Progress(events)[|Progress(events)| - 1] == Reject
  {
    ProgressIsPath(events);
    var happened := Progress(events);
    if After(events) == Terminated {
      var phase, closing: Event :|
        phase != Terminated && Next(phase, closing) == Some(Terminated) && happened == PathTo(phase) + [closing];
      AbortClosing(phase, closing);
      PathEvents(phase);
      assert happened[|PathTo(phase)|] == closing;
    } else {
      PathEvents(After(events));
    }
  }

  // ----- exactly which events are accepted -----------------------------------------------------

  predicate IsClosing(event: Event) {
    event in {Terminal, Reject, MutantTerminal}
  }

  predicate IsOver(happened: seq<Event>) {
    exists i :: 0 <= i < |happened| && IsClosing(happened[i])
  }

  /** What the relay accepts after `happened`, in terms of the two courses a run can take. */
  predicate MayHappen(happened: seq<Event>, event: Event) {
    match event
    case Reject => !IsOver(happened)
    case MutantTerminal => !IsOver(happened) && RelaysAbort !in happened
    case MutantHook => happened == [StreamsPrepared, RelaysReady]
    case _ =>
      || happened + [event] <= [StreamsPrepared, RelaysReady, TargetAuthorized, TargetRetired, RelaysRetired, Terminal]
      || happened + [event] <= [StreamsPrepared, RelaysReady, RelaysAbort, RelaysRetired]
  }

  lemma PathsAreOpen(phase: Phase)
    requires phase != Terminated
    ensures !IsOver(PathTo(phase))
  {
  }

  lemma SnocPrefix(happened: seq<Event>, event: Event, course: seq<Event>)
    ensures happened + [event] <= course <==>
      |happened| < |course| && happened <= course && course[|happened|] == event
  {
    var longer := happened + [event];
    if |happened| < |course| && happened <= course && course[|happened|] == event {
      assert course[..|longer|] == longer;
    }
    if longer <= course {
      assert course[|happened|] == longer[|happened|];
      assert happened == longer[..|happened|];
    }
  }

  lemma PathPrefixes(phase: Phase)
    requires phase != Terminated
    ensures PathTo(phase) <= ORDINARY + [Terminal] <==> phase != AwaitAbortRelayAck && phase != AwaitAbortRejection
    ensures PathTo(phase) <= ABORTED <==> phase != Authorized && phase != AwaitRelayAck && phase != AwaitTerminal
  {
    assert (ORDINARY + [Terminal])[2] == TargetAuthorized && ABORTED[2] == RelaysAbort;
    assert |PathTo(phase)| > 2 && PathTo(phase) <= ORDINARY + [Terminal] ==> PathTo(phase)[2] == TargetAuthorized;
    assert |PathTo(phase)| > 2 && PathTo(phase) <= ABORTED ==> PathTo(phase)[2] == RelaysAbort;
  }

  lemma StepsForward(phase: Phase, event: Event)
    requires phase != Terminated && event != Reject && event != MutantTerminal && event != MutantHook
    ensures Next(phase, event).Some? <==> MayHappen(PathTo(phase), event)
  {
    assert ORDINARY + [Terminal]
        == [StreamsPrepared, RelaysReady, TargetAuthorized, TargetRetired, RelaysRetired, Terminal];
    PathPrefixes(phase);
    SnocPrefix(PathTo(phase), event, ORDINARY + [Terminal]);
    SnocPrefix(PathTo(phase), event, ABORTED);
  }

  lemma ClosesOpenPath(phase: Phase, event: Event)
    requires phase != Terminated && (event == Reject || event == MutantTerminal || event == MutantHook)
    ensures Next(phase, event).Some? <==> MayHappen(PathTo(phase), event)
  {
    PathsAreOpen(phase);
    PathEvents(phase);
  }

  lemma ClosingEndsCourse(happened: seq<Event>, event: Event, course: seq<Event>)
    requires happened != [] && IsClosing(happened[|happened| - 1])
    requires forall i :: 0 <= i < |course| - 1 ==> !IsClosing(course[i])
    ensures !(happened + [event] <= course)
  {
    if happened + [event] <= course {
      SnocPrefix(happened, event, course);
    }
  }

  lemma ClosedEnds(happened: seq<Event>)
    requires Closed(happened)
    ensures happened != [] && IsClosing(happened[|happened| - 1])
  {
    var phase, closing: Event :|
      phase != Terminated && Next(phase, closing) == Some(Terminated) && happened == PathTo(phase) + [closing];
    EndsWith(PathTo(phase), closing, happened);
    OnlyClosingCloses(phase, closing);
  }

  lemma EndsWith(path: seq<Event>, closing: Event, happened: seq<Event>)
    requires happened == path + [closing]
    ensures happened != [] && happened[|happened| - 1] == closing
  {
  }

  lemma OnlyClosingCloses(phase: Phase, closing: Event)
    requires phase != Terminated && Next(phase, closing) == Some(Terminated)
    ensures IsClosing(closing)
  {
  }

  lemma NothingAfterClosing(happened: seq<Event>, event: Event)
    requires happened != [] && IsClosing(happened[|happened| - 1])
    ensures !MayHappen(happened, event)
  {
    ClosingEndsCourse(
      happened, event, [StreamsPrepared, RelaysReady, TargetAuthorized, TargetRetired, RelaysRetired, Terminal]);
    ClosingEndsCourse(happened, event, [StreamsPrepared, RelaysReady, RelaysAbort, RelaysRetired]);
  }

  /**
   Over every trace, an event is accepted exactly when it may happen after what has happened:
   the next ordinary or abort step, a rejection of a run not yet over, a mutant's end of a run
   neither over nor aborted, or a hook before authorization.
   */
  lemma AcceptedExactly(events: seq<Event>, k: nat)
    requires k < |events|
    ensures AcceptedAt(events, k) <==> MayHappen(Progress(events[..k]), events[k])
  {
    var front, event := events[..k], events[k];
    ProgressIsPath(front);
    if After(front) == Terminated {
      ClosedEnds(Progress(front));
      NothingAfterClosing(Progress(front), event);
    } else if event == Reject || event == MutantTerminal || event == MutantHook {
      ClosesOpenPath(After(front), event);
    } else {
      StepsForward(After(front), event);
    }
  }

  /** The path into each phase leads there when offered. */
  lemma PathLeads(phase: Phase)
    requires phase != Terminated
    ensures After(PathTo(phase)) == phase
    decreases |PathTo(phase)|
  {
    var path := PathTo(phase);
    if path == [] {
    } else {
      var front := path[..|path| - 1];
      var before := match phase
        case AwaitRelaysReady => AwaitStreams
        case AwaitAuthorizationOrAbort => AwaitRelaysReady
        case Authorized => AwaitAuthorizationOrAbort
        case AwaitRelayAck => Authorized
        case AwaitTerminal => AwaitRelayAck
        case AwaitAbortRelayAck => AwaitAuthorizationOrAbort
        case AwaitAbortRejection => AwaitAbortRelayAck
        case AwaitStreams => AwaitStreams;
      assert front == PathTo(before);
      PathLeads(before);
    }
  }

  lemma {:induction false} TerminatedAbsorbs(events: seq<Event>, more: seq<Event>)
    requires After(events) == Terminated
    ensures After(events + more) == Terminated
    ensures Progress(events + more) == Progress(events)
    decreases |more|
  {
    if more == [] {
      assert events + more == events;
    } else {
      var all := events + more;
      assert all[..|all| - 1] == events + more[..|more| - 1];
      TerminatedAbsorbs(events, more[..|more| - 1]);
    }
  }

  // ----- replay budget ---------------------------------------------------------

  datatype FramePhase = Availability | Length | Payload | Decode
  datatype FrameFailure = PeerClosed(at: FramePhase) | Protocol(at: FramePhase)
  datatype Call = BindAttempt | ObserveFailure(failure: FrameFailure) | BeginReplay | RetireRelays

  datatype RecoveryState = RecoveryState(attemptBound: bool, replayConsumed: bool, relaysRetired: bool) {
    /** Whether the call succeeds: binds, grants a replay, or makes the caller the retiring owner. */
    predicate Grants(call: Call) {
      match call
      case BindAttempt => !attemptBound
      case ObserveFailure(failure) => failure.PeerClosed? && attemptBound && !replayConsumed
      case BeginReplay => attemptBound && !replayConsumed
      case RetireRelays => !relaysRetired
    }

    function Called(call: Call): RecoveryState {
      if !Grants(call) then this
      else
        match call
        case BindAttempt => this.(attemptBound := true)
        case ObserveFailure(_) => this.(replayConsumed := true)
        case BeginReplay => this.(replayConsumed := true)
        case RetireRelays => this.(relaysRetired := true)
    }
  }

  class TerminalRecovery {
    var attemptBound: bool
    var replayConsumed: bool
    var relaysRetired: bool

    ghost function State(): RecoveryState
      reads this
    {
      RecoveryState(attemptBound, replayConsumed, relaysRetired)
    }

    constructor ()
      ensures State() == RecoveryState(false, false, false)
    {
      attemptBound, replayConsumed, relaysRetired := false, false, false;
    }

    method Bind() returns (bound: bool)
      modifies this
      ensures bound == old(State()).Grants(BindAttempt) && State() == old(State()).Called(BindAttempt)
    {
      if attemptBound {
        return false;
      }
      attemptBound := true;
      return true;
    }

    method Observe(failure: FrameFailure) returns (replay: bool)
      modifies this
      ensures replay == old(State()).Grants(ObserveFailure(failure))
      ensures State() == old(State()).Called(ObserveFailure(failure))
    {
      replay := failure.PeerClosed? && attemptBound && !replayConsumed;
      if replay {
        replayConsumed := true;
      }
    }

    method BeginReplayAfterPending() returns (replay: bool)
      modifies this
      ensures replay == old(State()).Grants(BeginReplay) && State() == old(State()).Called(BeginReplay)
    {
      replay := attemptBound && !replayConsumed;
      if replay {
        replayConsumed := true;
      }
    }

    method RetireLocalRelaysOnce() returns (owner: bool)
      modifies this
      ensures owner == old(State()).Grants(RetireRelays) && State() == old(State()).Called(RetireRelays)
    {
      owner := !relaysRetired;
      relaysRetired := true;
    }
  }

  function Recovered(calls: seq<Call>): (s: RecoveryState) {
    if calls == [] then RecoveryState(false, false, false)
    else Recovered(calls[..|calls| - 1]).Called(calls[|calls| - 1])
  }

  predicate AsksReplay(call: Call) {
    call.BeginReplay? || (call.ObserveFailure? && call.failure.PeerClosed?)
  }

  ghost predicate BoundBefore(calls: seq<Call>, k: nat)
    requires k <= |calls|
  {
    exists b :: 0 <= b < k && calls[b] == BindAttempt
  }

  /** A request made at `k` once an attempt is bound. */
  ghost predicate BoundRequest(calls: seq<Call>, k: nat) {
    k < |calls| && AsksReplay(calls[k]) && BoundBefore(calls, k)
  }

  lemma {:induction false} RecoveryTracks(calls: seq<Call>)
    ensures Recovered(calls).attemptBound <==> BoundBefore(calls, |calls|)
    ensures Recovered(calls).replayConsumed <==> exists k :: 0 <= k < |calls| && BoundRequest(calls, k)
    ensures Recovered(calls).relaysRetired <==> RetireRelays in calls
  {
    if calls == [] {
    } else {
      var front, n := calls[..|calls| - 1], |calls| - 1;
      RecoveryTracks(front);
      assert calls == front + [calls[n]];
      assert forall k :: 0 <= k <= n ==> (BoundBefore(calls, k) <==> BoundBefore(front, k));
      assert forall k :: 0 <= k < n ==> (BoundRequest(calls, k) <==> BoundRequest(front, k));
      assert AsksReplay(calls[n]) && Recovered(front).attemptBound ==> BoundRequest(calls, n);
    }
  }

  /** A replay is granted to the first request made after an attempt is bound, and to no other call. */
  lemma ReplayGrantedOnce(calls: seq<Call>, k: nat)
    requires k < |calls| && !calls[k].BindAttempt? && !calls[k].RetireRelays?
    ensures Recovered(calls[..k]).Grants(calls[k])
       <==> BoundRequest(calls, k) && forall j :: 0 <= j < k ==> !BoundRequest(calls, j)
  {
    var front := calls[..k];
    RecoveryTracks(front);
    assert forall j :: 0 <= j <= k ==> (BoundBefore(calls, j) <==> BoundBefore(front, j));
    assert forall j :: 0 <= j < k ==> (BoundRequest(calls, j) <==> BoundRequest(front, j));
  }

  /** An attempt is bound once, by the first call that asks. */
  lemma AttemptBoundOnce(calls: seq<Call>, k: nat)
    requires k < |calls| && calls[k].BindAttempt?
    ensures Recovered(calls[..k]).Grants(calls[k]) <==> BindAttempt !in calls[..k]
  {
    RecoveryTracks(calls[..k]);
  }

  /** Local relays get one retiring owner, the first that asks. */
  lemma RelaysRetiredOnce(calls: seq<Call>, k: nat)
    requires k < |calls| && calls[k].RetireRelays?
    ensures Recovered(calls[..k]).Grants(calls[k]) <==> RetireRelays !in calls[..k]
  {
    RecoveryTracks(calls[..k]);
  }
}
