/**
 The protocol seen from outside: what was requested in a run against what the handler and the resources saw.

 A request is a call made through a token or the body's rejection, read off the steps of the run alone.
 Calls are counted, so that two equal calls count twice.
 */
module AsyncHistory {
  import opened Wrappers
  import opened Async
  import opened AsyncRuns
  import opened AsyncSettling

  predicate Requests(step: Step, call: Call) {
    match step
    case Begin(_, made) => made == call
    case BodyReturns(Some(error)) => call == Finish(Failure(error))
    case _ => false
  }

  function One(b: bool): nat {
    if b then 1 else 0
  }

  function Requested(steps: seq<Step>, call: Call): nat {
    if steps == [] then 0 else One(Requests(steps[0], call)) + Requested(steps[1..], call)
  }

  // How often a call has entered its first critical section.
  function AskedTimes(events: seq<Event>, call: Call): nat {
    if events == [] then 0 else
    AskedTimes(events[..|events| - 1], call) + One(events[|events| - 1] == Asked(call))
  }

  // What the end of submission adds to the requests: the first detach before it comes again.
  function DeferredTimes(events: seq<Event>, call: Call): nat {
    if events == [] then 0 else
    var before := events[..|events| - 1];
    DeferredTimes(before, call)
    + One(events[|events| - 1] == SubmissionEnded && call.Detach? && FirstDetach(before) == Some(call.error))
  }

  // Calls begun that have not entered yet.
  predicate Enters(frame: Frame, call: Call) {
    frame == Enter(call)
  }

  ghost function PendingIn(frames: map<nat, Frame>, call: Call): nat {
    if frames == map[] then 0 else
    var i :| i in frames;
    One(Enters(frames[i], call)) + PendingIn(frames - {i}, call)
  }

  ghost function Pending(s: System, call: Call): nat {
    PendingIn(s.frames, call) + One(s.stage.RejectCheck? && call == Finish(Failure(s.stage.error)))
  }

  lemma {:induction false} PendingWithout(frames: map<nat, Frame>, k: nat, call: Call)
    requires k in frames
    ensures PendingIn(frames, call) == One(Enters(frames[k], call)) + PendingIn(frames - {k}, call)
    decreases |frames|
  {
    hide Enters;
    var i :| i in frames && PendingIn(frames, call) == One(Enters(frames[i], call)) + PendingIn(frames - {i}, call);
    if i != k {
      assert |frames - {i}| < |frames| && |frames - {k}| < |frames| by {
        assert (frames - {i}).Keys == frames.Keys - {i};
        assert (frames - {k}).Keys == frames.Keys - {k};
      }
      PendingWithout(frames - {i}, k, call);
      PendingWithout(frames - {k}, i, call);
      assert frames - {i} - {k} == frames - {k} - {i};
    }
  }

  lemma PendingUpdate(frames: map<nat, Frame>, k: nat, frame: Frame, call: Call)
    ensures PendingIn(frames[k := frame], call) + One(k in frames && Enters(frames[k], call))
            == PendingIn(frames, call) + One(Enters(frame, call))
  {
    hide PendingIn;
    PendingWithout(frames[k := frame], k, call);
    assert frames[k := frame] - {k} == frames - {k};
    if k in frames {
      PendingWithout(frames, k, call);
    } else {
      assert frames - {k} == frames;
    }
  }

  lemma {:induction false} NothingPending(frames: map<nat, Frame>, call: Call)
    requires forall i <- frames :: !Enters(frames[i], call)
    ensures PendingIn(frames, call) == 0
    decreases |frames|
  {
    if frames != map[] {
      var i :| i in frames;
      PendingWithout(frames, i, call);
      assert (frames - {i}).Keys == frames.Keys - {i};
      NothingPending(frames - {i}, call);
    }
  }

  lemma EventAppended(events: seq<Event>, e: Event, call: Call)
    ensures AskedTimes(events + [e], call) == AskedTimes(events, call) + One(e == Asked(call))
    ensures DeferredTimes(events + [e], call) ==
            DeferredTimes(events, call)
            + One(e == SubmissionEnded && call.Detach? && FirstDetach(events) == Some(call.error))
  {
    assert (events + [e])[..|events|] == events;
  }

  // -------- Every step keeps the account --------

  // Calls asked and still to be asked, less what was added when submission ended.
  ghost function Account(s: System, call: Call): int {
    AskedTimes(s.shared.trace.events, call) + Pending(s, call) - DeferredTimes(s.shared.trace.events, call)
  }

  lemma FrameBalances(s: System, who: nat, call: Call)
    requires FrameMoves(s, who)
    ensures Account(Moved(s, who), call) == Account(s, call)
  {
    hide PendingIn, AskedTimes, DeferredTimes;
    PendingUpdate(s.frames, who, Moved(s, who).frames[who], call);
    if s.frames[who].Enter? {
      EnterLogs(s, who);
      EventAppended(s.shared.trace.events, Asked(s.frames[who].call), call);
      EnterLeavesEntry(s, who);
    } else {
      LaterStepsDecideNothing(s, who);
      EnterLeavesEntry(s, who);
    }
  }

  lemma EnterLeavesEntry(s: System, who: nat)
    requires FrameMoves(s, who)
    ensures !Moved(s, who).frames[who].Enter? && Moved(s, who).stage == s.stage
  {
    match s.frames[who] {
      case Enter(_) =>
      case _ =>
    }
  }

  lemma SubmitterBalances(s: System, call: Call)
    requires SubmitterMoves(s) && OutcomeInv(s)
    ensures Account(SubmitterStep(s).value, call) == Account(s, call)
  {
    hide PendingIn, AskedTimes, DeferredTimes;
    var next := SubmitterStep(s).value;
    if !next.aborted {
      PendingUpdate(s.frames, SUBMITTER, next.frames[SUBMITTER], call);
      assert s.frames[SUBMITTER := s.frames[SUBMITTER]] == s.frames;
    }
    EventAppended(s.shared.trace.events, SubmissionEnded, call);
  }

  lemma StepBalances(s: System, step: Step, call: Call)
    requires Inv(s) && Next(s, step).Some?
    ensures Account(Next(s, step).value, call) == Account(s, call) + One(Requests(step, call))
  {
    hide PendingIn, AskedTimes, DeferredTimes, DeliverStep, SubmitterStep;
    match step {
      case Begin(id, made) => PendingUpdate(s.frames, id, Enter(made), call);
      case BodyReturns(_) =>
      case Advance(who) =>
        if s.frames[who].Done? {
          SubmitterBalances(s, call);
        } else {
          FrameBalances(s, who, call);
        }
    }
  }

  lemma {:induction false} ReplayBalances(s: System, steps: seq<Step>, call: Call)
    requires Inv(s) && Replay(s, steps).Some?
    ensures Account(Replay(s, steps).value, call) == Account(s, call) + Requested(steps, call)
    decreases |steps|
  {
    hide Account, Inv, Next;
    if steps != [] {
      StepBalances(s, steps[0], call);
      NextKeeps(s, steps[0]);
      ReplayBalances(Next(s, steps[0]).value, steps[1..], call);
    }
  }

  // -------- Counting and occurring --------

  lemma {:induction false} AskedMeaning(events: seq<Event>, call: Call)
    ensures AskedTimes(events, call) > 0 <==> Asked(call) in events
  {
    if events != [] {
      var before := events[..|events| - 1];
      assert events == before + [events[|events| - 1]];
      AskedMeaning(before, call);
    }
  }

  lemma {:induction false} RequestedMeaning(steps: seq<Step>, call: Call)
    ensures Requested(steps, call) > 0 <==> exists step <- steps :: Requests(step, call)
  {
    if steps != [] {
      assert steps == [steps[0]] + steps[1..];
      RequestedMeaning(steps[1..], call);
    }
  }

  lemma {:induction false} OnlyDetachesDeferred(events: seq<Event>, call: Call)
    requires call.Finish?
    ensures DeferredTimes(events, call) == 0
  {
    if events != [] {
      OnlyDetachesDeferred(events[..|events| - 1], call);
    }
  }

  lemma {:induction false} FirstDetachExists(events: seq<Event>, i: nat)
    requires i < |events| && events[i].Asked? && events[i].call.Detach?
    ensures FirstDetach(events).Some?
  {
    if i > 0 {
      FirstDetachExists(events[1..], i - 1);
    }
  }

  // -------- Main results --------

  // In every run each call has entered as often as it was requested, apart from calls still to enter and
  // the deferred detach, which enters once more; nothing else ever enters.
  lemma CallsAreAnswered(steps: seq<Step>, s: System, call: Call)
    requires Replay(INITIAL, steps) == Some(s)
    ensures var events := s.shared.trace.events;
            && AskedTimes(events, call) + Pending(s, call) == Requested(steps, call) + DeferredTimes(events, call)
            && (Quiescent(s) ==> AskedTimes(events, call) == Requested(steps, call) + DeferredTimes(events, call))
  {
    hide Inv, PendingIn, Next, Requested;
    InitialKeeps();
    ReplayBalances(INITIAL, steps, call);
    NothingPending(INITIAL.frames, call);
    if Quiescent(s) {
      NothingPending(s.frames, call);
    }
  }

  lemma RequestIsAsked(steps: seq<Step>, s: System, step: Step, call: Call)
    requires Replay(INITIAL, steps) == Some(s) && Quiescent(s) && step in steps && Requests(step, call)
    ensures Asked(call) in s.shared.trace.events
  {
    CallsAreAnswered(steps, s, call);
    RequestedMeaning(steps, call);
    AskedMeaning(s.shared.trace.events, call);
  }

  // In a quiet state whatever was asked has been delivered.
  lemma AskedIsDelivered(s: System, call: Call)
    requires Reachable(s) && Quiescent(s) && Asked(call) in s.shared.trace.events
    ensures s.shared.delivered
  {
    ReachableKeeps(s);
    var events := s.shared.trace.events;
    var i: nat :| i < |events| && events[i] == Asked(call);
    if !Decides(events, i) {
      assert Ended(events, |events|);
      var k: nat :| k < |events| && events[k] == SubmissionEnded;
      assert i < k && events[..k][i] == Asked(call);
      FirstDetachExists(events[..k], i);
      RecordedDetachReturns(s, k);
      var m: nat :| k < m < |events| && events[m] == Asked(Detach(FirstDetach(events[..k]).value));
      assert Decides(events, m);
    } else {
    }
  }

  predicate IsRequest(step: Step) {
    step.Begin? || (step.BodyReturns? && step.rejection.Some?)
  }

  function CallOf(step: Step): (call: Call)
    requires IsRequest(step)
    ensures Requests(step, call)
  {
    if step.Begin? then step.call else Finish(Failure(step.rejection.value))
  }

  // Nobody has asked for anything.
  ghost predicate Untouched(s: System) {
    && (forall e <- s.shared.trace.events :: !e.Asked?)
    && (forall i <- s.frames :: !s.frames[i].Enter?)
    && !s.stage.RejectCheck? && s.shared.pendingDetach.None?
  }

  lemma {:induction false} UntouchedStays(s: System, steps: seq<Step>)
    requires Inv(s) && Untouched(s) && Replay(s, steps).Some? && forall step <- steps :: !IsRequest(step)
    ensures Untouched(Replay(s, steps).value)
    decreases |steps|
  {
    hide Inv;
    if steps != [] {
      var (step, next) := (steps[0], Next(s, steps[0]).value);
      assert step in steps && forall later <- steps[1..] :: later in steps;
      UntouchedStep(s, step);
      NextKeeps(s, step);
      UntouchedStays(next, steps[1..]);
    }
  }

  lemma UntouchedStep(s: System, step: Step)
    requires Inv(s) && Untouched(s) && Next(s, step).Some? && !IsRequest(step)
    ensures Untouched(Next(s, step).value)
  {
    if step.Advance? && !s.frames[step.who].Done? {
      LaterStepsDecideNothing(s, step.who);
      EnterLeavesEntry(s, step.who);
    }
  }

  // A quiet run has called the handler exactly once if anything was requested, and not at all otherwise.
  // What the handler got is a requested result or error: that of the first call to decide.
  lemma HandlerAnswersRequests(steps: seq<Step>, s: System)
    requires Replay(INITIAL, steps) == Some(s) && Quiescent(s)
    ensures var t := s.shared.trace;
            if exists step <- steps :: IsRequest(step)
            then exists i: nat | FirstToDecide(t.events, i) ::
                   t.invoked ==
                   [match t.events[i].call case Finish(result) => result case Detach(error) => Failure(error)]
            else t.invoked == []
  {
    var t := s.shared.trace;
    HandlerAtMostOnce(s);
    if step :| step in steps && IsRequest(step) {
      RequestIsAsked(steps, s, step, CallOf(step));
      AskedIsDelivered(s, CallOf(step));
      ReachableKeeps(s);
      assert t.invoked != [];
    } else {
      InitialKeeps();
      UntouchedStays(INITIAL, steps);
      assert forall i: nat | i < |t.events| :: t.events[i] in t.events;
    }
  }

  // A rejection is asked as a failing finish; a run it leaves quiet has called the handler once and has
  // released everything.
  lemma RejectionIsAnswered(steps: seq<Step>, s: System, error: int)
    requires Replay(INITIAL, steps) == Some(s) && Quiescent(s) && BodyReturns(Some(error)) in steps
    ensures Asked(Finish(Failure(error))) in s.shared.trace.events
    ensures |s.shared.trace.invoked| == 1
    ensures !s.shared.operation && !s.shared.context && !s.shared.access && !s.shared.handler
    ensures s.shared.trace.operationResets == s.shared.trace.contextResets == s.shared.trace.guardDrops == 1
  {
    RequestIsAsked(steps, s, BodyReturns(Some(error)), Finish(Failure(error)));
    HandlerAnswersRequests(steps, s);
    assert IsRequest(BodyReturns(Some(error)));
    AskedFinishReleases(s, Finish(Failure(error)));
  }

  lemma AskedFinishReleases(s: System, call: Call)
    requires Reachable(s) && Quiescent(s) && call.Finish? && Asked(call) in s.shared.trace.events
    ensures s.shared.retired && !s.shared.operation && !s.shared.context && !s.shared.access && !s.shared.handler
    ensures s.shared.trace.operationResets == s.shared.trace.contextResets == s.shared.trace.guardDrops == 1
  {
    AskedIsDelivered(s, call);
    var events := s.shared.trace.events;
    var i: nat :| i < |events| && events[i] == Asked(call);
    assert FinishAsked(events);
    ReachableKeeps(s);
    ReleasedOnceNeverEarly(s);
    GuardFollowsTheFinish(s, SUBMITTER);
  }

  predicate RequestsFinish(step: Step) {
    (step.Begin? && step.call.Finish?) || (step.BodyReturns? && step.rejection.Some?)
  }

  // Operation, context and guard are released in a quiet run exactly when a finish or a rejection was
  // requested: detaches alone keep them.
  lemma ReleasedIffFinishRequested(steps: seq<Step>, s: System)
    requires Replay(INITIAL, steps) == Some(s) && Quiescent(s)
    ensures var finished := exists step <- steps :: RequestsFinish(step);
            s.shared.operation == s.shared.context == s.shared.access == !finished
  {
    ReachableKeeps(s);
    ReleasedOnceNeverEarly(s);
    GuardFollowsTheFinish(s, SUBMITTER);
    if step :| step in steps && RequestsFinish(step) {
      RequestIsAsked(steps, s, step, CallOf(step));
      AskedFinishReleases(s, CallOf(step));
    } else {
      var events := s.shared.trace.events;
      if FinishAsked(events) {
        var j: nat :| j < |events| && events[j].Asked? && events[j].call.Finish?;
        var call := events[j].call;
        AskedMeaning(events, call);
        OnlyDetachesDeferred(events, call);
        CallsAreAnswered(steps, s, call);
        RequestedMeaning(steps, call);
        assert false;
      }
    }
  }

  // -------- Every scenario has a run --------

  lemma {:induction false} ReplayConcat(s: System, a: seq<Step>, b: seq<Step>)
    requires Replay(s, a).Some?
    ensures Replay(s, a + b) == Replay(Replay(s, a).value, b)
    decreases |a|
  {
    if a == [] {
      assert a + b == b;
    } else {
      assert (a + b)[1..] == a[1..] + b;
      ReplayConcat(Next(s, a[0]).value, a[1..], b);
    }
  }

  lemma {:induction false} RequestedConcat(a: seq<Step>, b: seq<Step>, call: Call)
    ensures Requested(a + b, call) == Requested(a, call) + Requested(b, call)
  {
    if a == [] {
      assert a + b == b;
    } else {
      assert (a + b)[1..] == a[1..] + b;
      RequestedConcat(a[1..], b, call);
    }
  }

  // Calls arriving one after the other while the body runs; each gets a thread of its own.
  function Begins(calls: seq<Call>, first: nat): seq<Step> {
    if calls == [] then [] else [Begin(first, calls[0])] + Begins(calls[1..], first + 1)
  }

  lemma {:induction false} BeginsRun(s: System, calls: seq<Call>, first: nat)
    requires !s.aborted && first > 0 && forall i <- s.frames :: i < first
    ensures Replay(s, Begins(calls, first)).Some?
    ensures var last := Replay(s, Begins(calls, first)).value;
            !last.aborted && last.stage == s.stage && s.frames.Keys <= last.frames.Keys
    ensures forall call :: Requested(Begins(calls, first), call) == multiset(calls)[call]
    decreases |calls|
  {
    if calls != [] {
      var next := Next(s, Begin(first, calls[0])).value;
      BeginsRun(next, calls[1..], first + 1);
      assert Begins(calls, first)[1..] == Begins(calls[1..], first + 1);
      assert calls == [calls[0]] + calls[1..];
    }
  }

  lemma {:induction false} NothingRequestedAfterBody(s: System, steps: seq<Step>)
    requires SUBMITTER in s.frames && !s.stage.Body? && Replay(s, steps).Some?
    requires forall step <- steps :: !step.Begin?
    ensures forall call :: Requested(steps, call) == 0
    decreases |steps|
  {
    if steps != [] {
      var next := Next(s, steps[0]).value;
      assert steps[0] in steps && forall later <- steps[1..] :: later in steps;
      NothingRequestedAfterBody(next, steps[1..]);
    }
  }

  // Whatever is called while the body runs and however the body returns, there is such a run, and it ends
  // quiet or in the abort of a rejection.
  lemma EveryScenarioRuns(calls: seq<Call>, rejection: Option<int>) returns (steps: seq<Step>, s: System)
    ensures Replay(INITIAL, steps) == Some(s) && (s.aborted || Quiescent(s))
    ensures forall call ::
              Requested(steps, call) ==
              multiset(calls)[call] + One(rejection.Some? && call == Finish(Failure(rejection.value)))
  {
    hide Quiescent;
    var begun := Begins(calls, 1);
    BeginsRun(INITIAL, calls, 1);
    var body := Replay(INITIAL, begun).value;
    var returned := Next(body, BodyReturns(rejection)).value;
    assert Replay(returned, [BodyReturns(rejection)][1..]) == Some(returned);
    ReplayConcat(INITIAL, begun, [BodyReturns(rejection)]);
    var rest := Settles(returned);
    ReplayConcat(INITIAL, begun + [BodyReturns(rejection)], rest);
    NothingRequestedAfterBody(returned, rest);
    steps := begun + [BodyReturns(rejection)] + rest;
    s := Replay(returned, rest).value;
    forall call ensures Requested(steps, call) ==
      multiset(calls)[call] + One(rejection.Some? && call == Finish(Failure(rejection.value)))
    {
      RequestedConcat(begun, [BodyReturns(rejection)], call);
      RequestedConcat(begun + [BodyReturns(rejection)], rest, call);
      assert [BodyReturns(rejection)][1..] == [];
    }
  }
}
