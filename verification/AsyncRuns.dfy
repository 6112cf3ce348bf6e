/**
 Every interleaving of one submission with any number of `finish` and `detach` calls.

 A run is a list of steps; `After` replays it.  Thread 0 is the submitting thread, which executes
 the operation body, may reject, and then calls `submitted`.  Every other number is one call made
 through a copied token, by whichever thread, at any moment.
 */
module AsyncRuns {
  import opened Wrappers
  import opened Async

  const SUBMITTER: nat := 0

  // What the submitting thread does once its current frame is done.
  datatype Stage = Body | RejectCheck(error: int) | BeforeSubmitted | Deferred | Closing

  datatype System = System(
    shared: Shared,
    frames: map<nat, Frame>,
    stage: Stage,
    rejected: bool,
    aborted: bool)

  datatype Step = Begin(id: nat, call: Call) | BodyReturns(rejection: Option<int>) | Advance(who: nat)

  const INITIAL := System(FRESH, map[SUBMITTER := Done], Body, false, false)

  // The submitter's next action between two frames.
  function SubmitterStep(s: System): Option<System>
    requires SUBMITTER in s.frames && s.frames[SUBMITTER].Done?
  {
    match s.stage
    case Body => None
    case RejectCheck(error) =>
      if s.shared.retired then
        Some(s.(aborted := true))
      else
        Some(s.(frames := s.frames[SUBMITTER := Enter(Finish(Failure(error)))],
                stage := BeforeSubmitted, rejected := true))
    case BeforeSubmitted =>
      var (shared, deferred) := SubmittedStep(s.shared);
      if deferred.Some? then
        Some(s.(shared := shared, stage := Deferred, frames := s.frames[SUBMITTER := Enter(Detach(deferred.value))]))
      else
        Some(s.(shared := shared, stage := Closing, frames := s.frames[SUBMITTER := Claim]))
    case Deferred => Some(s.(stage := Closing, frames := s.frames[SUBMITTER := Claim]))
    case Closing => None
  }

  function Next(s: System, step: Step): Option<System> {
    if s.aborted then None else
    match step
    case Begin(id, call) =>
      if id == SUBMITTER || id in s.frames then None else Some(s.(frames := s.frames[id := Enter(call)]))
    case BodyReturns(rejection) =>
      if !s.stage.Body? then None
      else Some(s.(stage := if rejection.Some? then RejectCheck(rejection.value) else BeforeSubmitted))
    case Advance(who) =>
      if who !in s.frames then None
      else if !s.frames[who].Done? then
        var (shared, frame) := DeliverStep(s.shared, who, s.frames[who]);
        Some(s.(shared := shared, frames := s.frames[who := frame]))
      else if who == SUBMITTER then SubmitterStep(s)
      else None
  }

  // The state a run ends in, if every step of it was possible.
  function Replay(s: System, steps: seq<Step>): Option<System>
    decreases |steps|
  {
    if steps == [] then Some(s) else
    var next := Next(s, steps[0]);
    if next.None? then None else Replay(next.value, steps[1..])
  }

  ghost predicate Reachable(s: System) {
    exists steps: seq<Step> :: Replay(INITIAL, steps) == Some(s)
  }

  // Nothing is left to do for the calls made so far, and `start` has returned.
  predicate Quiescent(s: System) {
    !s.aborted && s.stage.Closing? && forall i <- s.frames :: s.frames[i].Done?
  }

  // -------- What frames hold --------

  function CallbackOf(frame: Frame): Option<Completion> {
    match frame
    case TakeHandler(result, _) => Some(result)
    case DropGuard(callback, _) => callback
    case Invoke(result) => Some(result)
    case _ => None
  }

  predicate HoldsGuard(frame: Frame) {
    (frame.TakeHandler? && frame.guard) || (frame.DropGuard? && frame.guard)
  }

  predicate OwesClaim(frame: Frame) {
    frame.TakeHandler? || frame.DropGuard? || frame.Invoke? || frame.Claim?
  }

  predicate Releasing(frame: Frame) {
    frame.ResetOperation? || frame.ResetContext?
  }

  // -------- The invariant, one concern at a time --------

  // The handler is invoked once, by the frame that set `delivered`, with the result that set it.
  ghost predicate DeliveryInv(s: System) {
    var t := s.shared.trace;
    && (s.shared.delivered ==> t.claimed < |t.events| && t.events[t.claimed].Asked?)
    && (forall i <- s.frames :: CallbackOf(s.frames[i]).Some? ==>
          s.shared.delivered && i == t.claimant && t.invoked == []
          && CallbackOf(s.frames[i]).value == t.events[t.claimed].call.Outcome())
    && (t.invoked != [] ==> s.shared.delivered && t.invoked == [t.events[t.claimed].call.Outcome()])
    && (s.shared.delivered && t.invoked == [] ==>
          t.claimant in s.frames && CallbackOf(s.frames[t.claimant]).Some?)
    && (s.shared.handler <==>
          !s.shared.delivered || (t.claimant in s.frames && s.frames[t.claimant].TakeHandler?))
  }

  // The access guard leaves its slot when a finish retires and is dropped once, by that finish.
  ghost predicate GuardInv(s: System) {
    var t := s.shared.trace;
    && (s.shared.access <==> !s.shared.retired)
    && t.guardDrops <= 1
    && (t.guardDrops == 1 ==> s.shared.retired)
    && (forall i <- s.frames :: HoldsGuard(s.frames[i]) ==>
          s.shared.retired && i == t.retirer && t.guardDrops == 0)
    && (s.shared.retired && t.guardDrops == 0 ==> t.retirer in s.frames && HoldsGuard(s.frames[t.retirer]))
  }

  // While the operation is retired and submission is over, someone still owes the cleanup claim.
  ghost predicate CleanupInv(s: System)
    requires SUBMITTER in s.frames
  {
    var t := s.shared.trace;
    && (s.shared.cleaned ==> s.shared.retired && !s.shared.submitting)
    && (s.shared.retired && !s.shared.submitting && !s.shared.cleaned ==>
          || (t.retirer in s.frames && OwesClaim(s.frames[t.retirer]))
          || s.stage.Deferred?
          || (s.stage.Closing? && s.frames[SUBMITTER].Claim?))
    && (forall i <- s.frames :: Releasing(s.frames[i]) ==> s.shared.cleaned && i == t.cleaner)
    && (s.shared.operation <==>
          !s.shared.cleaned || (t.cleaner in s.frames && s.frames[t.cleaner].ResetOperation?))
    && (s.shared.context <==>
          !s.shared.cleaned || (t.cleaner in s.frames && Releasing(s.frames[t.cleaner])))
    && t.operationResets == (if s.shared.operation then 0 else 1)
    && t.contextResets == (if s.shared.context then 0 else 1)
  }

  // How the submitter's stage and the shared flags go together.
  ghost predicate StageInv(s: System) {
    && SUBMITTER in s.frames
    && (s.shared.retired ==> s.shared.delivered)
    && (s.shared.submitting <==> s.stage.Body? || s.stage.RejectCheck? || s.stage.BeforeSubmitted?)
    && (s.stage.Body? || s.stage.RejectCheck? ==> s.frames[SUBMITTER].Done? && !s.rejected)
    && (s.stage.BeforeSubmitted? && s.frames[SUBMITTER].Enter? ==> s.frames[SUBMITTER].call.Finish?)
    && (s.stage.Closing? ==> s.frames[SUBMITTER].Done? || s.frames[SUBMITTER].Claim? || Releasing(s.frames[SUBMITTER]))
    && (s.shared.pendingDetach.Some? ==> s.shared.submitting)
    && (s.aborted ==> s.stage.RejectCheck? && s.shared.retired)
  }

  // A call was made or the submission was rejected.
  ghost predicate Provoked(s: System) {
    s.rejected || exists i <- s.frames :: i != SUBMITTER
  }

  lemma ProvokedStays(s: System, next: System)
    requires Provoked(s) && s.frames.Keys <= next.frames.Keys && (s.rejected ==> next.rejected)
    ensures Provoked(next)
  {
    if !s.rejected {
      var i :| i in s.frames && i != SUBMITTER;
      assert i in next.frames;
    }
  }

  // No call that has passed its critical section is forgotten, and nothing happens without a cause.
  ghost predicate ProgressInv(s: System)
    requires SUBMITTER in s.frames
  {
    && ((exists i <- s.frames :: i != SUBMITTER && !s.frames[i].Enter?) ==>
          || s.shared.delivered
          || s.shared.pendingDetach.Some?
          || (s.stage.Deferred? && s.frames[SUBMITTER].Enter?))
    && (s.rejected ==> s.shared.retired || (s.stage.BeforeSubmitted? && s.frames[SUBMITTER].Enter?))
    && (s.stage.Deferred? ==> s.shared.delivered || s.frames[SUBMITTER].Enter?)
    && (s.shared.delivered || s.shared.pendingDetach.Some? || s.frames[SUBMITTER].Enter? ==> Provoked(s))
  }

  // -------- The outcome as the lock order decides it --------

  ghost predicate Ended(events: seq<Event>, before: nat)
    requires before <= |events|
  {
    exists j: nat | j < before :: events[j] == SubmissionEnded
  }

  // A finish always decides; a detach decides only after submission has ended.
  ghost predicate Decides(events: seq<Event>, i: nat)
    requires i < |events|
  {
    events[i].Asked? && (events[i].call.Finish? || Ended(events, i))
  }

  ghost predicate FirstToDecide(events: seq<Event>, i: nat) {
    i < |events| && Decides(events, i) && forall j: nat | j < i :: !Decides(events, j)
  }

  // The error of the first detach among the events.
  function FirstDetach(events: seq<Event>): Option<int> {
    if events == [] then None
    else if events[0].Asked? && events[0].call.Detach? then Some(events[0].call.error)
    else FirstDetach(events[1..])
  }

  ghost predicate FinishAsked(events: seq<Event>) {
    exists j: nat | j < |events| :: events[j].Asked? && events[j].call.Finish?
  }

  lemma FinishAskedAppend(events: seq<Event>, e: Event)
    ensures FinishAsked(events + [e]) <==> FinishAsked(events) || (e.Asked? && e.call.Finish?)
  {
    var longer := events + [e];
    assert forall j: nat | j < |events| :: longer[j] == events[j];
    if FinishAsked(events) {
      var j: nat :| j < |events| && events[j].Asked? && events[j].call.Finish?;
      assert longer[j].Asked? && longer[j].call.Finish?;
    }
    if e.Asked? && e.call.Finish? {
      assert longer[|events|].Asked? && longer[|events|].call.Finish?;
    }
  }

  ghost predicate OutcomeInv(s: System) {
    var t := s.shared.trace;
    && (s.shared.submitting <==> !Ended(t.events, |t.events|))
    && (s.shared.delivered ==> FirstToDecide(t.events, t.claimed))
    && (!s.shared.delivered ==> forall j: nat | j < |t.events| :: !Decides(t.events, j))
    && (s.shared.submitting ==> s.shared.pendingDetach == FirstDetach(t.events))
    && (s.shared.retired <==> FinishAsked(t.events))
  }

  // A detach recorded while submission was running comes back once submission has ended; until then
  // `waiting` is the frame that brings it.
  ghost predicate Redelivered(events: seq<Event>, waiting: Frame, k: nat)
    requires k < |events|
  {
    FirstDetach(events[..k]).Some? ==>
      var again := Detach(FirstDetach(events[..k]).value);
      waiting == Enter(again) || exists m: nat | k < m < |events| :: events[m] == Asked(again)
  }

  function Waiting(s: System): Frame
    requires SUBMITTER in s.frames
  {
    if s.stage.Deferred? then s.frames[SUBMITTER] else Done
  }

  ghost predicate RedeliveryInv(s: System)
    requires SUBMITTER in s.frames
  {
    var events := s.shared.trace.events;
    forall k: nat | k < |events| && events[k] == SubmissionEnded :: Redelivered(events, Waiting(s), k)
  }

  ghost predicate Inv(s: System) {
    && StageInv(s) && DeliveryInv(s) && GuardInv(s) && CleanupInv(s)
    && ProgressInv(s) && OutcomeInv(s) && RedeliveryInv(s)
  }

  lemma {:induction false} FirstDetachAppend(events: seq<Event>, e: Event)
    ensures FirstDetach(events + [e]) ==
            if FirstDetach(events).Some? then FirstDetach(events) else FirstDetach([e])
  {
    if events == [] {
      assert events + [e] == [e];
    } else {
      assert (events + [e])[1..] == events[1..] + [e];
      FirstDetachAppend(events[1..], e);
    }
  }

  // Appending an event does not change who decided among the earlier ones.
  lemma DecidesAppend(events: seq<Event>, e: Event, i: nat)
    requires i < |events|
    ensures Decides(events + [e], i) <==> Decides(events, i)
  {
    var longer := events + [e];
    assert forall j: nat | j < i :: longer[j] == events[j];
    assert Ended(longer, i) <==> Ended(events, i);
  }

  lemma EndedAppend(events: seq<Event>, e: Event)
    ensures Ended(events + [e], |events| + 1) <==> Ended(events, |events|) || e == SubmissionEnded
    ensures Ended(events + [e], |events|) <==> Ended(events, |events|)
  {
    var longer := events + [e];
    assert forall j: nat | j < |events| :: longer[j] == events[j];
    if e == SubmissionEnded {
      assert longer[|events|] == SubmissionEnded;
    }
    if Ended(events, |events|) {
      var j: nat :| j < |events| && events[j] == SubmissionEnded;
      assert longer[j] == SubmissionEnded;
    }
  }

  // -------- Preservation --------

  lemma BeginKeeps(s: System, step: Step)
    requires Inv(s) && step.Begin? && Next(s, step).Some?
    ensures Inv(Next(s, step).value)
  {
    assert step.id in Next(s, step).value.frames;
  }

  lemma BodyReturnsKeeps(s: System, step: Step)
    requires Inv(s) && step.BodyReturns? && Next(s, step).Some?
    ensures Inv(Next(s, step).value)
  {
  }

  ghost predicate FrameMoves(s: System, who: nat) {
    SUBMITTER in s.frames && !s.aborted && who in s.frames && !s.frames[who].Done?
  }

  function Moved(s: System, who: nat): System
    requires who in s.frames
  {
    var (shared, frame) := DeliverStep(s.shared, who, s.frames[who]);
    s.(shared := shared, frames := s.frames[who := frame])
  }

  lemma FrameKeepsStage(s: System, who: nat)
    requires FrameMoves(s, who) && StageInv(s)
    ensures StageInv(Moved(s, who))
  {
    match s.frames[who] {
      case Enter(call) =>
        if call.Detach? && s.shared.submitting {
        } else if call.Finish? && s.shared.retired {
        } else {
        }
      case _ =>
    }
  }

  lemma EnterKeepsDelivery(s: System, who: nat)
    requires FrameMoves(s, who) && s.frames[who].Enter? && DeliveryInv(s)
    ensures DeliveryInv(Moved(s, who))
  {
    var call := s.frames[who].call;
    if call.Detach? && s.shared.submitting {
    } else if call.Finish? && s.shared.retired {
    } else if s.shared.delivered {
    } else {
    }
  }

  lemma FrameKeepsDelivery(s: System, who: nat)
    requires FrameMoves(s, who) && DeliveryInv(s)
    ensures DeliveryInv(Moved(s, who))
  {
    match s.frames[who] {
      case Enter(_) => EnterKeepsDelivery(s, who);
      case TakeHandler(_, _) =>
      case DropGuard(_, _) =>
      case Invoke(_) =>
      case Claim =>
      case _ =>
    }
  }

  lemma EnterKeepsGuard(s: System, who: nat)
    requires FrameMoves(s, who) && s.frames[who].Enter? && GuardInv(s)
    ensures GuardInv(Moved(s, who))
  {
    var call := s.frames[who].call;
    if call.Detach? && s.shared.submitting {
    } else if call.Finish? && s.shared.retired {
    } else if s.shared.delivered {
    } else {
    }
  }

  lemma FrameKeepsGuard(s: System, who: nat)
    requires FrameMoves(s, who) && GuardInv(s)
    ensures GuardInv(Moved(s, who))
  {
    match s.frames[who] {
      case Enter(_) => EnterKeepsGuard(s, who);
      case TakeHandler(_, _) =>
      case DropGuard(_, _) =>
      case Invoke(_) =>
      case Claim =>
      case _ =>
    }
  }

  lemma EnterKeepsCleanup(s: System, who: nat)
    requires FrameMoves(s, who) && s.frames[who].Enter? && StageInv(s) && CleanupInv(s)
    ensures CleanupInv(Moved(s, who))
  {
    var call := s.frames[who].call;
    if call.Detach? && s.shared.submitting {
    } else if call.Finish? && s.shared.retired {
    } else if s.shared.delivered {
    } else {
    }
  }

  lemma FrameKeepsCleanup(s: System, who: nat)
    requires FrameMoves(s, who) && StageInv(s) && CleanupInv(s)
    ensures CleanupInv(Moved(s, who))
  {
    match s.frames[who] {
      case Enter(_) => EnterKeepsCleanup(s, who);
      case TakeHandler(_, _) =>
      case DropGuard(_, _) =>
      case Invoke(_) =>
      case Claim =>
      case _ =>
    }
  }

  lemma FrameKeepsProgress(s: System, who: nat)
    requires FrameMoves(s, who) && StageInv(s) && ProgressInv(s)
    ensures ProgressInv(Moved(s, who))
  {
    if Provoked(s) {
      ProvokedStays(s, Moved(s, who));
    }
    assert who in Moved(s, who).frames;
    match s.frames[who] {
      case Enter(call) =>
        if call.Detach? && s.shared.submitting {
        } else if call.Finish? && s.shared.retired {
        } else if s.shared.delivered {
        } else {
        }
      case TakeHandler(_, _) =>
      case DropGuard(_, _) =>
      case Invoke(_) =>
      case Claim =>
      case _ =>
    }
  }

  // Only the first critical section of `deliver` can change who decides.
  lemma LaterStepsDecideNothing(s: System, who: nat)
    requires who in s.frames && !s.frames[who].Enter?
    ensures var (a, b) := (s.shared, Moved(s, who).shared);
            && a.trace.events == b.trace.events && a.trace.claimed == b.trace.claimed
            && a.delivered == b.delivered && a.retired == b.retired && a.submitting == b.submitting
            && a.pendingDetach == b.pendingDetach
  {
    match s.frames[who] {
      case TakeHandler(_, _) =>
      case DropGuard(_, _) =>
      case Invoke(_) =>
      case Claim =>
      case ResetOperation =>
      case _ =>
    }
  }

  lemma EnterKeepsOutcome(s: System, who: nat)
    requires FrameMoves(s, who) && s.frames[who].Enter? && StageInv(s) && OutcomeInv(s)
    ensures OutcomeInv(Moved(s, who))
  {
    var call := s.frames[who].call;
    var events, e := s.shared.trace.events, Asked(call);
    EndedAppend(events, e);
    FirstDetachAppend(events, e);
    FinishAskedAppend(events, e);
    forall i: nat | i < |events| ensures Decides(events + [e], i) <==> Decides(events, i) {
      DecidesAppend(events, e, i);
    }
    EnterLogs(s, who);
    if call.Detach? && s.shared.submitting {
    } else if call.Finish? && s.shared.retired {
    } else if s.shared.delivered {
    } else {
      assert Decides(events + [e], |events|);
    }
  }

  lemma FrameKeepsOutcome(s: System, who: nat)
    requires FrameMoves(s, who) && StageInv(s) && OutcomeInv(s)
    ensures OutcomeInv(Moved(s, who))
  {
    if s.frames[who].Enter? {
      EnterKeepsOutcome(s, who);
    } else {
      LaterStepsDecideNothing(s, who);
    }
  }

  // A redelivered detach stays so as events are added, and entering is what redelivers it.
  lemma RedeliveryStays(events: seq<Event>, waiting: Frame, later: seq<Event>, next: Frame, k: nat)
    requires k < |events| && Redelivered(events, waiting, k) && events <= later
    requires waiting == next || (waiting.Enter? ==> later == events + [Asked(waiting.call)])
    ensures Redelivered(later, next, k)
  {
    assert later[..k] == events[..k];
    if FirstDetach(events[..k]).Some? {
      var again := Detach(FirstDetach(events[..k]).value);
      if waiting == Enter(again) {
        if waiting != next {
          assert later[|events|] == Asked(again);
        }
      } else {
        var m: nat :| k < m < |events| && events[m] == Asked(again);
        assert later[m] == Asked(again);
      }
    }
  }

  lemma EnterLogs(s: System, who: nat)
    requires who in s.frames && s.frames[who].Enter?
    ensures Moved(s, who).shared.trace.events == s.shared.trace.events + [Asked(s.frames[who].call)]
  {
    var call := s.frames[who].call;
    if call.Detach? && s.shared.submitting {
    } else if call.Finish? && s.shared.retired {
    } else if s.shared.delivered {
    } else {
    }
  }

  lemma FrameKeepsRedelivery(s: System, who: nat)
    requires FrameMoves(s, who) && RedeliveryInv(s)
    ensures RedeliveryInv(Moved(s, who))
  {
    var next := Moved(s, who);
    var events, later := s.shared.trace.events, next.shared.trace.events;
    if s.frames[who].Enter? {
      EnterLogs(s, who);
    } else {
      LaterStepsDecideNothing(s, who);
    }
    forall k: nat | k < |later| && later[k] == SubmissionEnded ensures Redelivered(later, Waiting(next), k) {
      RedeliveryStays(events, Waiting(s), later, Waiting(next), k);
    }
  }

  lemma FrameKeeps(s: System, who: nat)
    requires FrameMoves(s, who) && Inv(s)
    ensures Inv(Moved(s, who))
  {
    FrameKeepsStage(s, who);
    FrameKeepsDelivery(s, who);
    FrameKeepsGuard(s, who);
    FrameKeepsCleanup(s, who);
    FrameKeepsProgress(s, who);
    FrameKeepsOutcome(s, who);
    FrameKeepsRedelivery(s, who);
  }

  ghost predicate SubmitterMoves(s: System) {
    StageInv(s) && !s.aborted && s.frames[SUBMITTER].Done? && SubmitterStep(s).Some?
  }

  lemma SubmitterKeepsDelivery(s: System)
    requires SubmitterMoves(s) && DeliveryInv(s)
    ensures DeliveryInv(SubmitterStep(s).value)
  {
  }

  lemma SubmitterKeepsGuardAndCleanup(s: System)
    requires SubmitterMoves(s) && GuardInv(s) && CleanupInv(s)
    ensures StageInv(SubmitterStep(s).value)
    ensures GuardInv(SubmitterStep(s).value) && CleanupInv(SubmitterStep(s).value)
  {
  }

  lemma SubmitterKeepsProgress(s: System)
    requires SubmitterMoves(s) && ProgressInv(s)
    ensures StageInv(SubmitterStep(s).value) && ProgressInv(SubmitterStep(s).value)
  {
    if Provoked(s) {
      ProvokedStays(s, SubmitterStep(s).value);
    }
  }

  lemma SubmitterKeepsOutcome(s: System)
    requires SubmitterMoves(s) && OutcomeInv(s)
    ensures OutcomeInv(SubmitterStep(s).value)
  {
    if s.stage.BeforeSubmitted? {
      var events := s.shared.trace.events;
      EndedAppend(events, SubmissionEnded);
      FinishAskedAppend(events, SubmissionEnded);
      forall i: nat | i < |events| ensures Decides(events + [SubmissionEnded], i) <==> Decides(events, i) {
        DecidesAppend(events, SubmissionEnded, i);
      }
    }
  }

  lemma SubmitterKeepsRedelivery(s: System)
    requires SubmitterMoves(s) && ProgressInv(s) && OutcomeInv(s) && RedeliveryInv(s)
    ensures StageInv(SubmitterStep(s).value) && RedeliveryInv(SubmitterStep(s).value)
  {
    var next := SubmitterStep(s).value;
    var events, later := s.shared.trace.events, next.shared.trace.events;
    forall k: nat | k < |later| && later[k] == SubmissionEnded ensures Redelivered(later, Waiting(next), k) {
      assert later[..k] == events[..k];
      if s.stage.BeforeSubmitted? {
        assert k == |events| && events[..k] == events;
      } else {
        assert Redelivered(events, Waiting(s), k);
      }
    }
  }

  lemma SubmitterKeeps(s: System)
    requires SubmitterMoves(s) && Inv(s)
    ensures Inv(SubmitterStep(s).value)
  {
    SubmitterKeepsDelivery(s);
    SubmitterKeepsGuardAndCleanup(s);
    SubmitterKeepsProgress(s);
    SubmitterKeepsOutcome(s);
    SubmitterKeepsRedelivery(s);
  }

  lemma NextKeeps(s: System, step: Step)
    requires Inv(s) && Next(s, step).Some?
    ensures Inv(Next(s, step).value)
  {
    match step {
      case Begin(_, _) => BeginKeeps(s, step);
      case BodyReturns(_) => BodyReturnsKeeps(s, step);
      case Advance(who) =>
        if s.frames[who].Done? {
          SubmitterKeeps(s);
        } else {
          FrameKeeps(s, who);
        }
    }
  }

  lemma InitialKeeps()
    ensures Inv(INITIAL)
  {
  }

  lemma {:induction false} ReplayKeeps(s: System, steps: seq<Step>)
    requires Inv(s) && Replay(s, steps).Some?
    ensures Inv(Replay(s, steps).value)
    decreases |steps|
  {
    if steps != [] {
      NextKeeps(s, steps[0]);
      ReplayKeeps(Next(s, steps[0]).value, steps[1..]);
    }
  }

  lemma ReachableKeeps(s: System)
    requires Reachable(s)
    ensures Inv(s)
  {
    var steps :| Replay(INITIAL, steps) == Some(s);
    InitialKeeps();
    ReplayKeeps(INITIAL, steps);
  }

  // -------- Main results --------

  // In no interleaving is the handler invoked twice, and what it is given is decided by lock order.
  lemma HandlerAtMostOnce(s: System)
    requires Reachable(s)
    ensures var t := s.shared.trace;
            t.invoked == []
            || exists i: nat :: FirstToDecide(t.events, i) && t.invoked == [t.events[i].call.Outcome()]
  {
    ReachableKeeps(s);
    assert s.shared.delivered ==> FirstToDecide(s.shared.trace.events, s.shared.trace.claimed);
  }

  // Once everything is quiet the handler has run exactly when anybody asked for it.
  lemma NothingIsLost(s: System)
    requires Reachable(s) && Quiescent(s)
    ensures var t := s.shared.trace;
            if Provoked(s)
            then exists i: nat :: FirstToDecide(t.events, i) && t.invoked == [t.events[i].call.Outcome()]
            else t.invoked == []
  {
    ReachableKeeps(s);
    var t := s.shared.trace;
    if Provoked(s) {
      assert s.shared.delivered;
      assert t.invoked != [];
      HandlerAtMostOnce(s);
    }
  }

  // A detach recorded during submission is asked again after it, with the first recorded error.
  lemma RecordedDetachReturns(s: System, k: nat)
    requires Reachable(s) && Quiescent(s)
    requires k < |s.shared.trace.events| && s.shared.trace.events[k] == SubmissionEnded
    requires FirstDetach(s.shared.trace.events[..k]).Some?
    ensures var events := s.shared.trace.events;
            exists m: nat | k < m < |events| :: events[m] == Asked(Detach(FirstDetach(events[..k]).value))
  {
    ReachableKeeps(s);
    assert Redelivered(s.shared.trace.events, Waiting(s), k);
  }

  // Operation and context are released once, only after a finish retired and submission ended, and
  // are never left behind.
  lemma ReleasedOnceNeverEarly(s: System)
    requires Reachable(s)
    ensures s.shared.trace.operationResets == if s.shared.operation then 0 else 1
    ensures s.shared.trace.contextResets == if s.shared.context then 0 else 1
    ensures !s.shared.operation || !s.shared.context ==>
              FinishAsked(s.shared.trace.events) && SubmissionEnded in s.shared.trace.events
              && !s.stage.Body? && !s.stage.RejectCheck?
    ensures Quiescent(s) ==>
              && (s.shared.retired <==> s.shared.cleaned)
              && (s.shared.retired <==> !s.shared.operation)
              && (s.shared.retired <==> !s.shared.context)
  {
    ReachableKeeps(s);
  }

  // The guard stays until a finish retires, is dropped once, and is gone when that finish's own
  // handler call starts.
  lemma GuardFollowsTheFinish(s: System, who: nat)
    requires Reachable(s) && who in s.frames
    ensures s.shared.access <==> !FinishAsked(s.shared.trace.events)
    ensures s.shared.trace.guardDrops <= 1
    ensures s.shared.trace.guardDrops == 1 ==> FinishAsked(s.shared.trace.events)
    ensures s.frames[who].Invoke? && s.shared.retired && s.shared.trace.retirer == who ==>
              s.shared.trace.guardDrops == 1
    ensures Quiescent(s) ==> (s.shared.trace.guardDrops == 1 <==> FinishAsked(s.shared.trace.events))
  {
    ReachableKeeps(s);
  }

  // A frame that entered as a detach neither takes the guard nor comes to hold it.
  lemma DetachLeavesTheGuard(s: System, who: nat)
    requires who in s.frames
    requires (s.frames[who].Enter? && s.frames[who].call.Detach?)
             || (!s.frames[who].Enter? && !HoldsGuard(s.frames[who]))
    ensures var next := Moved(s, who);
            && next.shared.access == s.shared.access
            && next.shared.retired == s.shared.retired
            && next.shared.trace.guardDrops == s.shared.trace.guardDrops
            && !next.frames[who].Enter? && !HoldsGuard(next.frames[who])
  {
    match s.frames[who] {
      case Enter(_) =>
        if s.shared.submitting {
        } else if s.shared.delivered {
        } else {
        }
      case DropGuard(_, _) =>
      case Claim =>
      case _ =>
    }
  }

  // A rejection aborts exactly when some finish took the lock before its check.  One that took it
  // between the check and the rejection's own critical section turns the rejection into nothing;
  // without one, the rejection itself retires, taking the guard.
  lemma RejectionAgainstFinish(s: System)
    requires Reachable(s) && !s.aborted
    ensures SUBMITTER in s.frames && (s.stage.RejectCheck? ==> s.frames[SUBMITTER].Done?)
    ensures s.stage.RejectCheck? ==>
              (Next(s, Advance(SUBMITTER)).value.aborted <==> FinishAsked(s.shared.trace.events))
    ensures s.stage.BeforeSubmitted? && s.frames[SUBMITTER].Enter? ==>
              var next := Next(s, Advance(SUBMITTER)).value;
              if FinishAsked(s.shared.trace.events) then
                next.shared == Logged(s.shared, s.frames[SUBMITTER].call) && next.frames == s.frames[SUBMITTER := Done]
              else
                next.shared.retired && next.shared.trace.retirer == SUBMITTER && HoldsGuard(next.frames[SUBMITTER])
  {
    ReachableKeeps(s);
  }

  // A run aborts only before submission ended and after a finish; a rejected submission that did not
  // abort ends retired, with everything released.
  lemma RejectionReleases(s: System)
    requires Reachable(s)
    ensures s.aborted ==> FinishAsked(s.shared.trace.events) && SubmissionEnded !in s.shared.trace.events && !s.rejected
    ensures Quiescent(s) && s.rejected ==>
              s.shared.retired && !s.shared.operation && !s.shared.context && s.shared.trace.guardDrops == 1
  {
    ReachableKeeps(s);
  }
}
