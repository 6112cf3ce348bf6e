/**
 The completion protocol of one asynchronous operation.

 `Shared` is the control block every copied token points to.  A call of `finish`, `detach` or
 `cleanup` is a `Frame`: the program point it has reached.  `DeliverStep` executes one critical
 section or one unlocked action, so other calls may run between any two steps.
 */
module Async {
  import opened Wrappers

  datatype Completion = Success(value: int) | Failure(error: int)

  // What a token asks for.
  datatype Call = Finish(result: Completion) | Detach(error: int) {
    function Outcome(): Completion {
      match this
      case Finish(result) => result
      case Detach(error) => Failure(error)
    }
  }

  // Critical sections that decide the outcome, in the order the lock was taken.
  datatype Event = Asked(call: Call) | SubmissionEnded

  // Where a frame stands.  `guard` says the frame holds the access guard it moved out of the slot.
  datatype Frame =
    | Enter(call: Call)
    | TakeHandler(result: Completion, guard: bool)
    | DropGuard(callback: Option<Completion>, guard: bool)
    | Invoke(result: Completion)
    | Claim
    | ResetOperation
    | ResetContext
    | Done

  // What an observer outside the lock sees happen, and who did it.
  datatype Trace = Trace(
    events: seq<Event>,
    invoked: seq<Completion>,
    claimed: nat,
    claimant: nat,
    retirer: nat,
    cleaner: nat,
    guardDrops: nat,
    operationResets: nat,
    contextResets: nat)

  datatype Shared = Shared(
    delivered: bool,
    retired: bool,
    submitting: bool,
    cleaned: bool,
    pendingDetach: Option<int>,
    operation: bool,
    context: bool,
    access: bool,
    handler: bool,
    trace: Trace)

  const FRESH_TRACE := Trace([], [], 0, 0, 0, 0, 0, 0, 0)

  const FRESH := Shared(false, false, true, false, None, true, true, true, true, FRESH_TRACE)

  function Logged(s: Shared, call: Call): Shared {
    s.(trace := s.trace.(events := s.trace.events + [Asked(call)]))
  }

  function Recorded(s: Shared, error: int): Shared {
    if s.pendingDetach.None? then s.(pendingDetach := Some(error)) else s
  }

  function Retired(s: Shared, me: nat): Shared {
    s.(retired := true, access := false, trace := s.trace.(retirer := me))
  }

  function Claimed(s: Shared, me: nat, event: nat): Shared {
    s.(delivered := true, trace := s.trace.(claimed := event, claimant := me))
  }

  // The first critical section of `deliver`.
  function EnterStep(s: Shared, me: nat, call: Call): (Shared, Frame) {
    if call.Detach? && s.submitting then
      (Recorded(Logged(s, call), call.error), Done)
    else if call.Finish? && s.retired then
      (Logged(s, call), Done)
    else
      var entered := if call.Finish? then Retired(Logged(s, call), me) else Logged(s, call);
      if s.delivered then
        (entered, DropGuard(None, call.Finish?))
      else
        (Claimed(entered, me, |s.trace.events|), TakeHandler(call.Outcome(), call.Finish?))
  }

  // One step of a frame run by thread `me`.
  function DeliverStep(s: Shared, me: nat, frame: Frame): (Shared, Frame) {
    match frame
    case Enter(call) => EnterStep(s, me, call)
    case TakeHandler(result, guard) => (s.(handler := false), DropGuard(Some(result), guard))
    case DropGuard(callback, guard) =>
      (if guard then s.(trace := s.trace.(guardDrops := s.trace.guardDrops + 1)) else s,
       if callback.Some? then Invoke(callback.value) else Claim)
    case Invoke(result) => (s.(trace := s.trace.(invoked := s.trace.invoked + [result])), Claim)
    case Claim =>
      if !s.retired || s.submitting || s.cleaned then (s, Done)
      else (s.(cleaned := true, trace := s.trace.(cleaner := me)), ResetOperation)
    case ResetOperation =>
      (s.(operation := false, trace := s.trace.(operationResets := s.trace.operationResets + 1)), ResetContext)
    case ResetContext =>
      (s.(context := false, trace := s.trace.(contextResets := s.trace.contextResets + 1)), Done)
    case Done => (s, Done)
  }

  // The critical section of `submitted`, and the frame the submitter goes on with.
  function SubmittedStep(s: Shared): (Shared, Option<int>) {
    (s.(submitting := false, pendingDetach := None,
        trace := s.trace.(events := s.trace.events + [SubmissionEnded])),
     s.pendingDetach)
  }

  // Steps a frame has left, at most.
  function Work(frame: Frame): nat {
    match frame
    case Enter(_) => 7
    case TakeHandler(_, _) => 6
    case DropGuard(_, _) => 5
    case Invoke(_) => 4
    case Claim => 3
    case ResetOperation => 2
    case ResetContext => 1
    case Done => 0
  }

  lemma DeliverStepWorks(s: Shared, me: nat, frame: Frame)
    requires !frame.Done?
    ensures Work(DeliverStep(s, me, frame).1) < Work(frame)
  {
  }

  // A frame run to its end with nothing in between.
  function RunAlone(s: Shared, me: nat, frame: Frame): Shared
    decreases Work(frame)
  {
    if frame.Done? then s else
    DeliverStepWorks(s, me, frame);
    var (next, rest) := DeliverStep(s, me, frame);
    RunAlone(next, me, rest)
  }
}
