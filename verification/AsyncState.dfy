/**
 The control block itself, updated in place as the C++ methods do it.

 Each method is proved equal to a frame of `Async.DeliverStep` run alone, which ties the code to the
 steps whose interleavings `AsyncRuns` quantifies over.  `Start` is the submission of an operation
 whose body completes its tokens synchronously.
 */
module AsyncState {
  import opened Wrappers
  import opened Async

  function FirstFinish(script: seq<Call>): Option<Completion> {
    if script == [] then None
    else if script[0].Finish? then Some(script[0].result)
    else FirstFinish(script[1..])
  }

  function FirstDetachError(script: seq<Call>): Option<int> {
    if script == [] then None
    else if script[0].Detach? then Some(script[0].error)
    else FirstDetachError(script[1..])
  }

  // What the handler is given when the body makes the calls of `script` and then returns.
  function Expected(script: seq<Call>, rejection: Option<int>): seq<Completion> {
    if FirstFinish(script).Some? then [FirstFinish(script).value]
    else if rejection.Some? then [Failure(rejection.value)]
    else if FirstDetachError(script).Some? then [Failure(FirstDetachError(script).value)]
    else []
  }

  lemma {:induction false} FirstAppend(script: seq<Call>, call: Call)
    ensures FirstFinish(script + [call]) ==
            if FirstFinish(script).Some? then FirstFinish(script) else FirstFinish([call])
    ensures FirstDetachError(script + [call]) ==
            if FirstDetachError(script).Some? then FirstDetachError(script) else FirstDetachError([call])
  {
    if script == [] {
      assert script + [call] == [call];
    } else {
      assert (script + [call])[1..] == script[1..] + [call];
      FirstAppend(script[1..], call);
    }
  }

  lemma ClaimAlone(s: Shared, me: nat)
    ensures RunAlone(s, me, Claim) ==
            if !s.retired || s.submitting || s.cleaned then s
            else s.(cleaned := true, operation := false, context := false,
                    trace := s.trace.(cleaner := me, operationResets := s.trace.operationResets + 1,
                                      contextResets := s.trace.contextResets + 1))
  {
    var (s1, f1) := DeliverStep(s, me, Claim);
    assert RunAlone(s, me, Claim) == RunAlone(s1, me, f1);
    if f1.ResetOperation? {
      var (s2, f2) := DeliverStep(s1, me, f1);
      assert RunAlone(s1, me, f1) == RunAlone(s2, me, f2);
      var (s3, f3) := DeliverStep(s2, me, f2);
      assert RunAlone(s2, me, f2) == RunAlone(s3, me, f3);
    }
  }

  // The unlocked part of `deliver` up to its cleanup.
  function AfterEnter(s: Shared, frame: Frame): Shared
    requires frame.TakeHandler? || (frame.DropGuard? && frame.callback.None?)
  {
    var s1 := if frame.TakeHandler? then s.(handler := false) else s;
    var s2 := if frame.guard then s1.(trace := s1.trace.(guardDrops := s1.trace.guardDrops + 1)) else s1;
    if frame.TakeHandler? then s2.(trace := s2.trace.(invoked := s2.trace.invoked + [frame.result]))
    else s2
  }

  lemma AfterEnterAlone(s: Shared, me: nat, frame: Frame)
    requires frame.TakeHandler? || (frame.DropGuard? && frame.callback.None?)
    ensures RunAlone(s, me, frame) == RunAlone(AfterEnter(s, frame), me, Claim)
  {
    var (s1, f1) := if frame.TakeHandler? then DeliverStep(s, me, frame) else (s, frame);
    assert RunAlone(s, me, frame) == RunAlone(s1, me, f1);
    var (s2, f2) := DeliverStep(s1, me, f1);
    assert RunAlone(s1, me, f1) == RunAlone(s2, me, f2);
    if f2.Invoke? {
      var (s3, f3) := DeliverStep(s2, me, f2);
      assert RunAlone(s2, me, f2) == RunAlone(s3, me, f3);
    }
  }

  lemma DoneAlone(s: Shared, me: nat)
    ensures RunAlone(s, me, Done) == s
  {
  }

  lemma EnterLeaves(s: Shared, me: nat, call: Call)
    ensures var frame := EnterStep(s, me, call).1;
            frame.Done? || frame.TakeHandler? || (frame.DropGuard? && frame.callback.None?)
    ensures var (s1, frame) := EnterStep(s, me, call);
            RunAlone(s, me, Enter(call)) == RunAlone(s1, me, frame)
  {
  }

  class OperationState {
    var delivered: bool
    var retired: bool
    var submitting: bool
    var cleaned: bool
    var pendingDetach: Option<int>
    var operation: bool
    var context: bool
    var access: bool
    var handler: bool
    ghost var trace: Trace

    ghost function Model(): Shared
      reads this
    {
      Shared(delivered, retired, submitting, cleaned, pendingDetach, operation, context, access, handler, trace)
    }

    constructor ()
      ensures Model() == FRESH
    {
      delivered, retired, submitting, cleaned := false, false, true, false;
      pendingDetach := None;
      operation, context, access, handler := true, true, true, true;
      trace := FRESH_TRACE;
    }

    method Cleanup(ghost me: nat)
      modifies this
      ensures Model() == RunAlone(old(Model()), me, Claim)
    {
      ClaimAlone(Model(), me);
      if !retired || submitting || cleaned {
        return;
      }
      cleaned := true;
      operation := false;
      context := false;
      trace := trace.(cleaner := me, operationResets := trace.operationResets + 1,
                      contextResets := trace.contextResets + 1);
    }

    // The block of `deliver` under the mutex; the frame returned says what it left to do.
    method DeliverLocked(call: Call, ghost me: nat) returns (frame: Frame)
      modifies this
      ensures (Model(), frame) == EnterStep(old(Model()), me, call)
    {
      ghost var first := |trace.events|;
      trace := trace.(events := trace.events + [Asked(call)]);
      if call.Detach? && submitting {
        if pendingDetach.None? {
          pendingDetach := Some(call.error);
        }
        return Done;
      }
      if call.Finish? {
        if retired {
          return Done;
        }
        retired := true;
        access := false;
        trace := trace.(retirer := me);
      }
      if delivered {
        return DropGuard(None, call.Finish?);
      }
      delivered := true;
      trace := trace.(claimed := first, claimant := me);
      return TakeHandler(call.Outcome(), call.Finish?);
    }

    method Deliver(call: Call, ghost me: nat)
      modifies this
      ensures Model() == RunAlone(old(Model()), me, Enter(call))
    {
      hide RunAlone, AfterEnter, EnterStep;
      var frame := DeliverLocked(call, me);
      EnterLeaves(old(Model()), me, call);
      if frame.Done? {
        DoneAlone(Model(), me);
        return;
      }
      AfterEnterAlone(Model(), me, frame);
      RunUnlocked(frame);
      Cleanup(me);
    }

    // What `deliver` does between its critical section and its cleanup: take the handler out of its
    // slot, drop the guard, call the handler.
    method RunUnlocked(frame: Frame)
      requires frame.TakeHandler? || (frame.DropGuard? && frame.callback.None?)
      modifies `handler, `trace
      ensures Model() == AfterEnter(old(Model()), frame)
    {
      if frame.TakeHandler? {
        handler := false;
      }
      if frame.guard {
        trace := trace.(guardDrops := trace.guardDrops + 1);
      }
      if frame.TakeHandler? {
        trace := trace.(invoked := trace.invoked + [frame.result]);
      }
    }

    method Finish(result: Completion, ghost me: nat)
      modifies this
      ensures Model() == RunAlone(old(Model()), me, Enter(Call.Finish(result)))
    {
      Deliver(Call.Finish(result), me);
    }

    method Detach(error: int, ghost me: nat)
      modifies this
      ensures Model() == RunAlone(old(Model()), me, Enter(Call.Detach(error)))
    {
      Deliver(Call.Detach(error), me);
    }

    // `aborted` stands for the process ending in `require`.
    method Reject(error: int) returns (aborted: bool)
      modifies this
      ensures aborted == old(retired)
      ensures Model() == if aborted then old(Model())
                         else RunAlone(old(Model()), 0, Enter(Call.Finish(Failure(error))))
    {
      if retired {
        return true;
      }
      Finish(Failure(error), 0);
      return false;
    }

    method Submitted()
      modifies this
      ensures var (s, deferred) := SubmittedStep(old(Model()));
              Model() ==
              RunAlone(if deferred.Some? then RunAlone(s, 0, Enter(Call.Detach(deferred.value))) else s, 0, Claim)
    {
      var deferred := pendingDetach;
      submitting := false;
      pendingDetach := None;
      trace := trace.(events := trace.events + [SubmissionEnded]);
      if deferred.Some? {
        Detach(deferred.value, 0);
      }
      Cleanup(0);
    }

    // What holds between two calls made by the body: a finish is complete, a detach is only noted.
    ghost predicate During(script: seq<Call>)
      reads this
    {
      && submitting && !cleaned && operation && context
      && delivered == retired == FirstFinish(script).Some?
      && handler == access == !delivered
      && pendingDetach == FirstDetachError(script)
      && trace.invoked == (if FirstFinish(script).Some? then [FirstFinish(script).value] else [])
    }

    method BodyCalls(call: Call, ghost script: seq<Call>, ghost me: nat)
      requires During(script)
      modifies this
      ensures During(script + [call])
    {
      FirstAppend(script, call);
      ghost var s := Model();
      DuringAlone(s, me, call);
      Deliver(call, me);
    }

    // `static_invocation::start` with a body that completes its tokens before it returns.
    method Start(script: seq<Call>, rejection: Option<int>) returns (aborted: bool)
      requires Model() == FRESH
      modifies this
      ensures aborted <==> rejection.Some? && FirstFinish(script).Some?
      ensures !aborted ==> trace.invoked == Expected(script, rejection)
      ensures !aborted ==> !submitting && pendingDetach.None?
      ensures !aborted ==> handler == (Expected(script, rejection) == [])
      ensures !aborted ==> (operation <==> FirstFinish(script).None? && rejection.None?)
      ensures !aborted ==> context == operation && access == operation
    {
      var i := 0;
      while i < |script|
        invariant 0 <= i <= |script|
        invariant During(script[..i])
      {
        assert script[..i + 1] == script[..i] + [script[i]];
        BodyCalls(script[i], script[..i], i + 1);
        i := i + 1;
      }
      assert script[..i] == script;
      if rejection.Some? {
        ghost var s := Model();
        DuringAlone(s, 0, Call.Finish(Failure(rejection.value)));
        aborted := Reject(rejection.value);
        if aborted {
          return;
        }
      }
      aborted := false;
      ghost var (s, deferred) := SubmittedStep(Model());
      EndAlone(s, deferred);
      Submitted();
    }
  }

  // A call that runs alone while the body is still running.
  lemma DuringAlone(s: Shared, me: nat, call: Call)
    requires s.submitting && (s.retired ==> s.delivered)
    ensures var r := RunAlone(s, me, Enter(call));
            if call.Detach? then r == Recorded(Logged(s, call), call.error)
            else if s.retired then r == Logged(s, call)
            else
              && r.(trace := s.trace) == s.(retired := true, delivered := true, access := false,
                                            handler := s.handler && s.delivered)
              && r.trace.invoked == s.trace.invoked + (if s.delivered then [] else [call.result])
  {
    EnterLeaves(s, me, call);
    if call.Finish? && !s.retired {
      var (s1, f1) := EnterStep(s, me, call);
      AfterEnterAlone(s1, me, f1);
      ClaimAlone(AfterEnter(s1, f1), me);
      if s.delivered {
      } else {
      }
    }
  }

  // What `submitted` does after its critical section.
  lemma EndAlone(s: Shared, deferred: Option<int>)
    requires !s.submitting && !s.cleaned && (s.retired ==> s.delivered)
    requires s.operation && s.context && s.handler == !s.delivered
    ensures var s1 := if deferred.Some? then RunAlone(s, 0, Enter(Detach(deferred.value))) else s;
            var r := RunAlone(s1, 0, Claim);
            && !r.submitting && r.pendingDetach == s.pendingDetach
            && r.operation == r.context == !s.retired
            && r.access == s.access
            && r.handler == (s.handler && deferred.None?)
            && r.trace.invoked == s.trace.invoked
                 + (if deferred.Some? && !s.delivered then [Failure(deferred.value)] else [])
  {
    var s1 := if deferred.Some? then RunAlone(s, 0, Enter(Detach(deferred.value))) else s;
    if deferred.Some? {
      var call := Detach(deferred.value);
      var (e, f) := EnterStep(s, 0, call);
      EnterLeaves(s, 0, call);
      AfterEnterAlone(e, 0, f);
      ClaimAlone(AfterEnter(e, f), 0);
    }
    ClaimAlone(s1, 0);
  }
}
