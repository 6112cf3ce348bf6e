/** The libuv executor's state updated in place by `dispatch`, `close` and `on_async`. */
module UvExecutorState {
  import opened Wrappers
  import opened UvExecutor

  // One whole callback whose round holds `n` tasks that dispatch nothing themselves.
  function CallbackSteps(n: nat): seq<Step> {
    [CallbackStart, CallbackExtract] + seq(n, _ => RunTask) + [CallbackEnd]
  }

  // The state once the whole round has run.
  function AfterRound(s: State): State
    requires s.loop.Running?
  {
    s.(loop := s.loop.(round := []), ranThisRound := s.ranThisRound + |s.loop.round|,
       executed := s.executed + s.loop.round)
  }

  lemma {:induction false} RoundReplays(s: State, n: nat)
    requires LoopFree(s) && s.loop.Running? && n == |s.loop.round|
    ensures Replay(s, seq(n, _ => RunTask)) == Some(AfterRound(s))
    decreases n
  {
    if n == 0 {
      assert s.loop.round == [];
      assert s.executed + [] == s.executed;
    } else {
      var next := Next(s, RunTask).value;
      RoundReplays(next, n - 1);
      assert seq(n, _ => RunTask)[1..] == seq(n - 1, _ => RunTask);
      assert s.executed + s.loop.round == next.executed + next.loop.round;
    }
  }

  // Entering, extracting, running the round and ending are the steps of one callback.
  lemma CallbackReplays(before: State, started: State, extracted: State, ran: State, n: nat)
    requires Next(before, CallbackStart) == Some(started) && Next(started, CallbackExtract) == Some(extracted)
    requires LoopFree(extracted) && extracted.loop.Running? && n == |extracted.loop.round|
    requires ran == AfterRound(extracted)
    ensures Replay(before, CallbackSteps(n)) == Next(ran, CallbackEnd)
  {
    RoundReplays(extracted, n);
    var tail := seq(n, _ => RunTask) + [CallbackEnd];
    ReplayAppend(extracted, seq(n, _ => RunTask), CallbackEnd);
    assert CallbackSteps(n)[1..] == [CallbackExtract] + tail;
    assert ([CallbackExtract] + tail)[1..] == tail;
    assert Replay(started, [CallbackExtract] + tail) == Replay(extracted, tail);
  }

  class Executor {
    var attached: bool
    var tasks: seq<Task>
    var closing: bool
    // The handle as libuv sees it.
    var signal: bool
    var closed: bool
    var freed: bool
    ghost var closeHalf: bool
    ghost var loop: Loop
    ghost var accepted: seq<Task>
    ghost var executed: seq<Task>
    ghost var inlined: seq<Task>
    ghost var callbacks: nat
    ghost var ranThisRound: nat

    ghost function Model(): State
      reads this
    {
      State(tasks, closing, closeHalf, signal, loop, closed, freed,
            accepted, executed, inlined, callbacks, ranThisRound)
    }

    constructor ()
      ensures attached && Model() == INITIAL
    {
      attached, tasks, closing := true, [], false;
      signal, closed, freed := false, false, false;
      closeHalf, loop, accepted, executed, inlined := false, Idle, [], [], [];
      callbacks, ranThisRound := 0, 0;
    }

    // Dispatching through a closing executor ends the process, so callers must not.
    method Dispatch(task: Task, onLoopThread: bool)
      requires attached && !closing
      requires onLoopThread ==> !loop.Entered?
      modifies this
      ensures attached
      ensures Next(old(Model()), if onLoopThread then LoopDispatch(task) else RemoteDispatch(task)) == Some(Model())
      ensures onLoopThread && old(tasks) == [] ==>
                inlined == old(inlined) + [task] && tasks == [] && accepted == old(accepted) && signal == old(signal)
      ensures !onLoopThread || old(tasks) != [] ==>
                && tasks == old(tasks) + [task] && accepted == old(accepted) + [task]
                && signal && inlined == old(inlined)
      ensures executed == old(executed) && closing == old(closing) && closed == old(closed)
    {
      if onLoopThread && tasks == [] {
        inlined := inlined + [task];
      } else {
        tasks := tasks + [task];
        accepted := accepted + [task];
        signal := true;
      }
    }

    // Closing twice is closing once.
    method Close()
      requires attached ==> !closing && !closeHalf && !loop.Entered?
      modifies this
      ensures !attached
      ensures if old(attached)
              then Replay(old(Model()), [CloseMark, CloseSignal]) == Some(Model())
              else Model() == old(Model())
      ensures old(attached) ==> closing && signal && tasks == old(tasks) && closed == old(closed)
    {
      if !attached {
        return;
      }
      attached := false;
      closing, closeHalf := true, true;
      ghost var marked := Model();
      signal, closeHalf := true, false;
      ReplayAppend(old(Model()), [], CloseMark);
      assert [] + [CloseMark] == [CloseMark];
      assert Replay(old(Model()), [CloseMark]) == Some(marked);
      ReplayAppend(old(Model()), [CloseMark], CloseSignal);
      assert [CloseMark] + [CloseSignal] == [CloseMark, CloseSignal];
    }

    // The block of `on_async` under the mutex: up to sixteen tasks leave the queue.
    method ExtractRound() returns (round: seq<Task>, rearm: bool, close: bool)
      requires LoopFree(Model()) && loop.Entered?
      modifies `tasks, `loop, `ranThisRound
      ensures Model() == Extract(old(Model())) && loop == Running(round, rearm, close)
      ensures old(tasks) == round + tasks && |round| == (if |old(tasks)| < 16 then |old(tasks)| else 16)
      ensures rearm == (tasks != []) && close == (closing && tasks == [])
    {
      round := [];
      var count := 0;
      while count < MAX_TASKS_PER_ROUND && tasks != []
        invariant count == |round| <= Min(MAX_TASKS_PER_ROUND, |old(tasks)|)
        invariant round == old(tasks)[..count] && tasks == old(tasks)[count..]
      {
        round := round + [tasks[0]];
        tasks := tasks[1..];
        count := count + 1;
      }
      rearm := tasks != [];
      close := closing && !rearm;
      loop, ranThisRound := Running(round, rearm, close), 0;
    }

    // The round runs outside the mutex, first task first.
    method RunRound(round: seq<Task>, rearm: bool, close: bool)
      requires loop == Running(round, rearm, close)
      modifies `loop, `ranThisRound, `executed
      ensures Model() == AfterRound(old(Model()))
      ensures executed == old(executed) + round
    {
      var i := 0;
      while i < |round|
        invariant 0 <= i <= |round|
        invariant loop == Running(round[i..], rearm, close) && ranThisRound == old(ranThisRound) + i
        invariant executed == old(executed) + round[..i]
      {
        executed := executed + [round[i]];
        ranThisRound := ranThisRound + 1;
        loop := Running(round[i + 1..], rearm, close);
        i := i + 1;
      }
      assert round[..i] == round;
    }

    // Rearm for what is left, or close the handle.
    method EndRound(rearm: bool, close: bool)
      requires LoopFree(Model()) && loop == Running([], rearm, close)
      modifies `signal, `loop, `closed
      ensures Next(old(Model()), CallbackEnd) == Some(Model())
      ensures signal == (old(signal) || rearm) && closed == (close && !rearm)
    {
      loop := Idle;
      if rearm {
        signal := true;
      } else if close {
        closed := true;
      }
    }

    // A whole callback.
    method OnAsync()
      requires LoopFree(Model()) && loop.Idle? && signal
      modifies this
      ensures var n := Min(MAX_TASKS_PER_ROUND, |old(tasks)|);
              && Replay(old(Model()), CallbackSteps(n)) == Some(Model())
              && executed == old(executed) + old(tasks)[..n] && tasks == old(tasks)[n..]
              && (signal <==> tasks != [])
              && (closed <==> old(closing) && tasks == [])
    {
      signal, loop, callbacks := false, Entered, callbacks + 1;
      ghost var started := Model();
      assert Next(old(Model()), CallbackStart) == Some(started);
      var round, rearm, close := ExtractRound();
      CallbackReplays(old(Model()), started, Model(), AfterRound(Model()), |round|);
      RunRound(round, rearm, close);
      EndRound(rearm, close);
    }

    // libuv's close callback.
    method OnClosed()
      requires closed && !freed
      modifies this
      ensures Next(old(Model()), HandleClosed) == Some(Model())
      ensures freed
    {
      freed := true;
    }
  }
}
