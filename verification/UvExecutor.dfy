/**
 The libuv executor: a queue drained on the loop thread, at most sixteen tasks per callback.

 `Round`, `Extract` and the steps of `Next` are the critical sections and unlocked actions of
 `dispatch`, `close` and `on_async`; `UvExecutorState` updates the same state in place.
 libuv is one coalescing signal, delivered as a callback that never overlaps another one, and no
 callback after the handle is closed.
 */
module UvExecutor {
  import opened Wrappers

  const MAX_TASKS_PER_ROUND: nat := 16

  type Task = int

  // Where the loop thread is: between callbacks, in one that has not taken the lock yet, or running a round.
  datatype Loop = Idle | Entered | Running(round: seq<Task>, rearm: bool, close: bool)

  datatype State = State(
    tasks: seq<Task>,
    closing: bool,
    closeHalf: bool,
    signal: bool,
    loop: Loop,
    closed: bool,
    freed: bool,
    accepted: seq<Task>,
    executed: seq<Task>,
    inlined: seq<Task>,
    callbacks: nat,
    ranThisRound: nat)

  const INITIAL := State([], false, false, false, Idle, false, false, [], [], [], 0, 0)

  datatype Step =
    | RemoteDispatch(task: Task)
    | LoopDispatch(task: Task)
    | CloseMark
    | CloseSignal
    | CallbackStart
    | CallbackExtract
    | RunTask
    | CallbackEnd
    | HandleClosed

  function Min(a: nat, b: nat): nat {
    if a < b then a else b
  }

  function Enqueued(s: State, task: Task): State {
    s.(tasks := s.tasks + [task], accepted := s.accepted + [task], signal := true)
  }

  // `close` runs on the loop thread, so the loop does nothing else between its two actions.
  predicate LoopFree(s: State) {
    !s.closeHalf && !s.closed
  }

  // The critical section of `on_async`.
  function Extract(s: State): State {
    var n := Min(MAX_TASKS_PER_ROUND, |s.tasks|);
    var rest := s.tasks[n..];
    s.(tasks := rest, loop := Running(s.tasks[..n], rest != [], s.closing && rest == []), ranThisRound := 0)
  }

  function Next(s: State, step: Step): Option<State> {
    match step
    case RemoteDispatch(task) =>
      if s.closing then None else Some(Enqueued(s, task))
    case LoopDispatch(task) =>
      if s.closing || s.loop.Entered? then None
      else if s.tasks == [] then Some(s.(inlined := s.inlined + [task]))
      else Some(Enqueued(s, task))
    case CloseMark =>
      if s.closing || s.loop.Entered? then None else Some(s.(closing := true, closeHalf := true))
    case CloseSignal =>
      if !s.closeHalf then None else Some(s.(closeHalf := false, signal := true))
    case CallbackStart =>
      if !LoopFree(s) || !s.loop.Idle? || !s.signal then None
      else Some(s.(signal := false, loop := Entered, callbacks := s.callbacks + 1))
    case CallbackExtract =>
      if !LoopFree(s) || !s.loop.Entered? then None else Some(Extract(s))
    case RunTask =>
      if !LoopFree(s) || !s.loop.Running? || s.loop.round == [] then None
      else Some(s.(executed := s.executed + [s.loop.round[0]], ranThisRound := s.ranThisRound + 1,
                   loop := s.loop.(round := s.loop.round[1..])))
    case CallbackEnd =>
      if !LoopFree(s) || !s.loop.Running? || s.loop.round != [] then None
      else if s.loop.rearm then Some(s.(signal := true, loop := Idle))
      else if s.loop.close then Some(s.(closed := true, loop := Idle))
      else Some(s.(loop := Idle))
    case HandleClosed =>
      if !s.closed || s.freed then None else Some(s.(freed := true))
  }

  function Replay(s: State, steps: seq<Step>): Option<State>
    decreases |steps|
  {
    if steps == [] then Some(s) else
    var next := Next(s, steps[0]);
    if next.None? then None else Replay(next.value, steps[1..])
  }

  lemma {:induction false} ReplayAppend(s: State, steps: seq<Step>, step: Step)
    requires Replay(s, steps).Some?
    ensures Replay(s, steps + [step]) == Next(Replay(s, steps).value, step)
    decreases |steps|
  {
    if steps == [] {
      assert Replay(s, [step]) == Next(s, step) by {
        if Next(s, step).Some? {
          assert Replay(Next(s, step).value, [step][1..]) == Next(s, step);
        }
      }
      assert steps + [step] == [step];
    } else {
      assert (steps + [step])[1..] == steps[1..] + [step];
      ReplayAppend(Next(s, steps[0]).value, steps[1..], step);
    }
  }

  ghost predicate Reachable(s: State) {
    exists steps: seq<Step> :: Replay(INITIAL, steps) == Some(s)
  }

  // -------- The invariant --------

  function InRound(s: State): seq<Task> {
    if s.loop.Running? then s.loop.round else []
  }

  // A wakeup is on its way for whatever is queued.
  predicate Awake(s: State) {
    s.signal || s.loop.Entered? || (s.loop.Running? && s.loop.rearm)
  }

  ghost predicate Inv(s: State) {
    && s.accepted == s.executed + InRound(s) + s.tasks
    && (s.tasks != [] ==> Awake(s))
    && s.ranThisRound + |InRound(s)| <= MAX_TASKS_PER_ROUND
    && (s.loop.Running? && s.loop.close ==> s.closing && !s.closeHalf && s.tasks == [] && !s.loop.rearm)
    && (s.loop.Running? && s.loop.rearm ==> s.tasks != [])
    && (s.closeHalf ==> s.closing && !s.loop.Entered?)
    && (s.closing && !s.closed && !s.closeHalf ==> Awake(s) || (s.loop.Running? && s.loop.close))
    && (s.closed ==> s.closing && !s.closeHalf && s.tasks == [] && s.loop.Idle?)
    && (s.freed ==> s.closed)
  }

  // No step loses, repeats or reorders an enqueued task.
  lemma TasksConserved(s: State, step: Step)
    requires s.accepted == s.executed + InRound(s) + s.tasks && Next(s, step).Some?
    requires s.ranThisRound + |InRound(s)| <= MAX_TASKS_PER_ROUND
    requires step.CallbackExtract? ==> InRound(s) == []
    ensures var next := Next(s, step).value;
            && next.accepted == next.executed + InRound(next) + next.tasks
            && next.ranThisRound + |InRound(next)| <= MAX_TASKS_PER_ROUND
  {
    var next := Next(s, step).value;
    match step {
      case CallbackExtract =>
        assert s.tasks == InRound(next) + next.tasks;
      case RunTask => RunTaskConserves(s);
      case CallbackEnd =>
        assert InRound(s) == InRound(next);
      case _ =>
        assert InRound(s) == InRound(next) && next.executed == s.executed;
        DispatchConserves(s, next);
    }
  }

  lemma RunTaskConserves(s: State)
    requires Next(s, RunTask).Some?
    ensures var next := Next(s, RunTask).value;
            next.executed + InRound(next) == s.executed + InRound(s) && |InRound(next)| + 1 == |InRound(s)|
  {
    assert s.loop.round == [s.loop.round[0]] + s.loop.round[1..];
  }

  lemma DispatchConserves(s: State, next: State)
    requires s.accepted == s.executed + InRound(s) + s.tasks
    requires InRound(next) == InRound(s) && next.executed == s.executed
    requires (next.tasks == s.tasks && next.accepted == s.accepted)
             || exists task :: next.tasks == s.tasks + [task] && next.accepted == s.accepted + [task]
    ensures next.accepted == next.executed + InRound(next) + next.tasks
  {
  }

  lemma NextKeeps(s: State, step: Step)
    requires Inv(s) && Next(s, step).Some?
    ensures Inv(Next(s, step).value)
  {
    TasksConserved(s, step);
    match step {
      case RunTask =>
      case CallbackEnd =>
      case CallbackExtract =>
      case _ =>
    }
  }

  lemma {:induction false} ReplayKeeps(s: State, steps: seq<Step>)
    requires Inv(s) && Replay(s, steps).Some?
    ensures Inv(Replay(s, steps).value)
    decreases |steps|
  {
    if steps != [] {
      NextKeeps(s, steps[0]);
      ReplayKeeps(Next(s, steps[0]).value, steps[1..]);
    }
  }

  lemma ReachableKeeps(s: State)
    requires Reachable(s)
    ensures Inv(s)
  {
    var steps :| Replay(INITIAL, steps) == Some(s);
    ReplayKeeps(INITIAL, steps);
  }

  // -------- Main results --------

  // A non-empty queue always has a wakeup coming, and a wakeup that is pending can be delivered.
  lemma NoLostWakeup(s: State)
    requires Reachable(s) && s.tasks != []
    ensures Awake(s) && !s.closed
    ensures s.loop.Idle? && !s.closeHalf ==> Next(s, CallbackStart).Some?
  {
    ReachableKeeps(s);
  }

  // Enqueued tasks run once each, in enqueue order, in rounds of at most sixteen, all before the close.
  lemma QueuedTasksRunInOrder(s: State)
    requires Reachable(s)
    ensures s.accepted == s.executed + InRound(s) + s.tasks
    ensures s.ranThisRound <= MAX_TASKS_PER_ROUND
    ensures s.closed ==> s.executed == s.accepted
  {
    ReachableKeeps(s);
  }

  // -------- Every dispatch is accounted for --------

  // What one step adds to the queue and what it runs inline: a dispatch on the loop thread runs inline
  // exactly when nothing waits before it.
  function QueuedBy(s: State, step: Step): seq<Task> {
    match step
    case RemoteDispatch(task) => [task]
    case LoopDispatch(task) => if s.tasks == [] then [] else [task]
    case _ => []
  }

  function InlinedBy(s: State, step: Step): seq<Task> {
    match step
    case LoopDispatch(task) => if s.tasks == [] then [task] else []
    case _ => []
  }

  function Queued(s: State, steps: seq<Step>): seq<Task>
    requires Replay(s, steps).Some?
    decreases |steps|
  {
    if steps == [] then [] else QueuedBy(s, steps[0]) + Queued(Next(s, steps[0]).value, steps[1..])
  }

  function Inlined(s: State, steps: seq<Step>): seq<Task>
    requires Replay(s, steps).Some?
    decreases |steps|
  {
    if steps == [] then [] else InlinedBy(s, steps[0]) + Inlined(Next(s, steps[0]).value, steps[1..])
  }

  // How often a task is dispatched in a run.
  function Dispatches(steps: seq<Step>, task: Task): nat {
    if steps == [] then 0 else
    Dispatches(steps[1..], task)
    + if steps[0] == RemoteDispatch(task) || steps[0] == LoopDispatch(task) then 1 else 0
  }

  lemma StepAccounts(s: State, step: Step)
    requires Next(s, step).Some?
    ensures var next := Next(s, step).value;
            next.accepted == s.accepted + QueuedBy(s, step) && next.inlined == s.inlined + InlinedBy(s, step)
  {
    assert s.accepted + [] == s.accepted && s.inlined + [] == s.inlined;
  }

  lemma {:induction false} RunAccounts(s: State, steps: seq<Step>)
    requires Replay(s, steps).Some?
    ensures var last := Replay(s, steps).value;
            last.accepted == s.accepted + Queued(s, steps) && last.inlined == s.inlined + Inlined(s, steps)
    decreases |steps|
  {
    hide Next, QueuedBy, InlinedBy;
    if steps == [] {
      assert s.accepted + [] == s.accepted && s.inlined + [] == s.inlined;
    } else {
      StepAccounts(s, steps[0]);
      RunAccounts(Next(s, steps[0]).value, steps[1..]);
    }
  }

  lemma {:induction false} DispatchesSplit(s: State, steps: seq<Step>, task: Task)
    requires Replay(s, steps).Some?
    ensures multiset(Queued(s, steps))[task] + multiset(Inlined(s, steps))[task] == Dispatches(steps, task)
    decreases |steps|
  {
    hide Next;
    if steps != [] {
      DispatchesSplit(Next(s, steps[0]).value, steps[1..], task);
    }
  }

  // In every run the queue has been given, in order, the dispatched tasks that did not run inline; each
  // dispatch did one or the other; and once the handle is closed every one of them has run.
  lemma EveryDispatchRuns(steps: seq<Step>, s: State)
    requires Replay(INITIAL, steps) == Some(s)
    ensures s.accepted == Queued(INITIAL, steps) && s.inlined == Inlined(INITIAL, steps)
    ensures forall task :: multiset(s.accepted)[task] + multiset(s.inlined)[task] == Dispatches(steps, task)
    ensures s.closed ==> s.executed == Queued(INITIAL, steps)
    ensures s.closed ==>
              forall task :: multiset(s.executed)[task] + multiset(s.inlined)[task] == Dispatches(steps, task)
  {
    hide Next, Inv;
    RunAccounts(INITIAL, steps);
    QueuedTasksRunInOrder(s);
    assert [] + Queued(INITIAL, steps) == Queued(INITIAL, steps);
    assert [] + Inlined(INITIAL, steps) == Inlined(INITIAL, steps);
    forall task ensures multiset(s.accepted)[task] + multiset(s.inlined)[task] == Dispatches(steps, task) {
      DispatchesSplit(INITIAL, steps, task);
    }
  }

  // -------- How many callbacks a shutdown takes --------

  function Rounds(queued: nat): nat {
    if queued == 0 then 1 else (queued + MAX_TASKS_PER_ROUND - 1) / MAX_TASKS_PER_ROUND
  }

  // Callbacks that are still to start before the handle is closed.
  function CallbacksLeft(s: State): int {
    if s.closed then 0
    else match s.loop
      case Idle => Rounds(|s.tasks|)
      case Entered => Rounds(|s.tasks|) - 1
      case Running(_, rearm, close) => if close then 0 else Rounds(|s.tasks|)
  }

  // While closing, the callbacks made and the callbacks left add up to the same number after every step.
  lemma CallbacksConserved(s: State, step: Step)
    requires Inv(s) && s.closing && Next(s, step).Some?
    ensures var next := Next(s, step).value;
            next.closing && next.callbacks + CallbacksLeft(next) == s.callbacks + CallbacksLeft(s)
  {
    if step.CallbackExtract? {
      if |s.tasks| > MAX_TASKS_PER_ROUND {
        var n := |s.tasks| - MAX_TASKS_PER_ROUND;
        assert (n + 2 * MAX_TASKS_PER_ROUND - 1) / MAX_TASKS_PER_ROUND
            == (n + MAX_TASKS_PER_ROUND - 1) / MAX_TASKS_PER_ROUND + 1;
      }
    }
  }

  lemma {:induction false} CallbacksConservedOverRun(s: State, steps: seq<Step>)
    requires Inv(s) && s.closing && Replay(s, steps).Some?
    ensures var last := Replay(s, steps).value;
            last.closing && last.callbacks + CallbacksLeft(last) == s.callbacks + CallbacksLeft(s)
    decreases |steps|
  {
    if steps != [] {
      NextKeeps(s, steps[0]);
      CallbacksConserved(s, steps[0]);
      CallbacksConservedOverRun(Next(s, steps[0]).value, steps[1..]);
    }
  }

  // Closing with n tasks queued and no callback under way takes exactly max(1, ceil(n / 16)) more callbacks.
  lemma ShutdownTakesExactlyTheRounds(s: State, steps: seq<Step>)
    requires Reachable(s) && s.closing && !s.closed && s.loop.Idle?
    requires Replay(s, steps).Some? && Replay(s, steps).value.closed
    ensures var n := |s.tasks|;
            Replay(s, steps).value.callbacks - s.callbacks == if n == 0 then 1 else (n + 15) / 16
    ensures Replay(s, steps).value.executed == s.accepted
  {
    ReachableKeeps(s);
    CallbacksConservedOverRun(s, steps);
    ReplayKeeps(s, steps);
    ClosingAcceptsNothing(s, steps);
  }

  lemma {:induction false} ClosingAcceptsNothing(s: State, steps: seq<Step>)
    requires s.closing && Replay(s, steps).Some?
    ensures Replay(s, steps).value.accepted == s.accepted
    decreases |steps|
  {
    if steps != [] {
      ClosingAcceptsNothing(Next(s, steps[0]).value, steps[1..]);
    }
  }

  // -------- Shutdown is reached --------

  // The loop thread's next action once closing.
  function LoopStep(s: State): Step {
    if s.closeHalf then CloseSignal
    else match s.loop
      case Idle => CallbackStart
      case Entered => CallbackExtract
      case Running(round, _, _) => if round != [] then RunTask else CallbackEnd
  }

  function PhaseRank(s: State): nat {
    (if s.closeHalf then 1 else 0)
    + match s.loop
      case Idle => 0
      case Entered => MAX_TASKS_PER_ROUND + 2
      case Running(round, _, _) => |round| + 1
  }

  // Left to itself a closing loop closes its handle.
  lemma {:induction false} ShutdownCompletes(s: State) returns (steps: seq<Step>)
    requires Inv(s) && s.closing
    ensures Replay(s, steps).Some? && Replay(s, steps).value.closed
    decreases !s.closed, CallbacksLeft(s), PhaseRank(s)
  {
    if s.closed {
      steps := [];
    } else {
      var step := LoopStep(s);
      NextKeeps(s, step);
      CallbacksConserved(s, step);
      var rest := ShutdownCompletes(Next(s, step).value);
      steps := [step] + rest;
      assert steps[1..] == rest;
    }
  }

  function StepsLeft(s: State): nat
    requires s.closing
  {
    (MAX_TASKS_PER_ROUND + 3) * CallbacksLeft(s) + PhaseRank(s) + if s.freed then 0 else 1
  }

  lemma StepUsesWork(s: State, step: Step)
    requires Inv(s) && s.closing && Next(s, step).Some?
    ensures var next := Next(s, step).value; next.closing && StepsLeft(next) < StepsLeft(s)
  {
    CallbacksConserved(s, step);
    match step {
      case RunTask =>
      case CallbackStart =>
      case CallbackExtract =>
      case CallbackEnd =>
      case _ =>
    }
  }

  // Whatever happens, a closing loop makes finitely many steps, and it is not stuck before its handle is
  // closed.
  lemma {:induction false} EveryRunCloses(s: State, steps: seq<Step>)
    requires Inv(s) && s.closing && Replay(s, steps).Some?
    ensures |steps| <= StepsLeft(s)
    ensures Replay(s, steps).value.closed || exists step :: Next(Replay(s, steps).value, step).Some?
    decreases |steps|
  {
    if steps == [] {
      if !s.closed {
        assert Next(s, LoopStep(s)).Some?;
      }
    } else {
      StepUsesWork(s, steps[0]);
      NextKeeps(s, steps[0]);
      EveryRunCloses(Next(s, steps[0]).value, steps[1..]);
    }
  }
}
