/**
 The Python worker executor: a queue swapped out in whole batches by one worker thread.

 One step is one critical section, one notification, or one unlocked action.  The condition variable
 is a worker that blocks with the mutex released and is woken by a notification or spuriously; the
 interpreter lock (GIL) has one owner at a time.
 */
module PythonExecutor {
  import opened Wrappers

  type Task = int

  datatype Worker =
    | Starting
    | Checking
    | Blocked
    | Acquiring(batch: seq<Task>)
    | Running(batch: seq<Task>, done: nat)
    | Releasing
    | Exited

  datatype Gil = Free | HeldByWorker | HeldByMain | HeldByOther

  // How far the thread calling `shutdown` has come; `saved` says it gave the GIL up before joining.
  datatype Shutdown = NotCalled | Marked | Notified | Joining(saved: bool) | Joined

  datatype State = State(
    tasks: seq<Task>,
    stopping: bool,
    worker: Worker,
    gil: Gil,
    shutdown: Shutdown,
    owed: nat,
    accepted: seq<Task>,
    executed: seq<Task>,
    destroyed: seq<Task>,
    inlined: seq<Task>,
    swapsAfterStop: nat)

  const INITIAL := State([], false, Starting, Free, NotCalled, 0, [], [], [], [], 0)

  datatype Step =
    | Enqueue(task: Task)
    | Notify
    | InlineDispatch(task: Task)
    | Register
    | Check
    | WakeSpuriously
    | TakeGil
    | RunTask
    | ClearBatch
    | ReleaseGil
    | ShutdownMark
    | ShutdownNotify
    | ShutdownSave
    | ShutdownJoin
    | MainTakesGil
    | MainReleasesGil
    | OtherTakesGil
    | OtherReleasesGil

  // `notify_one` with the worker as the only possible waiter.
  function Woken(s: State): State {
    if s.worker.Blocked? then s.(worker := Checking) else s
  }

  // The worker holds the mutex and looks at its wait predicate.
  function CheckStep(s: State): State {
    if !s.stopping && s.tasks == [] then s.(worker := Blocked)
    else if s.tasks == [] then s.(worker := Exited)
    else s.(worker := Acquiring(s.tasks), tasks := [],
            swapsAfterStop := s.swapsAfterStop + if s.stopping then 1 else 0)
  }

  function WorkerNext(s: State, step: Step): Option<State> {
    match step
    case Register => if s.worker.Starting? then Some(s.(worker := Checking)) else None
    case Check => if s.worker.Checking? then Some(CheckStep(s)) else None
    case WakeSpuriously => if s.worker.Blocked? then Some(s.(worker := Checking)) else None
    case TakeGil =>
      if s.worker.Acquiring? && s.gil.Free?
      then Some(s.(gil := HeldByWorker, worker := Running(s.worker.batch, 0)))
      else None
    case RunTask =>
      if s.worker.Running? && s.worker.done < |s.worker.batch|
      then Some(s.(executed := s.executed + [s.worker.batch[s.worker.done]],
                   worker := s.worker.(done := s.worker.done + 1)))
      else None
    case ClearBatch =>
      if s.worker.Running? && s.worker.done >= |s.worker.batch|
      then Some(s.(destroyed := s.destroyed + s.worker.batch, worker := Releasing))
      else None
    case ReleaseGil =>
      if s.worker.Releasing? then Some(s.(gil := Free, worker := Checking)) else None
    case _ => None
  }

  function ShutdownNext(s: State, step: Step): Option<State> {
    match step
    case ShutdownMark =>
      if s.stopping || !s.shutdown.NotCalled? then None else Some(s.(stopping := true, shutdown := Marked))
    case ShutdownNotify =>
      if s.shutdown.Marked? then Some(Woken(s).(shutdown := Notified)) else None
    case ShutdownSave =>
      if !s.shutdown.Notified? then None
      else if s.gil.HeldByMain? then Some(s.(gil := Free, shutdown := Joining(true)))
      else Some(s.(shutdown := Joining(false)))
    case ShutdownJoin =>
      if !s.shutdown.Joining? || !s.worker.Exited? then None
      else if !s.shutdown.saved then Some(s.(shutdown := Joined))
      else if s.gil.Free? then Some(s.(gil := HeldByMain, shutdown := Joined))
      else None
    case _ => None
  }

  function OthersNext(s: State, step: Step): Option<State> {
    match step
    case Enqueue(task) =>
      if s.stopping then None
      else Some(s.(tasks := s.tasks + [task], accepted := s.accepted + [task], owed := s.owed + 1))
    case Notify => if s.owed == 0 then None else Some(Woken(s).(owed := s.owed - 1))
    case InlineDispatch(task) =>
      if s.stopping || !s.worker.Running? || s.worker.done == 0 then None
      else Some(s.(inlined := s.inlined + [task]))
    case MainTakesGil =>
      if s.gil.Free? && !s.shutdown.Joining? then Some(s.(gil := HeldByMain)) else None
    case MainReleasesGil =>
      if s.gil.HeldByMain? then Some(s.(gil := Free)) else None
    case OtherTakesGil => if s.gil.Free? then Some(s.(gil := HeldByOther)) else None
    case OtherReleasesGil => if s.gil.HeldByOther? then Some(s.(gil := Free)) else None
    case _ => None
  }

  function Next(s: State, step: Step): Option<State> {
    if WorkerNext(s, step).Some? then WorkerNext(s, step)
    else if ShutdownNext(s, step).Some? then ShutdownNext(s, step)
    else OthersNext(s, step)
  }

  function Replay(s: State, steps: seq<Step>): Option<State>
    decreases |steps|
  {
    if steps == [] then Some(s) else
    var next := Next(s, steps[0]);
    if next.None? then None else Replay(next.value, steps[1..])
  }

  ghost predicate Reachable(s: State) {
    exists steps: seq<Step> :: Replay(INITIAL, steps) == Some(s)
  }

  // -------- The invariant --------

  // Tasks the worker has taken out of the queue and not run yet.
  function Taken(s: State): seq<Task> {
    if s.worker.Acquiring? then s.worker.batch
    else if s.worker.Running? && s.worker.done <= |s.worker.batch| then s.worker.batch[s.worker.done..]
    else []
  }

  // Tasks that have run and whose captures are still alive.
  function Alive(s: State): seq<Task> {
    if s.worker.Running? && s.worker.done <= |s.worker.batch| then s.worker.batch[..s.worker.done] else []
  }

  ghost predicate TaskInv(s: State) {
    && (s.worker.Running? ==> s.worker.done <= |s.worker.batch|)
    && s.accepted == s.executed + Taken(s) + s.tasks
    && s.executed == s.destroyed + Alive(s)
  }

  ghost predicate ControlInv(s: State) {
    && (s.gil.HeldByWorker? <==> s.worker.Running? || s.worker.Releasing?)
    && (s.worker.Blocked? && (s.stopping || s.tasks != []) ==> s.owed > 0 || s.shutdown.Marked?)
    && (s.stopping <==> !s.shutdown.NotCalled?)
    && (s.shutdown.Joining? ==> !s.gil.HeldByMain?)
    && (s.shutdown.Joined? ==> s.worker.Exited?)
    && (s.worker.Exited? ==> s.stopping && s.tasks == [])
    && s.swapsAfterStop <= 1
    && (s.swapsAfterStop == 1 ==> s.stopping && s.tasks == [])
  }

  ghost predicate Inv(s: State) {
    TaskInv(s) && ControlInv(s)
  }

  lemma RunTaskKeepsTasks(s: State)
    requires TaskInv(s) && WorkerNext(s, RunTask).Some?
    ensures TaskInv(WorkerNext(s, RunTask).value)
  {
    var next := WorkerNext(s, RunTask).value;
    var (batch, done) := (s.worker.batch, s.worker.done);
    assert Taken(s) == [batch[done]] + Taken(next);
    assert Alive(next) == Alive(s) + [batch[done]];
  }

  lemma WorkerKeepsTasks(s: State, step: Step)
    requires TaskInv(s) && WorkerNext(s, step).Some?
    ensures TaskInv(WorkerNext(s, step).value)
  {
    var next := WorkerNext(s, step).value;
    match step {
      case RunTask => RunTaskKeepsTasks(s);
      case ClearBatch =>
        assert Taken(s) == [] && Alive(s) == s.worker.batch;
      case TakeGil =>
        assert Taken(next) == Taken(s) && Alive(next) == [];
      case Check =>
        assert Taken(next) + next.tasks == Taken(s) + s.tasks;
      case _ =>
    }
  }

  lemma TasksKept(s: State, step: Step)
    requires TaskInv(s) && Next(s, step).Some?
    ensures TaskInv(Next(s, step).value)
  {
    if WorkerNext(s, step).Some? {
      WorkerKeepsTasks(s, step);
    } else {
      var next := Next(s, step).value;
      assert Taken(next) == Taken(s) && Alive(next) == Alive(s);
      assert next.executed == s.executed && next.destroyed == s.destroyed;
    }
  }

  lemma ControlKept(s: State, step: Step)
    requires ControlInv(s) && Next(s, step).Some?
    ensures ControlInv(Next(s, step).value)
  {
    match step {
      case Check =>
      case Notify =>
      case ShutdownNotify =>
      case ShutdownSave =>
      case _ =>
    }
  }

  lemma {:induction false} ReplayKeeps(s: State, steps: seq<Step>)
    requires Inv(s) && Replay(s, steps).Some?
    ensures Inv(Replay(s, steps).value)
    decreases |steps|
  {
    if steps != [] {
      TasksKept(s, steps[0]);
      ControlKept(s, steps[0]);
      ReplayKeeps(Next(s, steps[0]).value, steps[1..]);
    }
  }

  lemma ReachableKeeps(s: State)
    requires Reachable(s)
    ensures Inv(s)
  {
    var steps :| Replay(INITIAL, steps) == Some(s);
    ReplayKeeps(INITIAL, steps);
  }

  // -------- Main results --------

  // Accepted tasks run once each in the order they were accepted, and their captures are destroyed in
  // that order; between a task's invocation and its captures' destruction the worker holds the GIL.
  lemma TasksRunOnceUnderGil(s: State)
    requires Reachable(s)
    ensures s.accepted == s.executed + Taken(s) + s.tasks
    ensures s.destroyed <= s.executed
    ensures s.destroyed != s.executed ==> s.gil == HeldByWorker
  {
    ReachableKeeps(s);
  }

  // The worker leaves only when asked to stop and drained, after at most one more non-empty swap.
  lemma ExitMeansDrained(s: State)
    requires Reachable(s)
    ensures s.worker.Exited? ==>
              s.stopping && s.tasks == [] && s.accepted == s.executed == s.destroyed && !s.gil.HeldByWorker?
    ensures s.swapsAfterStop <= 1
    ensures s.shutdown.Joined? ==> s.worker.Exited?
  {
    ReachableKeeps(s);
  }

  // A worker asleep with something to do has a notification coming.
  lemma NoLostNotification(s: State)
    requires Reachable(s) && s.worker.Blocked? && (s.stopping || s.tasks != [])
    ensures Next(s, Notify).Some? || Next(s, ShutdownNotify).Some?
  {
    ReachableKeeps(s);
  }

  // -------- Every dispatch is accounted for --------

  // The tasks other threads dispatched in a run, and those dispatched from a running task.
  function EnqueuedBy(step: Step): seq<Task> {
    if step.Enqueue? then [step.task] else []
  }

  function InlinedBy(step: Step): seq<Task> {
    if step.InlineDispatch? then [step.task] else []
  }

  function Enqueued(steps: seq<Step>): seq<Task> {
    if steps == [] then [] else EnqueuedBy(steps[0]) + Enqueued(steps[1..])
  }

  function DispatchedInline(steps: seq<Step>): seq<Task> {
    if steps == [] then [] else InlinedBy(steps[0]) + DispatchedInline(steps[1..])
  }

  lemma StepAccounts(s: State, step: Step)
    requires Next(s, step).Some?
    ensures var next := Next(s, step).value;
            next.accepted == s.accepted + EnqueuedBy(step) && next.inlined == s.inlined + InlinedBy(step)
  {
    assert s.accepted + [] == s.accepted && s.inlined + [] == s.inlined;
  }

  lemma {:induction false} RunAccounts(s: State, steps: seq<Step>)
    requires Replay(s, steps).Some?
    ensures var last := Replay(s, steps).value;
            && last.accepted == s.accepted + Enqueued(steps)
            && last.inlined == s.inlined + DispatchedInline(steps)
    decreases |steps|
  {
    hide Next, EnqueuedBy, InlinedBy;
    if steps == [] {
      assert s.accepted + [] == s.accepted && s.inlined + [] == s.inlined;
    } else {
      StepAccounts(s, steps[0]);
      RunAccounts(Next(s, steps[0]).value, steps[1..]);
    }
  }

  // In every run the queue has been given exactly the tasks other threads dispatched, in order, and the
  // tasks dispatched by tasks ran inline; once the worker is joined all of them have run, once each.
  lemma EveryDispatchRuns(steps: seq<Step>, s: State)
    requires Replay(INITIAL, steps) == Some(s)
    ensures s.accepted == Enqueued(steps) && s.inlined == DispatchedInline(steps)
    ensures s.shutdown.Joined? ==> s.executed == s.destroyed == Enqueued(steps) && s.tasks == []
  {
    hide Next;
    RunAccounts(INITIAL, steps);
    assert [] + Enqueued(steps) == Enqueued(steps) && [] + DispatchedInline(steps) == DispatchedInline(steps);
    ExitMeansDrained(s);
  }

  // -------- The GIL --------

  // The GIL passes only from its owner, by the owner's own step, and only to a thread that found it free.
  lemma GilPassesByItsOwner(s: State, step: Step)
    requires Inv(s) && Next(s, step).Some?
    ensures var next := Next(s, step).value;
            next.gil != s.gil ==>
              && (s.gil.Free? || next.gil.Free?)
              && (s.gil.HeldByWorker? ==> step == ReleaseGil)
              && (s.gil.HeldByMain? ==> step == MainReleasesGil || step == ShutdownSave)
              && (s.gil.HeldByOther? ==> step == OtherReleasesGil)
              && (next.gil.HeldByWorker? ==> step == TakeGil)
              && (next.gil.HeldByMain? ==> step == MainTakesGil || (step == ShutdownJoin && s.shutdown.saved))
  {
  }

  lemma {:induction false} SavedStays(s: State, steps: seq<Step>)
    requires s.shutdown.Joining? && Replay(s, steps).Some? && !Replay(s, steps).value.shutdown.Joined?
    ensures Replay(s, steps).value.shutdown == s.shutdown
    decreases |steps|
  {
    if steps != [] {
      var next := Next(s, steps[0]).value;
      if next.shutdown.Joined? {
        JoinedStays(next, steps[1..]);
      } else {
        SavedStays(next, steps[1..]);
      }
    }
  }

  lemma {:induction false} JoinedStays(s: State, steps: seq<Step>)
    requires s.shutdown.Joined? && Replay(s, steps).Some?
    ensures Replay(s, steps).value.shutdown.Joined?
    decreases |steps|
  {
    if steps != [] {
      JoinedStays(Next(s, steps[0]).value, steps[1..]);
    }
  }

  // Whatever happens while a thread waits in `shutdown`, it does not have the GIL then, and it comes out
  // with it if it had it; if it did not, the join leaves the GIL alone.
  lemma JoinReturnsTheGil(s: State, steps: seq<Step>)
    requires Inv(s) && Next(s, ShutdownSave).Some? && Replay(Next(s, ShutdownSave).value, steps).Some?
    ensures var waiting := Replay(Next(s, ShutdownSave).value, steps).value;
            && (waiting.shutdown.Joining? ==> !waiting.gil.HeldByMain?)
            && (waiting.shutdown.Joining? && Next(waiting, ShutdownJoin).Some? ==>
                  Next(waiting, ShutdownJoin).value.gil == if s.gil.HeldByMain? then HeldByMain else waiting.gil)
  {
    var saved := Next(s, ShutdownSave).value;
    TasksKept(s, ShutdownSave);
    ControlKept(s, ShutdownSave);
    ReplayKeeps(saved, steps);
    if Replay(saved, steps).value.shutdown.Joining? {
      SavedStays(saved, steps);
    }
  }

  // -------- Shutdown returns --------

  function QueueWork(s: State): nat {
    if s.tasks == [] then 0 else |s.tasks| + 5
  }

  function WorkerWork(s: State): int {
    match s.worker
    case Starting => 2 + QueueWork(s)
    case Checking => 1 + QueueWork(s)
    case Blocked => 2 + QueueWork(s)
    case Acquiring(batch) => |batch| + 5 + QueueWork(s)
    case Running(batch, done) => |batch| - done + 4 + QueueWork(s)
    case Releasing => 3 + QueueWork(s)
    case Exited => 0
  }

  function Remaining(s: State): int {
    WorkerWork(s)
    + (match s.shutdown case NotCalled => 4 case Marked => 3 case Notified => 2 case Joining(_) => 1 case Joined => 0)
    + (if s.gil.HeldByOther? then 1 else 0)
  }

  // What can happen next once `shutdown` has set the flag; other threads let go of the GIL in time.
  function ClosingStep(s: State): Step {
    if s.shutdown.Marked? then ShutdownNotify
    else if s.shutdown.Notified? then ShutdownSave
    else if s.gil.HeldByOther? then OtherReleasesGil
    else match s.worker
      case Starting => Register
      case Checking => Check
      case Blocked => Notify
      case Acquiring(_) => TakeGil
      case Running(batch, done) => if done < |batch| then RunTask else ClearBatch
      case Releasing => ReleaseGil
      case Exited => ShutdownJoin
  }

  lemma ClosingStepWorks(s: State)
    requires Inv(s) && s.stopping && !s.shutdown.Joined?
    ensures Next(s, ClosingStep(s)).Some?
    ensures var next := Next(s, ClosingStep(s)).value;
            next.stopping && 0 <= Remaining(next) < Remaining(s)
  {
    match ClosingStep(s) {
      case Check =>
      case RunTask =>
      case Notify =>
      case ShutdownNotify =>
      case _ =>
    }
  }

  // From every state in which shutdown has begun, joining the worker can be reached: nobody waits for
  // the GIL while the thread that joins holds it.
  lemma {:induction false} ShutdownReturns(s: State) returns (steps: seq<Step>)
    requires Inv(s) && s.stopping
    ensures Replay(s, steps).Some? && Replay(s, steps).value.shutdown.Joined?
    decreases Remaining(s)
  {
    if s.shutdown.Joined? {
      steps := [];
    } else {
      var step := ClosingStep(s);
      ClosingStepWorks(s);
      TasksKept(s, step);
      ControlKept(s, step);
      var rest := ShutdownReturns(Next(s, step).value);
      steps := [step] + rest;
      assert steps[1..] == rest;
    }
  }

  // The GIL changing hands between the joining thread and threads other than the worker.
  predicate HandOff(step: Step) {
    step.MainTakesGil? || step.MainReleasesGil? || step.OtherTakesGil?
  }

  function HandOffs(steps: seq<Step>): nat {
    if steps == [] then 0 else HandOffs(steps[1..]) + if HandOff(steps[0]) then 1 else 0
  }

  function StepsLeft(s: State): int {
    Remaining(s) + s.owed
  }

  // Once stopping, every step uses up work, except that a hand-off may add one step.
  lemma StepUsesWork(s: State, step: Step)
    requires Inv(s) && s.stopping && Next(s, step).Some?
    ensures var next := Next(s, step).value;
            && next.stopping
            && StepsLeft(next) <= StepsLeft(s) + if HandOff(step) then 1 else -1
  {
    match step {
      case Check =>
      case Notify =>
      case RunTask =>
      case ShutdownNotify =>
      case _ =>
    }
  }

  // A run of a stopping executor is no longer than its work and its hand-offs allow, and as long as the
  // worker is not joined some step other than a hand-off is possible.  So a run in which the GIL changes
  // hands finitely often, and which goes on while it can, ends joined.
  lemma {:induction false} EveryRunJoins(s: State, steps: seq<Step>)
    requires Inv(s) && s.stopping && Replay(s, steps).Some?
    ensures |steps| <= StepsLeft(s) + 2 * HandOffs(steps)
    ensures var last := Replay(s, steps).value;
            last.shutdown.Joined? || exists step :: !HandOff(step) && Next(last, step).Some?
    decreases |steps|
  {
    if steps == [] {
      if !s.shutdown.Joined? {
        ClosingStepWorks(s);
        assert !HandOff(ClosingStep(s));
      }
    } else {
      StepUsesWork(s, steps[0]);
      TasksKept(s, steps[0]);
      ControlKept(s, steps[0]);
      EveryRunJoins(Next(s, steps[0]).value, steps[1..]);
    }
  }
}
