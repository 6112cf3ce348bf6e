/** The Python executor's state updated in place by `dispatch`, `shutdown` and the worker's `run`. */
module PythonExecutorState {
  import opened Wrappers
  import opened PythonExecutor

  // What the worker does with a batch of `n` tasks that dispatch nothing themselves.
  function BatchSteps(n: nat): seq<Step> {
    [TakeGil] + seq(n, _ => RunTask) + [ClearBatch, ReleaseGil]
  }

  function AfterBatch(s: State, batch: seq<Task>): State {
    s.(gil := Free, worker := Checking, executed := s.executed + batch, destroyed := s.destroyed + batch)
  }

  lemma {:induction false} RunsReplay(s: State, n: nat)
    requires s.worker.Running? && s.worker.done + n == |s.worker.batch|
    ensures Replay(s, seq(n, _ => RunTask) + [ClearBatch, ReleaseGil]) ==
            Some(s.(gil := Free, worker := Checking, executed := s.executed + s.worker.batch[s.worker.done..],
                    destroyed := s.destroyed + s.worker.batch))
    decreases n
  {
    var steps := seq(n, _ => RunTask) + [ClearBatch, ReleaseGil];
    if n == 0 {
      var cleared := Next(s, ClearBatch).value;
      assert steps[1..] == [ReleaseGil];
      assert Replay(cleared, [ReleaseGil]) == Some(cleared.(gil := Free, worker := Checking)) by {
        assert [ReleaseGil][1..] == [];
      }
      assert s.executed + s.worker.batch[s.worker.done..] == s.executed;
    } else {
      assert steps[1..] == seq(n - 1, _ => RunTask) + [ClearBatch, ReleaseGil];
      var next := Next(s, RunTask).value;
      RunsReplay(next, n - 1);
      assert s.executed + s.worker.batch[s.worker.done..] == next.executed + next.worker.batch[next.worker.done..];
    }
  }

  lemma BatchReplays(s: State)
    requires s.worker.Acquiring? && s.gil.Free?
    ensures Replay(s, BatchSteps(|s.worker.batch|)) == Some(AfterBatch(s, s.worker.batch))
  {
    var n := |s.worker.batch|;
    assert BatchSteps(n)[1..] == seq(n, _ => RunTask) + [ClearBatch, ReleaseGil];
    RunsReplay(Next(s, TakeGil).value, n);
  }

  class Executor {
    var tasks: seq<Task>
    var stopping: bool
    var worker: Worker
    var gil: Gil
    ghost var shutdown: Shutdown
    ghost var owed: nat
    ghost var accepted: seq<Task>
    ghost var executed: seq<Task>
    ghost var destroyed: seq<Task>
    ghost var inlined: seq<Task>
    ghost var swapsAfterStop: nat

    ghost function Model(): State
      reads this
    {
      State(tasks, stopping, worker, gil, shutdown, owed, accepted, executed, destroyed, inlined, swapsAfterStop)
    }

    constructor ()
      ensures Model() == INITIAL
    {
      tasks, stopping, worker, gil := [], false, Starting, Free;
      shutdown, owed, accepted, executed, destroyed, inlined := NotCalled, 0, [], [], [], [];
      swapsAfterStop := 0;
    }

    // Dispatching through a stopped executor ends the process, so callers must not.
    method Dispatch(task: Task, onWorkerThread: bool)
      requires !stopping
      requires onWorkerThread ==> worker.Running? && worker.done > 0
      modifies this
      ensures if onWorkerThread then Next(old(Model()), InlineDispatch(task)) == Some(Model())
              else Replay(old(Model()), [Enqueue(task), Notify]) == Some(Model())
      ensures onWorkerThread ==>
                && inlined == old(inlined) + [task] && tasks == old(tasks)
                && accepted == old(accepted) && worker == old(worker)
      ensures !onWorkerThread ==>
                && tasks == old(tasks) + [task] && accepted == old(accepted) + [task] && inlined == old(inlined)
                && worker == (if old(worker).Blocked? then Checking else old(worker))
      ensures executed == old(executed) && stopping == old(stopping) && gil == old(gil)
    {
      if onWorkerThread {
        inlined := inlined + [task];
      } else {
        tasks := tasks + [task];
        accepted := accepted + [task];
        owed := owed + 1;
        ghost var enqueued := Model();
        owed := owed - 1;
        if worker.Blocked? {
          worker := Checking;
        }
        assert Replay(enqueued, [Enqueue(task), Notify][1..]) == Some(Model()) by {
          assert Replay(Model(), [Notify][1..]) == Some(Model());
        }
      }
    }

    // The worker's turn under the mutex: block, leave, or swap the whole queue out.
    method SwapBatch()
      requires worker.Checking?
      modifies `tasks, `worker, `swapsAfterStop
      ensures Model() == CheckStep(old(Model()))
      ensures if old(tasks) != [] then worker == Acquiring(old(tasks)) && tasks == []
              else tasks == [] && worker == if stopping then Exited else Blocked
    {
      if !stopping && tasks == [] {
        worker := Blocked;
        return;
      }
      var batch := tasks;
      tasks := [];
      if batch == [] && stopping {
        worker := Exited;
        return;
      }
      worker := Acquiring(batch);
      swapsAfterStop := swapsAfterStop + if stopping then 1 else 0;
    }

    // The batch runs and its captures are destroyed while the GIL is held.
    method RunBatch()
      requires worker.Acquiring? && gil.Free?
      modifies `worker, `gil, `executed, `destroyed
      ensures Model() == AfterBatch(old(Model()), old(worker.batch))
      ensures executed == old(executed) + old(worker.batch) && destroyed == old(destroyed) + old(worker.batch)
      ensures Replay(old(Model()), BatchSteps(|old(worker.batch)|)) == Some(Model())
    {
      BatchReplays(Model());
      gil := HeldByWorker;
      worker := Running(worker.batch, 0);
      FinishBatch();
    }

    // What is left of a batch: the tasks from `done` on, the captures, the GIL.
    method FinishBatch()
      requires worker.Running? && worker.done <= |worker.batch|
      modifies `worker, `gil, `executed, `destroyed
      ensures worker == Checking && gil == Free
      ensures executed == old(executed) + old(worker.batch[worker.done..])
      ensures destroyed == old(destroyed) + old(worker.batch)
    {
      var batch, i := worker.batch, worker.done;
      ghost var start := i;
      while i < |batch|
        invariant start <= i <= |batch|
        invariant worker == Running(batch, i) && gil == old(gil) && destroyed == old(destroyed)
        invariant executed == old(executed) + batch[start..i]
      {
        executed := executed + [batch[i]];
        i := i + 1;
        worker := Running(batch, i);
      }
      destroyed := destroyed + batch;
      gil := Free;
      worker := Checking;
    }

    // The worker finishes what it has begun and comes back to the mutex; other threads let go of the GIL.
    method FinishTurn()
      requires Inv(Model()) && !gil.HeldByMain? && !worker.Blocked? && !worker.Exited?
      modifies `worker, `gil, `executed, `destroyed
      ensures worker.Checking? && gil.Free?
      ensures executed == destroyed && accepted == executed + tasks
    {
      if gil.HeldByOther? {
        gil := Free;
      }
      match worker {
        case Starting => worker := Checking;
        case Acquiring(_) => RunBatch();
        case Running(batch, done) =>
          assert batch[..done] + batch[done..] == batch;
          FinishBatch();
        case Releasing => gil, worker := Free, Checking;
        case _ =>
      }
    }

    // The worker's loop, wherever it is once `shutdown` has set the flag and woken it.
    method Drain()
      requires Inv(Model()) && stopping && !gil.HeldByMain? && !worker.Blocked? && !worker.Exited?
      modifies `tasks, `worker, `gil, `executed, `destroyed, `swapsAfterStop
      ensures worker == Exited && tasks == [] && gil == Free
      ensures executed == destroyed == accepted == old(accepted)
    {
      FinishTurn();
      while true
        invariant stopping && gil.Free? && worker.Checking? && accepted == old(accepted)
        invariant executed == destroyed && accepted == executed + tasks
        decreases |tasks|
      {
        SwapBatch();
        if worker.Exited? {
          break;
        }
        RunBatch();
      }
    }

    // `shutdown` called by a thread that may hold the GIL, wherever the worker is: the worker drains while
    // the caller waits in the join, and the caller has the GIL back afterwards if it had it.
    method ShutDown()
      requires Inv(Model())
      modifies this
      ensures old(stopping) ==> Model() == old(Model())
      ensures !old(stopping) ==>
                && stopping && shutdown == Joined && worker == Exited
                && gil == (if old(gil).HeldByMain? then HeldByMain else Free)
                && tasks == [] && executed == destroyed == accepted == old(accepted)
    {
      if stopping {
        return;
      }
      stopping, shutdown := true, Marked;
      if worker.Blocked? {
        worker := Checking;
      }
      shutdown := Notified;
      var released := gil.HeldByMain?;
      if released {
        gil := Free;
      }
      shutdown := Joining(released);
      Drain();
      shutdown := Joined;
      if released {
        gil := HeldByMain;
      }
    }
  }
}
