/** The thread pool class: every critical section performs its protocol event and no other. */
module ThreadPool {
  import opened ThreadPoolProtocol
  import opened Census
  import opened Wrappers

  class FifoScheduler<T> {
    const itsMaxSize: nat
    var itsQueue: seq<T>

    constructor (maxSize: nat)
      ensures itsMaxSize == maxSize && itsQueue == []
    {
      itsMaxSize := maxSize;
      itsQueue := [];
    }

    method Push(task: T) returns (inserted: bool)
      modifies this
      ensures inserted == (|old(itsQueue)| < itsMaxSize)
      ensures itsQueue == if inserted then old(itsQueue) + [task] else old(itsQueue)
    {
      inserted := |itsQueue| < itsMaxSize;
      if inserted {
        itsQueue := itsQueue + [task];
      }
    }

    method Pop() returns (task: T)
      requires itsQueue != []
      modifies this
      ensures [task] + itsQueue == old(itsQueue)
    {
      task := itsQueue[0];
      itsQueue := itsQueue[1..];
    }
  }

  /** How executeOne leaves the mutex. */
  datatype Decision<T> = Terminate | Wait | Run(task: T)

  class ThreadPool<T(!new)> {
    var itsIsRunning: bool
    var itsWorkerCount: nat
    var itsTargetWorkerCount: nat
    const itsScheduler: FifoScheduler<T>
    var itsWorkers: set<Worker>
    var itsWorkerSerial: nat

    ghost var phase: map<Worker, Phase>
    ghost var accepted: seq<T>
    ghost var taken: nat
    ghost var done: set<nat>

    ghost function View(): Pool<T>
      reads this, itsScheduler
    {
      Pool(itsIsRunning, itsWorkerCount, itsTargetWorkerCount, itsScheduler.itsMaxSize,
           itsScheduler.itsQueue, phase, itsWorkerSerial, accepted, taken, done)
    }

    /** The registered workers are the ones with a position. */
    ghost predicate Registered()
      reads this
    {
      itsWorkers == phase.Keys
    }

    constructor (poolSize: nat, schedulerSize: nat)
      ensures Registered() && fresh(itsScheduler)
      ensures View() == Create(poolSize, schedulerSize) && Inv(View())
    {
      itsIsRunning, itsWorkerCount, itsTargetWorkerCount := false, 0, poolSize;
      itsScheduler := new FifoScheduler<T>(schedulerSize);
      itsWorkers, itsWorkerSerial := {}, 0;
      phase, accepted, taken, done := map[], [], 0, {};
      new;
      Occupied(phase, Asleep);
    }

    method AddWorker()
      requires Registered()
      modifies this
      ensures Registered() && View() == ThreadPoolProtocol.AddWorker(old(View()))
    {
      itsWorkers := itsWorkers + {itsWorkerSerial};
      phase := phase[itsWorkerSerial := Ready];
      itsWorkerSerial := itsWorkerSerial + 1;
      itsWorkerCount := itsWorkerCount + 1;
    }

    method Start()
      requires Registered() && Sound(View())
      modifies this
      ensures Registered() && Sound(View()) && View() == Apply(old(View()), Event<T>.Start)
    {
      EventKeepsInv(View(), Event<T>.Start);
      if !itsIsRunning {
        for i := 0 to itsTargetWorkerCount
          invariant Registered() && View() == AddWorkers(old(View()), i)
          invariant itsTargetWorkerCount == old(itsTargetWorkerCount)
        {
          AddWorker();
        }
        itsIsRunning := true;
      }
    }

    method Schedule(task: T) returns (inserted: bool, ghost woken: Option<Worker>)
      requires Registered() && Sound(View())
      modifies this, itsScheduler
      ensures Registered() && Sound(View())
      ensures Enabled(old(View()), Event.Schedule(task, woken))
      ensures View() == Apply(old(View()), Event.Schedule(task, woken))
      ensures inserted <==> |old(itsScheduler.itsQueue)| < itsScheduler.itsMaxSize
    {
      woken := None;
      inserted := itsScheduler.Push(task);
      if inserted {
        accepted := accepted + [task];
        ghost var sleepers := Where(phase, Asleep);
        if sleepers != {} {
          ghost var w :| w in sleepers;
          woken := Some(w);
          phase := phase[w := Notified];
        }
      }
      EventKeepsInv(old(View()), Event.Schedule(task, woken));
    }

    /** The loop of resize that adds workers. */
    method FillUpTo(newSize: nat)
      requires Registered() && itsWorkerCount <= newSize
      modifies this
      ensures Registered() && View() == AddWorkers(old(View()), newSize - old(itsWorkerCount))
    {
      ghost var k := 0;
      while itsWorkerCount < newSize
        invariant itsWorkerCount == old(itsWorkerCount) + k <= newSize
        invariant Registered() && View() == AddWorkers(old(View()), k)
      {
        AddWorker();
        k := k + 1;
      }
    }

    method Resize(newSize: nat)
      requires Registered() && Sound(View())
      modifies this
      ensures Registered() && Sound(View()) && View() == Apply(old(View()), Event<T>.Resize(newSize))
    {
      EventKeepsInv(View(), Event<T>.Resize(newSize));
      if newSize == itsWorkerCount {
        return;
      }
      if newSize < itsWorkerCount {
        itsTargetWorkerCount := newSize;
        phase := NotifyAll(View()).workers;
      } else {
        FillUpTo(newSize);
        itsTargetWorkerCount := newSize;
      }
    }

    /** The part of shutdown up to its first wait for worker deaths. */
    method RequestShutdown()
      requires Registered() && Sound(View())
      modifies this
      ensures Registered() && Sound(View()) && View() == Apply(old(View()), Event<T>.Shutdown)
    {
      EventKeepsInv(View(), Event<T>.Shutdown);
      itsTargetWorkerCount := 0;
      phase := NotifyAll(View()).workers;
    }

    /** executeOne from taking the mutex until it returns, waits, or starts a task. */
    method EnterExecuteOne(w: Worker) returns (r: Decision<T>)
      requires Registered() && Sound(View()) && Enabled(View(), Event<T>.Enter(w))
      modifies this, itsScheduler
      ensures Registered() && Sound(View()) && View() == Apply(old(View()), Event<T>.Enter(w))
      ensures r.Terminate? <==> phase[w] == Dying
      ensures r.Wait? <==> phase[w] == Asleep
      ensures r.Run? ==> phase[w].Executing? && r.task == accepted[phase[w].task]
    {
      EventKeepsInv(View(), Event<T>.Enter(w));
      r := ExamineQueue(w);
    }

    /** executeOne from returning from its wait until it returns, waits again, or starts a task. */
    method WakeInExecuteOne(w: Worker) returns (r: Decision<T>)
      requires Registered() && Sound(View()) && Enabled(View(), Event<T>.Wake(w))
      modifies this, itsScheduler
      ensures Registered() && Sound(View()) && View() == Apply(old(View()), Event<T>.Wake(w))
      ensures r.Terminate? <==> phase[w] == Dying
      ensures r.Wait? <==> phase[w] == Asleep
      ensures r.Run? ==> phase[w].Executing? && r.task == accepted[phase[w].task]
    {
      EventKeepsInv(View(), Event<T>.Wake(w));
      r := ExamineQueue(w);
    }

    method ExamineQueue(w: Worker) returns (r: Decision<T>)
      requires Registered() && Sound(View()) && w in itsWorkers
      modifies this, itsScheduler
      ensures Registered() && View() == Examine(old(View()), w)
      ensures r.Terminate? <==> phase[w] == Dying
      ensures r.Wait? <==> phase[w] == Asleep
      ensures r.Run? ==> phase[w].Executing? && r.task == accepted[phase[w].task]
    {
      if itsTargetWorkerCount < itsWorkerCount {
        phase := phase[w := Dying];
        return Terminate;
      }
      if itsScheduler.itsQueue == [] {
        phase := phase[w := Asleep];
        return Wait;
      }
      var task := itsScheduler.Pop();
      phase := phase[w := Executing(taken)];
      taken := taken + 1;
      return Run(task);
    }

    /** The end of the task; `alive` is what executeOne returns. */
    ghost method FinishTask(w: Worker, threw: bool) returns (alive: bool)
      requires Registered() && Sound(View()) && Enabled(View(), Event<T>.Finish(w, threw))
      modifies this
      ensures Registered() && Sound(View()) && View() == Apply(old(View()), Event<T>.Finish(w, threw))
      ensures alive == !threw
    {
      EventKeepsInv(View(), Event<T>.Finish(w, threw));
      done := done + {phase[w].task};
      phase := phase[w := if threw then Dying else Ready];
      alive := !threw;
    }

    method Unregister(w: Worker)
      requires Registered() && Counted(View()) && w in itsWorkers
      modifies this`itsWorkers, this`phase, this`itsWorkerCount
      ensures Registered()
      ensures View() == old(View()).(workers := old(phase) - {w}, workerCount := old(itsWorkerCount) - 1)
    {
      assert |phase.Keys| > 0 by { assert w in phase.Keys; }
      itsWorkers := itsWorkers - {w};
      phase := phase - {w};
      itsWorkerCount := itsWorkerCount - 1;
    }

    method WorkerDied(w: Worker)
      requires Registered() && Sound(View()) && Enabled(View(), Event<T>.Died(w))
      modifies this
      ensures Registered() && Sound(View()) && View() == Apply(old(View()), Event<T>.Died(w))
    {
      EventKeepsInv(View(), Event<T>.Died(w));
      Unregister(w);
      if itsTargetWorkerCount > itsWorkerCount {
        AddWorker();
      }
    }
  }
}
