/** The task group class: every critical section performs its protocol event. */
module AsyncTaskGroup {
  import opened TaskGroupProtocol
  import opened Wrappers

  datatype Error = TaskNotFound | TasksFailed

  class AsyncTaskGroup {
    const max_parallel_tasks: nat
    var counter: nat
    var active_tasks: map<nat, string>
    var completed_tasks: seq<Ended>
    var num_succeeded: nat
    var num_failed: nat
    var stop_requested: bool
    var stop_on_error: bool
    var exception_info: seq<Ended>

    ghost var running: set<nat>
    ghost var ended: seq<Ended>
    ghost var taken: nat
    ghost var cleared: nat
    ghost var call: Call
    ghost var position: Position

    ghost function Book(): Tasks
      reads this
    {
      Tasks(counter, active_tasks, completed_tasks, running, ended, taken)
    }

    ghost function View(): Group
      reads this
    {
      Group(max_parallel_tasks, Book(), Results(num_succeeded, num_failed, exception_info, cleared),
            stop_requested, stop_on_error, call, position)
    }

    ghost predicate Valid()
      reads this
    {
      View() in Lawful()
    }

    constructor (max: nat)
      ensures Valid() && View() == Create(max)
    {
      CreateInv(max);
      max_parallel_tasks := max;
      counter, active_tasks, completed_tasks := 0, map[], [];
      num_succeeded, num_failed, exception_info := 0, 0, [];
      stop_requested, stop_on_error := false, false;
      running, ended, taken, cleared := {}, [], 0, 0;
      call, position := NoCall, Outside;
    }

    /** The thread begins one of its calls. */
    ghost method Begin(e: Event)
      requires Valid() && Enabled(View(), e) && (e.BeginAdd? || e.BeginWait? || e.BeginHandle?)
      modifies this`call, this`position
      ensures Valid() && View() == Apply(old(View()), e)
    {
      EventStaysLawful(View(), e);
      var s := Apply(View(), e);
      call, position := s.call, s.position;
    }

    /** `add` asks whether there is room for one more task. */
    method CheckRoom() returns (room: bool)
      requires Valid() && Enabled(View(), CheckActive)
      modifies this`position
      ensures Valid() && View() == Apply(old(View()), CheckActive)
      ensures room <==> position == HasRoom
    {
      EventStaysLawful(View(), CheckActive);
      room := |active_tasks| < max_parallel_tasks;
      position := if room then HasRoom else AtWait;
    }

    /** `wait_some` looks at its predicate, for the first time or after a wakeup. */
    method CheckPredicate() returns (ready: bool)
      requires Valid() && (Enabled(View(), CheckEnded) || Enabled(View(), WakeUp))
      modifies this`position
      ensures Valid() && View() == Apply(old(View()), if old(position).AtWait? then CheckEnded else WakeUp)
      ensures ready <==> position == FoundWork
    {
      EventStaysLawful(View(), if position.AtWait? then CheckEnded else WakeUp);
      ready := |active_tasks| == 0 || |completed_tasks| > 0;
      position := if ready then FoundWork else Asleep(false);
    }

    /** The locked part of `handle_finished`: the first of the ended tasks, or nothing. */
    method TakeFinished() returns (task: Option<Ended>)
      requires Valid() && Enabled(View(), TakeEnded)
      modifies this`completed_tasks, this`taken, this`position, this`call
      ensures Valid() && View() == Apply(old(View()), TakeEnded)
      ensures task == if old(completed_tasks) == [] then None else Some(old(completed_tasks)[0])
    {
      EventStaysLawful(View(), TakeEnded);
      task := PopFinished();
    }

    method PopFinished() returns (task: Option<Ended>)
      requires Enabled(View(), TakeEnded)
      modifies this`completed_tasks, this`taken, this`position, this`call
      ensures View() == Apply(old(View()), TakeEnded)
      ensures task == if old(completed_tasks) == [] then None else Some(old(completed_tasks)[0])
    {
      if |completed_tasks| == 0 {
        task := None;
        if call.Adding? {
          position := AtAdd;
        } else {
          position, call := Outside, NoCall;
        }
      } else {
        task := Some(completed_tasks[0]);
        completed_tasks := completed_tasks[1..];
        taken, position := taken + 1, Handling(task.value);
      }
    }

    /** Keeps the failure, and at most a hundred of them. */
    method NoteFailure(task: Ended)
      modifies this`exception_info
      ensures exception_info == Noted(old(exception_info), task)
    {
      while |exception_info| >= MaxExceptions
        invariant |exception_info| <= |old(exception_info)|
        invariant exception_info == old(exception_info)[|old(exception_info)| - |exception_info|..]
        invariant |exception_info| >= MaxExceptions - 1 || exception_info == old(exception_info)
        decreases |exception_info|
      {
        exception_info := exception_info[1..];
      }
      exception_info := exception_info + [task];
    }

    /** The rest of `handle_finished`. A task that failed may stop the group and end in an exception. */
    method HandleFinished(task: Ended) returns (r: Result<bool, Error>)
      requires Valid() && position == Handling(task)
      modifies this
      ensures Valid() && View() == Apply(old(View()), HandleTask)
      ensures r == if Throws(old(stop_on_error), task) then Failure(TasksFailed) else Success(true)
    {
      EventStaysLawful(View(), HandleTask);
      r := Evaluate(task);
    }

    method Evaluate(task: Ended) returns (r: Result<bool, Error>)
      requires position == Handling(task)
      modifies this
      ensures View() == Apply(old(View()), HandleTask)
      ensures r == if Throws(old(stop_on_error), task) then Failure(TasksFailed) else Success(true)
    {
      var some_failed := false;
      match task.outcome {
        case Ok => num_succeeded := num_succeeded + 1;
        case Interrupted =>
        case Failed =>
          some_failed := true;
          num_failed := num_failed + 1;
          NoteFailure(task);
      }
      var (c, p) := Onwards(call, Throws(stop_on_error, task));
      call, position := c, p;
      if stop_on_error && some_failed {
        stop_requested := true;
        return Failure(TasksFailed);
      }
      r := Success(true);
    }

    /** The locked part of `add`: after a stop request, nothing is added. */
    method StartTask(name: string)
      requires Valid() && position == HasRoom && call == Adding(name)
      modifies this`counter, this`active_tasks, this`running, this`call, this`position
      ensures Valid() && View() == Apply(old(View()), CreateTask)
    {
      EventStaysLawful(View(), CreateTask);
      AddTask(name);
    }

    method AddTask(name: string)
      requires position == HasRoom && call == Adding(name)
      modifies this`counter, this`active_tasks, this`running, this`call, this`position
      ensures View() == Apply(old(View()), CreateTask)
    {
      if !stop_requested {
        counter := counter + 1;
        active_tasks := active_tasks[counter := name];
        running := running + {counter};
      }
      call, position := NoCall, Outside;
    }

    /** Called by the thread of a task, which always finds its task. */
    method OnTaskCompleted(id: nat, outcome: Outcome) returns (r: Result<bool, Error>)
      requires Valid() && id in running
      modifies this`active_tasks, this`completed_tasks, this`running, this`ended, this`position
      ensures Valid() && View() == Apply(old(View()), Report(id, outcome))
      ensures r.Success?
    {
      EventStaysLawful(View(), Report(id, outcome));
      LawfulReportFindsTask(View(), id, outcome);
      r := Complete(id, outcome);
    }

    method Complete(id: nat, outcome: Outcome) returns (r: Result<bool, Error>)
      requires id in running
      modifies this`active_tasks, this`completed_tasks, this`running, this`ended, this`position
      ensures View() == Apply(old(View()), Report(id, outcome))
      ensures r.Success? <==> id in old(active_tasks)
    {
      if id !in active_tasks {
        return Failure(TaskNotFound);
      }
      var task := Ended(id, active_tasks[id], outcome);
      completed_tasks := completed_tasks + [task];
      active_tasks := active_tasks - {id};
      ended, running := ended + [task], running - {id};
      if position.Asleep? {
        position := Asleep(true);
      }
      r := Success(true);
    }

    /** Asks for no more tasks to be added; cancelling the active ones is up to their threads. */
    method RequestStop()
      requires Valid()
      modifies this`stop_requested
      ensures Valid() && View() == Apply(old(View()), Stop)
    {
      EventStaysLawful(View(), Stop);
      stop_requested := true;
    }

    method StopOnError(enable: bool) returns (before: bool)
      requires Valid()
      modifies this`stop_on_error
      ensures Valid() && View() == Apply(old(View()), SetStopOnError(enable)) && before == old(stop_on_error)
    {
      EventStaysLawful(View(), SetStopOnError(enable));
      before := stop_on_error;
      stop_on_error := enable;
    }

    method GetAndClearExceptionInfo() returns (info: seq<Ended>)
      requires Valid() && position.Outside?
      modifies this`exception_info, this`cleared
      ensures Valid() && View() == Apply(old(View()), ClearInfo) && info == old(exception_info)
    {
      EventStaysLawful(View(), ClearInfo);
      info := exception_info;
      exception_info, cleared := [], taken;
    }
  }
}
