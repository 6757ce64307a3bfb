/** The work queue class: every critical section performs its protocol event. */
module WorkQueue {
  import P = WorkQueueProtocol
  import opened Census
  import opened Wrappers

  datatype Error = ConcurrencyMustNotBeZero

  /** How `consume` leaves the mutex. */
  datatype Decision<T> = Process(item: T) | Exit | Wait

  class WorkQueue<T> {
    const threads: nat
    var done: bool
    var queue: seq<T>

    ghost var consumers: map<P.Consumer, P.Phase>
    ghost var producer: P.Producer<T>
    ghost var todo: seq<T>
    ghost var accepted: seq<T>
    ghost var taken: nat
    ghost var processed: set<nat>

    ghost function View(): P.Queue<T>
      reads this
    {
      P.Queue(threads, done, queue, consumers, producer, todo, accepted, taken, processed)
    }

    ghost predicate Valid()
      reads this
    {
      P.Inv(View())
    }

    constructor (concurrency: nat, ghost program: seq<T>)
      requires concurrency > 0
      ensures Valid() && View() == P.Create(concurrency, program)
    {
      P.CreateInv(concurrency, program);
      threads, done, queue := concurrency, false, [];
      consumers := P.Create(concurrency, program).consumers;
      producer, todo, accepted, taken, processed := P.Idle, program, [], 0, {};
    }

    /** Construction as the caller sees it: a concurrency of zero throws. */
    static method Make(concurrency: nat, ghost program: seq<T>) returns (r: Result<WorkQueue<T>, Error>)
      ensures r.Failure? <==> concurrency == 0
      ensures r.Success? ==> fresh(r.value) && r.value.Valid() && r.value.View() == P.Create(concurrency, program)
    {
      if concurrency == 0 {
        return Failure(ConcurrencyMustNotBeZero);
      }
      var q := new WorkQueue<T>(concurrency, program);
      return Success(q);
    }

    ghost method NotifyOne() returns (woken: P.Sleeper)
      modifies this`consumers, this`producer
      ensures P.CanWake(old(View()), woken)
      ensures View() == P.NotifyOne(old(View()), woken)
    {
      woken := P.SomeSleeper(View());
      consumers, producer := P.NotifyOne(View(), woken).consumers, P.NotifyOne(View(), woken).producer;
    }

    /** operator() up to its return or its first wait. */
    method Put(item: T) returns (accepting: bool, ghost woken: P.Sleeper)
      requires Valid() && producer.Idle? && todo != [] && item == todo[0]
      modifies this
      ensures Valid() && P.Enabled(old(View()), P.Put(woken)) && View() == P.Apply(old(View()), P.Put(woken))
      ensures accepting <==> |old(queue)| < threads
    {
      todo := todo[1..];
      accepting, woken := PutOrWait(item);
      P.EventKeepsInv(old(View()), P.Put(woken));
    }

    /** operator() from a wakeup to its return or its next wait. */
    method PutAgain(item: T) returns (accepting: bool, ghost woken: P.Sleeper)
      requires Valid() && producer == P.Woken(item)
      modifies this
      ensures Valid() && P.Enabled(old(View()), P.PutAgain(woken)) && View() == P.Apply(old(View()), P.PutAgain(woken))
      ensures accepting <==> |old(queue)| < threads
    {
      accepting, woken := PutOrWait(item);
      P.EventKeepsInv(old(View()), P.PutAgain(woken));
    }

    method PutOrWait(item: T) returns (accepting: bool, ghost woken: P.Sleeper)
      requires |queue| <= threads && !producer.Waiting?
      modifies this
      ensures if |old(queue)| == threads then woken.NoSleeper? else P.CanWake(old(View()), woken)
      ensures View() == P.PutOrWait(old(View()), item, woken)
      ensures accepting <==> |old(queue)| < threads
    {
      if |queue| == threads {
        producer := P.Waiting(item);
        return false, P.NoSleeper;
      }
      woken := NotifyOne();
      queue := queue + [item];
      accepted := accepted + [item];
      producer := P.Idle;
      accepting := true;
    }

    /** One turn of the loop in `consume`, from holding the mutex to releasing it. */
    method ConsumeTurn(c: P.Consumer) returns (r: Decision<T>, ghost woken: P.Sleeper)
      requires Valid() && c in consumers && (consumers[c] == P.Ready || consumers[c] == P.Notified)
      modifies this
      ensures Valid() && P.Enabled(old(View()), P.Take(c, woken)) && View() == P.Apply(old(View()), P.Take(c, woken))
      ensures r.Process? ==> consumers[c] == P.Processing(old(taken)) && r.item == accepted[old(taken)]
      ensures r.Exit? <==> consumers[c] == P.Exited
      ensures r.Wait? <==> consumers[c] == P.Asleep
    {
      r, woken := TakeOrWait(c);
      P.EventKeepsInv(old(View()), P.Take(c, woken));
    }

    method TakeOrWait(c: P.Consumer) returns (r: Decision<T>, ghost woken: P.Sleeper)
      requires P.Ledger(View()) && c in consumers && (consumers[c] == P.Ready || consumers[c] == P.Notified)
      modifies this
      ensures P.Enabled(old(View()), P.Take(c, woken)) && View() == P.Apply(old(View()), P.Take(c, woken))
      ensures r.Process? ==> consumers[c] == P.Processing(old(taken)) && r.item == accepted[old(taken)]
      ensures r.Exit? <==> consumers[c] == P.Exited
      ensures r.Wait? <==> consumers[c] == P.Asleep
    {
      woken := P.NoSleeper;
      if queue != [] {
        r := Process(queue[0]);
        woken := NotifyOne();
        queue := queue[1..];
        consumers := consumers[c := P.Processing(taken)];
        taken := taken + 1;
      } else if done {
        consumers := consumers[c := P.Exited];
        r := Exit;
      } else {
        consumers := consumers[c := P.Asleep];
        r := Wait;
      }
    }

    /** `process(item)` has returned and the consumer asks for the mutex again. */
    ghost method FinishProcessing(c: P.Consumer)
      requires Valid() && P.Enabled(View(), P.Processed(c))
      modifies this
      ensures Valid() && View() == P.Apply(old(View()), P.Processed(c))
    {
      P.EventKeepsInv(View(), P.Processed(c));
      processed := processed + {consumers[c].item};
      consumers := consumers[c := P.Ready];
    }

    /** join_all up to the point where it starts joining the threads. */
    method JoinAll()
      requires Valid() && producer.Idle? && todo == []
      modifies this
      ensures Valid() && View() == P.Apply(old(View()), P.JoinAll)
    {
      P.EventKeepsInv(View(), P.JoinAll);
      assert !done;
      done := true;
      consumers := P.NotifyAll(View()).consumers;
      producer := P.Producer.Joining;
    }
  }
}
