/**
 The dynamic thread pool as a monitor.

 A pool value holds the fields that the mutex protects together with the position of every
 worker thread.  One event is one critical section: from taking the mutex to releasing it or
 to waiting on the data condition variable.  The class `ThreadPool` in ThreadPoolClass.dfy is
 proved to perform exactly these events.
 */
module ThreadPoolProtocol {
  import opened Census
  import opened Wrappers

  type Worker = nat

  /** Where a worker thread is: about to enter executeOne; waiting for data and not yet
      notified; woken and about to retake the mutex; running a task outside the mutex; or
      about to enter workerDied.  A task is named by its position in the log of accepted tasks. */
  datatype Phase = Ready | Asleep | Notified | Executing(task: nat) | Dying

  datatype Pool<T> = Pool(
    isRunning: bool,
    workerCount: int,
    target: nat,
    maxQueue: nat,
    queue: seq<T>,
    workers: map<Worker, Phase>,   // itsWorkers
    serial: nat,                   // names the next worker
    accepted: seq<T>,              // log of all accepted tasks
    taken: nat,                    // how many accepted tasks have left the queue
    done: set<nat>)                // tasks that have ended, normally or by an exception

  datatype Event<T> =
    | Start
    | Schedule(task: T, woken: Option<Worker>)
    | Resize(newSize: nat)
    | Shutdown
    | Enter(w: Worker)
    | Wake(w: Worker)
    | Spurious(w: Worker)
    | Finish(w: Worker, threw: bool)
    | Died(w: Worker)

  ghost function Create<T>(poolSize: nat, schedulerSize: nat): Pool<T> {
    Pool(false, 0, poolSize, schedulerSize, [], map[], 0, [], 0, {})
  }

  ghost function At<T>(s: Pool<T>, w: Worker, p: Phase): Pool<T> {
    s.(workers := s.workers[w := p])
  }

  ghost function AddWorker<T>(s: Pool<T>): Pool<T> {
    At(s, s.serial, Ready).(serial := s.serial + 1, workerCount := s.workerCount + 1)
  }

  ghost function AddWorkers<T>(s: Pool<T>, n: nat): Pool<T> {
    if n == 0 then s else AddWorker(AddWorkers(s, n - 1))
  }

  ghost function NotifyAll<T>(s: Pool<T>): Pool<T> {
    s.(workers := map w | w in s.workers :: if s.workers[w] == Asleep then Notified else s.workers[w])
  }

  ghost function Notify<T>(s: Pool<T>, woken: Option<Worker>): Pool<T> {
    if woken.Some? then At(s, woken.value, Notified) else s
  }

  /** What a worker decides while it holds the mutex, whether it has just entered or just woken. */
  ghost function Examine<T>(s: Pool<T>, w: Worker): Pool<T> {
    if s.target < s.workerCount then
      At(s, w, Dying)
    else if s.queue == [] then
      At(s, w, Asleep)
    else
      At(s, w, Executing(s.taken)).(queue := s.queue[1..], taken := s.taken + 1)
  }

  ghost predicate Sleeping<T>(s: Pool<T>) {
    Count(s.workers, Asleep) > 0
  }

  ghost predicate Enabled<T>(s: Pool<T>, e: Event<T>) {
    match e
    case Schedule(_, woken) =>
      if |s.queue| < s.maxQueue && Sleeping(s) then woken.Some? && woken.value in Where(s.workers, Asleep)
      else woken.None?
    case Enter(w) => w in s.workers && s.workers[w] == Ready
    case Wake(w) => w in s.workers && s.workers[w] == Notified
    case Spurious(w) => w in s.workers && s.workers[w] == Asleep
    case Finish(w, _) => w in s.workers && s.workers[w].Executing?
    case Died(w) => w in s.workers && s.workers[w] == Dying
    case _ => true
  }

  ghost function Apply<T>(s: Pool<T>, e: Event<T>): Pool<T>
    requires Enabled(s, e)
  {
    match e
    case Start =>
      if s.isRunning then s else AddWorkers(s, s.target).(isRunning := true)
    case Schedule(task, woken) =>
      if |s.queue| < s.maxQueue then
        Notify(s.(queue := s.queue + [task], accepted := s.accepted + [task]), woken)
      else s
    case Resize(n) =>
      if n == s.workerCount then s
      else if n < s.workerCount then NotifyAll(s.(target := n))
      else AddWorkers(s, n - s.workerCount).(target := n)
    case Shutdown => NotifyAll(s.(target := 0))
    case Enter(w) => Examine(s, w)
    case Wake(w) => Examine(s, w)
    case Spurious(w) => At(s, w, Notified)
    case Finish(w, threw) =>
      At(s, w, if threw then Dying else Ready).(done := s.done + {s.workers[w].task})
    case Died(w) =>
      var t := s.(workers := s.workers - {w}, workerCount := s.workerCount - 1);
      if t.target > t.workerCount then AddWorker(t) else t
  }

  // ---------------------------------------------------------------- the invariant

  /** itsWorkerCount counts the registered workers. */
  ghost predicate Counted<T>(s: Pool<T>) {
    && s.workerCount == |s.workers|
    && forall w :: w in s.workers ==> w < s.serial
  }

  /** Task `k` is in the hands of worker `w`. */
  ghost predicate Runs<T>(s: Pool<T>, w: Worker, k: nat) {
    w in s.workers && s.workers[w] == Executing(k)
  }

  /** The queue is the part of the log not yet taken; each taken task is either run by
      exactly one worker or has ended, never both. */
  ghost predicate Ledger<T>(s: Pool<T>) {
    && s.taken <= |s.accepted|
    && s.queue == s.accepted[s.taken..]
    && |s.queue| <= s.maxQueue
    && (forall k :: k in s.done ==> k < s.taken)
    && (forall w: Worker, k: nat :: Runs(s, w, k) ==> k < s.taken && k !in s.done)
    && (forall v, w, k :: Runs(s, v, k) && Runs(s, w, k) ==> v == w)
    && (forall k: nat :: k < s.taken && k !in s.done ==> exists w :: Runs(s, w, k))
  }

  /** Nobody sleeps while the pool is too large, or while a task has no notified worker coming. */
  ghost predicate NoLostWakeup<T>(s: Pool<T>) {
    Sleeping(s) ==> s.workerCount <= s.target && |s.queue| <= Count(s.workers, Notified)
  }

  /** What holds in every state, however the pool is used. */
  ghost predicate Sound<T>(s: Pool<T>) {
    Counted(s) && Ledger(s)
  }

  ghost predicate Inv<T>(s: Pool<T>) {
    && Sound(s)
    && NoLostWakeup(s)
    && (s.isRunning ==> s.target <= s.workerCount)
  }

  /** `start` must not meet sleeping workers; only a `resize` before `start` can create them. */
  ghost predicate Orderly<T>(s: Pool<T>, e: Event<T>) {
    e.Start? && !s.isRunning ==> !Sleeping(s)
  }

  lemma AddWorkerEffect<T>(s: Pool<T>)
    requires Counted(s)
    ensures Counted(AddWorker(s))
    ensures forall w, k :: Runs(AddWorker(s), w, k) <==> Runs(s, w, k)
    ensures forall p :: Count(AddWorker(s).workers, p) == Count(s.workers, p) + if p == Ready then 1 else 0
  {
    forall p ensures Count(AddWorker(s).workers, p) == Count(s.workers, p) + if p == Ready then 1 else 0 {
      Moved(s.workers, s.serial, Ready, p);
    }
  }

  lemma {:induction false} AddWorkersEffect<T>(s: Pool<T>, n: nat)
    requires Counted(s)
    ensures var t := AddWorkers(s, n);
            && Counted(t)
            && t == s.(workers := t.workers, serial := t.serial, workerCount := s.workerCount + n)
            && (forall w, k :: Runs(t, w, k) <==> Runs(s, w, k))
            && forall p :: Count(t.workers, p) == Count(s.workers, p) + if p == Ready then n else 0
  {
    if n > 0 {
      AddWorkersEffect(s, n - 1);
      AddWorkerEffect(AddWorkers(s, n - 1));
    }
  }

  lemma NotifyAllEffect<T>(s: Pool<T>)
    ensures var t := NotifyAll(s);
            && t.workers.Keys == s.workers.Keys && |t.workers| == |s.workers|
            && !Sleeping(t)
            && forall w, k :: Runs(t, w, k) <==> Runs(s, w, k)
  {
    var t := NotifyAll(s);
    assert t.workers.Keys == s.workers.Keys;
    assert |t.workers.Keys| == |s.workers.Keys|;
    Occupied(t.workers, Asleep);
  }

  /** A ledger depends on the log, the queue and on who runs what. */
  lemma LedgerFrame<T>(s: Pool<T>, t: Pool<T>)
    requires Ledger(s)
    requires t.taken == s.taken && t.accepted == s.accepted && t.queue == s.queue && t.done == s.done
    requires t.maxQueue == s.maxQueue
    requires forall w, k :: Runs(t, w, k) <==> Runs(s, w, k)
    ensures Ledger(t)
  {
    forall k: nat | k < t.taken && k !in t.done ensures exists w :: Runs(t, w, k) {
      var w :| Runs(s, w, k);
      assert Runs(t, w, k);
    }
  }

  lemma ExamineKeeps<T>(s: Pool<T>, w: Worker)
    requires Sound(s) && w in s.workers && (s.workers[w] == Ready || s.workers[w] == Notified)
    ensures Sound(Examine(s, w)) && (Inv(s) ==> Inv(Examine(s, w)))
  {
    var t := Examine(s, w);
    Moved(s.workers, w, t.workers[w], Asleep);
    Moved(s.workers, w, t.workers[w], Notified);
    assert t.workers.Keys == s.workers.Keys;
    if s.target < s.workerCount || s.queue == [] {
      LedgerFrame(s, t);
    } else {
      assert forall v, k :: Runs(t, v, k) <==> Runs(s, v, k) || (v == w && k == s.taken);
      forall k: nat | k < t.taken && k !in t.done ensures exists v :: Runs(t, v, k) {
        if k < s.taken {
          var v :| Runs(s, v, k);
          assert Runs(t, v, k);
        } else {
          assert Runs(t, w, k);
        }
      }
    }
  }

  lemma FinishKeeps<T>(s: Pool<T>, e: Event<T>)
    requires Sound(s) && e.Finish? && Enabled(s, e)
    ensures Sound(Apply(s, e)) && (Inv(s) ==> Inv(Apply(s, e)))
  {
    var t := Apply(s, e);
    Moved(s.workers, e.w, t.workers[e.w], Asleep);
    Moved(s.workers, e.w, t.workers[e.w], Notified);
    assert t.workers.Keys == s.workers.Keys;
    assert Runs(s, e.w, s.workers[e.w].task);
    assert forall v, k :: Runs(t, v, k) <==> Runs(s, v, k) && v != e.w;
    forall k: nat | k < t.taken && k !in t.done ensures exists v :: Runs(t, v, k) {
      var v :| Runs(s, v, k);
      assert Runs(t, v, k);
    }
  }

  lemma DiedKeeps<T>(s: Pool<T>, e: Event<T>)
    requires Sound(s) && e.Died? && Enabled(s, e)
    ensures Sound(Apply(s, e)) && (Inv(s) ==> Inv(Apply(s, e)))
  {
    var t := s.(workers := s.workers - {e.w}, workerCount := s.workerCount - 1);
    Left(s.workers, e.w, Asleep);
    Left(s.workers, e.w, Notified);
    assert t.workers.Keys == s.workers.Keys - {e.w};
    assert |t.workers.Keys| == |s.workers.Keys| - 1;
    LedgerFrame(s, t);
    AddWorkerEffect(t);
    LedgerFrame(t, AddWorker(t));
  }

  lemma ScheduleKeeps<T>(s: Pool<T>, e: Event<T>)
    requires Sound(s) && e.Schedule? && Enabled(s, e)
    ensures Sound(Apply(s, e)) && (Inv(s) ==> Inv(Apply(s, e)))
  {
    var t := Apply(s, e);
    if |s.queue| < s.maxQueue {
      if e.woken.Some? {
        Moved(s.workers, e.woken.value, Notified, Asleep);
        Moved(s.workers, e.woken.value, Notified, Notified);
        assert t.workers.Keys == s.workers.Keys;
      }
      assert forall w, k :: Runs(t, w, k) <==> Runs(s, w, k);
      forall k: nat | k < t.taken && k !in t.done ensures exists w :: Runs(t, w, k) {
        var w :| Runs(s, w, k);
        assert Runs(t, w, k);
      }
    }
  }

  lemma SpuriousKeeps<T>(s: Pool<T>, e: Event<T>)
    requires Sound(s) && e.Spurious? && Enabled(s, e)
    ensures Sound(Apply(s, e)) && (Inv(s) ==> Inv(Apply(s, e)))
  {
    var t := Apply(s, e);
    Moved(s.workers, e.w, Notified, Asleep);
    Moved(s.workers, e.w, Notified, Notified);
    assert t.workers.Keys == s.workers.Keys;
    LedgerFrame(s, t);
  }

  lemma StartKeeps<T>(s: Pool<T>)
    requires Sound(s)
    ensures Sound(Apply(s, Start)) && (Inv(s) && Orderly(s, Start) ==> Inv(Apply(s, Start)))
  {
    if !s.isRunning {
      AddWorkersEffect(s, s.target);
      LedgerFrame(s, Apply(s, Start));
    }
  }

  lemma ResizeKeeps<T>(s: Pool<T>, n: nat)
    requires Sound(s)
    ensures Sound(Apply(s, Resize(n))) && (Inv(s) ==> Inv(Apply(s, Resize(n))))
  {
    if s.workerCount < n {
      AddWorkersEffect(s, n - s.workerCount);
    } else {
      NotifyAllEffect(s.(target := n));
    }
    LedgerFrame(s, Apply(s, Resize(n)));
  }

  lemma ShutdownKeeps<T>(s: Pool<T>)
    requires Sound(s)
    ensures Sound(Apply(s, Shutdown)) && (Inv(s) ==> Inv(Apply(s, Shutdown)))
  {
    NotifyAllEffect(s.(target := 0));
    LedgerFrame(s, Apply(s, Shutdown));
  }

  /** Every interleaving: one critical section of any thread keeps the invariant. */
  lemma EventKeepsInv<T>(s: Pool<T>, e: Event<T>)
    requires Sound(s) && Enabled(s, e)
    ensures Sound(Apply(s, e))
    ensures Inv(s) && Orderly(s, e) ==> Inv(Apply(s, e))
  {
    match e
    case Schedule(_, _) => ScheduleKeeps(s, e);
    case Enter(w) => ExamineKeeps(s, w);
    case Wake(w) => ExamineKeeps(s, w);
    case Spurious(_) => SpuriousKeeps(s, e);
    case Finish(_, _) => FinishKeeps(s, e);
    case Died(_) => DiedKeeps(s, e);
    case Start => StartKeeps(s);
    case Resize(n) => ResizeKeeps(s, n);
    case Shutdown => ShutdownKeeps(s);
  }

  /** The price of a `resize` before `start`: `start` adds itsTargetWorkerCount workers whatever
      the pool already has, which is harmless exactly when nobody sleeps yet. */
  lemma StartKeepsInvIff<T>(s: Pool<T>)
    requires Inv(s) && !s.isRunning
    ensures Inv(Apply(s, Start)) <==> !Sleeping(s)
  {
    if Sleeping(s) {
      AddWorkersEffect(s, s.target);
      Occupied(s.workers, Asleep);
    } else {
      StartKeeps(s);
    }
  }

  /** `resize` is ignored when the request equals the current, perhaps transient, worker count. */
  lemma ResizeSetsTargetIff<T>(s: Pool<T>, n: nat)
    ensures Apply(s, Resize(n)).target == n <==> n != s.workerCount || s.target == n
  {
  }

  // ---------------------------------------------------------------- whole runs

  ghost predicate Valid<T>(s: Pool<T>, es: seq<Event<T>>)
    decreases |es|
  {
    es == [] || (Enabled(s, es[0]) && Valid(Apply(s, es[0]), es[1..]))
  }

  ghost function After<T>(s: Pool<T>, es: seq<Event<T>>): Pool<T>
    requires Valid(s, es)
    decreases |es|
  {
    if es == [] then s else After(Apply(s, es[0]), es[1..])
  }

  ghost predicate NoEarlyResize<T>(s: Pool<T>, es: seq<Event<T>>)
    requires Valid(s, es)
    decreases |es|
  {
    es == [] || ((es[0].Resize? ==> s.isRunning) && NoEarlyResize(Apply(s, es[0]), es[1..]))
  }

  lemma {:induction false} RunKeepsInv<T>(s: Pool<T>, es: seq<Event<T>>)
    requires Inv(s) && (!s.isRunning ==> s.workers == map[])
    requires Valid(s, es) && NoEarlyResize(s, es)
    ensures Inv(After(s, es))
    decreases |es|
  {
    if es != [] {
      NoWorkersBeforeStart(s, es[0]);
      EventKeepsInv(s, es[0]);
      RunKeepsInv(Apply(s, es[0]), es[1..]);
    }
  }

  lemma NoWorkersBeforeStart<T>(s: Pool<T>, e: Event<T>)
    requires Enabled(s, e) && (e.Resize? ==> s.isRunning)
    requires Inv(s) && (!s.isRunning ==> s.workers == map[])
    ensures Orderly(s, e)
    ensures !Apply(s, e).isRunning ==> Apply(s, e).workers == map[]
  {
    Occupied(s.workers, Asleep);
    if s.isRunning {
      match e
      case Resize(n) => if s.workerCount < n { AddWorkersEffect(s, n - s.workerCount); }
      case _ =>
    } else if e.Shutdown? {
      assert NotifyAll(s).workers == map[];
    }
  }

  /** Safety over whole runs.  As soon as some worker sleeps un-notified, the pool has exactly its
      target size and every queued task has a notified worker of its own on the way; so a task is
      never stranded; and the tasks taken so far are exactly the oldest ones, in order. */
  lemma PoolIsSafe<T>(poolSize: nat, schedulerSize: nat, es: seq<Event<T>>)
    requires Valid(Create<T>(poolSize, schedulerSize), es)
    requires NoEarlyResize(Create<T>(poolSize, schedulerSize), es)
    ensures var s := After(Create<T>(poolSize, schedulerSize), es);
            && Inv(s)
            && s.workerCount == |s.workers|
            && (s.isRunning && Sleeping(s) ==>
                  s.workerCount == s.target && |s.queue| <= Count(s.workers, Notified))
            && (s.isRunning && s.target >= 1 && s.queue != [] ==>
                  exists w :: w in s.workers && s.workers[w] != Asleep)
            && s.accepted == s.accepted[..s.taken] + s.queue
  {
    RunKeepsInv(Create<T>(poolSize, schedulerSize), es);
    var s := After(Create<T>(poolSize, schedulerSize), es);
    if s.isRunning && s.target >= 1 && s.queue != [] {
      SomebodyAwake(s);
    }
  }

  lemma SomebodyAwake<T>(s: Pool<T>)
    requires Inv(s) && s.isRunning && s.target >= 1 && s.queue != []
    ensures exists w :: w in s.workers && s.workers[w] != Asleep
  {
    if Sleeping(s) {
      Occupied(s.workers, Notified);
    } else {
      Occupied(s.workers, Asleep);
      assert |s.workers| > 0;
      var w :| w in s.workers.Keys;
      assert s.workers[w] != Asleep;
    }
  }

  lemma ConsRun<T>(s: Pool<T>, e: Event<T>, es: seq<Event<T>>)
    requires Enabled(s, e) && Valid(Apply(s, e), es)
    ensures Valid(s, [e] + es) && After(s, [e] + es) == After(Apply(s, e), es)
  {
    assert ([e] + es)[1..] == es;
  }

  /** A run in which the early resize of one worker makes `start` break the size bound. */
  lemma EarlyResizeBreaks<T>()
    ensures var es := [Resize(1), Enter(0), Start];
            && Valid(Create<T>(1, 10), es)
            && var s := After(Create<T>(1, 10), es);
               s.workers == map[0 := Asleep, 1 := Ready] && s.workerCount == 2 && s.target == 1
  {
    var s0 := Create<T>(1, 10);
    var s1 := Apply(s0, Resize(1));
    assert AddWorkers(s0, 1) == AddWorker(AddWorkers(s0, 0));
    assert s1.workers == map[0 := Ready];
    var s2 := Apply(s1, Enter(0));
    assert s2.workers == map[0 := Asleep];
    assert AddWorkers(s2, 1) == AddWorker(AddWorkers(s2, 0));
    var s3 := Apply(s2, Start);
    assert s3.workers == map[0 := Asleep, 1 := Ready];
    ConsRun(s2, Start, []);
    var late: seq<Event<T>> := [Start] + [];
    ConsRun(s1, Enter(0), late);
    ConsRun(s0, Resize(1), [Enter(0)] + late);
    assert [Resize(1)] + ([Enter(0)] + late) == [Resize(1), Enter(0), Start];
  }

  /** The last request is not always honoured: three workers, `resize(1)`, one death, `resize(2)`.
      The second call meets a count of two, returns at once and leaves the target at one. */
  lemma LastResizeMayBeIgnored<T>(s: Pool<T>, w: Worker)
    requires s.isRunning && s.workerCount == 3 && s.target == 3
    requires w in s.workers && s.workers[w] == Ready
    ensures var es := [Resize(1), Enter(w), Died(w), Resize(2)];
            Valid(s, es) && After(s, es).target == 1 && After(s, es).workerCount == 2
  {
    var s1 := Apply(s, Resize(1));
    var s2 := Apply(s1, Enter(w));
    var s3 := Apply(s2, Died(w));
    var s4 := Apply(s3, Resize(2));
    ConsRun(s3, Resize(2), []);
    var late: seq<Event<T>> := [Resize(2)] + [];
    ConsRun(s2, Died(w), late);
    ConsRun(s1, Enter(w), [Died(w)] + late);
    ConsRun(s, Resize(1), [Enter(w)] + ([Died(w)] + late));
    assert [Resize(1)] + ([Enter(w)] + ([Died(w)] + late)) == [Resize(1), Enter(w), Died(w), Resize(2)];
  }

  /** The run that shows it, from the start of a pool of three. */
  lemma LastResizeIgnored<T>(maxQueue: nat)
    ensures var s, es := Create<T>(3, maxQueue), [Start, Resize(1), Enter(0), Died(0), Resize(2)];
            && Valid(s, es) && NoEarlyResize(s, es)
            && After(s, es).isRunning && After(s, es).target == 1 && After(s, es).workerCount == 2
  {
    var s := Create<T>(3, maxQueue);
    var s1 := Apply(s, Start);
    assert AddWorkers(s, 1) == AddWorker(AddWorkers(s, 0));
    assert AddWorkers(s, 2) == AddWorker(AddWorkers(s, 1));
    assert AddWorkers(s, 3) == AddWorker(AddWorkers(s, 2));
    LastResizeMayBeIgnored(s1, 0);
    var late := [Resize(1), Enter(0), Died(0), Resize(2)];
    ConsRun(s, Start, late);
    assert [Start] + late == [Start, Resize(1), Enter(0), Died(0), Resize(2)];
  }

  // ---------------------------------------------------------------- settling

  /** What the workers do by themselves, without calls from outside and spurious wakeups. */
  predicate Internal<T>(e: Event<T>) {
    e.Enter? || e.Wake? || e.Finish? || e.Died?
  }

  ghost predicate Quiescent<T>(s: Pool<T>) {
    forall w :: w in s.workers ==> s.workers[w] == Asleep
  }

  ghost function Busy<T>(s: Pool<T>): set<Worker> {
    set w | w in s.workers && s.workers[w].Executing?
  }

  ghost function TaskWork<T>(s: Pool<T>): nat {
    2 * |s.queue| + |Busy(s)|
  }

  ghost function Unrest<T>(s: Pool<T>): nat {
    var awake := Count(s.workers, Ready) + Count(s.workers, Notified);
    if s.workerCount > s.target then awake else 2 * Count(s.workers, Dying) + awake
  }

  /** Workers never get stuck: somebody can move unless everybody sleeps. */
  lemma SomebodyCanMove<T>(s: Pool<T>) returns (e: Event<T>)
    requires !Quiescent(s)
    ensures Internal(e) && Enabled(s, e)
  {
    var w :| w in s.workers && s.workers[w] != Asleep;
    e := match s.workers[w]
      case Ready => Enter(w)
      case Notified => Wake(w)
      case Dying => Died(w)
      case _ => Finish(w, false);
  }

  /** At rest the pool has its target size, and no task waits unless the target is zero. */
  lemma QuiescentMeansSettled<T>(s: Pool<T>)
    requires Inv(s) && s.isRunning && Quiescent(s)
    ensures s.workerCount == s.target
    ensures s.target >= 1 ==> s.queue == []
  {
    Occupied(s.workers, Asleep);
    Occupied(s.workers, Notified);
    if s.workers != map[] {
      var w :| w in s.workers.Keys;
    }
  }

  /** (TaskWork, workerCount, Unrest) is lexicographically smaller in `t` than in `s`. */
  ghost predicate Descends<T>(s: Pool<T>, t: Pool<T>) {
    || TaskWork(t) < TaskWork(s)
    || (TaskWork(t) == TaskWork(s) && t.workerCount < s.workerCount)
    || (TaskWork(t) == TaskWork(s) && t.workerCount == s.workerCount && Unrest(t) < Unrest(s))
  }

  /** Each internal step makes progress towards rest. */
  lemma InternalStepDescends<T>(s: Pool<T>, e: Event<T>)
    requires Inv(s) && s.isRunning && Internal(e) && Enabled(s, e)
    ensures Descends(s, Apply(s, e))
  {
    var t := Apply(s, e);
    if e.Died? {
      DeathDescends(s, e);
    } else {
      var q := t.workers[e.w];
      Moved(s.workers, e.w, q, Ready);
      Moved(s.workers, e.w, q, Notified);
      Moved(s.workers, e.w, q, Dying);
      BusyMoved(s, t, e.w);
    }
  }

  lemma BusyMoved<T>(s: Pool<T>, t: Pool<T>, w: Worker)
    requires w in s.workers && w in t.workers && t.workers == s.workers[w := t.workers[w]]
    ensures |Busy(t)| == |Busy(s)| - (if s.workers[w].Executing? then 1 else 0)
                                   + (if t.workers[w].Executing? then 1 else 0)
  {
    var rest := Busy(s) - {w};
    assert Busy(t) == if t.workers[w].Executing? then rest + {w} else rest;
  }

  lemma DeathDescends<T>(s: Pool<T>, e: Event<T>)
    requires Inv(s) && s.isRunning && e.Died? && Enabled(s, e)
    ensures var t := Apply(s, e);
            && TaskWork(t) == TaskWork(s)
            && (t.workerCount < s.workerCount || (t.workerCount == s.workerCount && Unrest(t) < Unrest(s)))
  {
    var t := Apply(s, e);
    var u := s.workers - {e.w};
    assert Busy(t) == Busy(s);
    if s.target > s.workerCount - 1 {
      assert t.workers == u[s.serial := Ready];
      Left(s.workers, e.w, Ready);
      Left(s.workers, e.w, Notified);
      Left(s.workers, e.w, Dying);
      Moved(u, s.serial, Ready, Ready);
      Moved(u, s.serial, Ready, Notified);
      Moved(u, s.serial, Ready, Dying);
    }
  }

  ghost predicate InternalStep<T(!new)>(s: Pool<T>, t: Pool<T>) {
    exists e :: Internal(e) && Enabled(s, e) && t == Apply(s, e)
  }

  lemma InternalStepEffect<T(!new)>(s: Pool<T>, t: Pool<T>)
    requires Inv(s) && s.isRunning && InternalStep(s, t)
    ensures Inv(t) && t.isRunning && t.target == s.target && Descends(s, t)
  {
    var e :| Internal(e) && Enabled(s, e) && t == Apply(s, e);
    InternalStepDescends(s, e);
    EventKeepsInv(s, e);
  }

  /** In the schedule `f`, state `k` is at rest or is followed by one step from it. */
  ghost predicate Follows<T(!new)>(f: nat -> Pool<T>, k: nat) {
    !Quiescent(f(k)) ==> InternalStep(f(k), f(k + 1))
  }

  lemma FollowsEffect<T(!new)>(f: nat -> Pool<T>, k: nat)
    requires Inv(f(k)) && f(k).isRunning && Follows(f, k) && !Quiescent(f(k))
    ensures Inv(f(k + 1)) && f(k + 1).isRunning && f(k + 1).target == f(k).target && Descends(f(k), f(k + 1))
  {
    InternalStepEffect(f(k), f(k + 1));
  }

  /** Without further calls every schedule of the workers reaches, after finitely many steps, a state
      where exactly the target number of workers sleep and no task is left. */
  lemma {:induction false} PoolSettles<T(!new)>(f: nat -> Pool<T>, i: nat) returns (k: nat)
    requires Inv(f(i)) && f(i).isRunning
    requires forall j: nat :: j >= i ==> Follows(f, j)
    ensures k >= i && Quiescent(f(k)) && f(k).workerCount == f(k).target == f(i).target
    ensures f(i).target >= 1 ==> f(k).queue == []
    decreases TaskWork(f(i)), f(i).workerCount, Unrest(f(i))
  {
    if Quiescent(f(i)) {
      QuiescentMeansSettled(f(i));
      k := i;
    } else {
      assert Follows(f, i);
      FollowsEffect(f, i);
      k := PoolSettles(f, i + 1);
    }
  }
}
