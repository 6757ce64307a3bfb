/**
 The bounded work queue as a monitor: N consumer threads and one producer share a single condition
 variable, which is only ever signalled with notify_one until the queue is closed.

 The producer's program is `todo`: put these items in order, then call join_all.  One event is one
 critical section.  The class in WorkQueueClass.dfy is proved to perform exactly these events.
 */
module WorkQueueProtocol {
  import opened Census
  import opened Wrappers

  type Consumer = nat

  /** Items are named by their position in the log of accepted items. */
  datatype Phase = Ready | Asleep | Notified | Processing(item: nat) | Exited

  datatype Producer<T> = Idle | Waiting(item: T) | Woken(item: T) | Joining | Joined

  datatype Queue<T> = Queue(
    size: nat,                        // number of consumer threads, and capacity of the queue
    done: bool,
    queue: seq<T>,
    consumers: map<Consumer, Phase>,
    producer: Producer<T>,
    todo: seq<T>,
    accepted: seq<T>,
    taken: nat,                       // how many accepted items have left the queue
    processed: set<nat>)

  /** Who is woken by notify_one. */
  datatype Sleeper = NoSleeper | AConsumer(c: Consumer) | TheProducer

  datatype Event =
    | Put(woken: Sleeper)
    | PutAgain(woken: Sleeper)        // the producer after a wakeup
    | Take(c: Consumer, woken: Sleeper)
    | Processed(c: Consumer)
    | JoinAll
    | Joined
    | Spurious(c: Consumer)
    | SpuriousProducer

  ghost function Create<T>(size: nat, program: seq<T>): Queue<T> {
    Queue(size, false, [], map c | c in UpTo(size) :: Ready, Idle, program, [], 0, {})
  }

  ghost predicate Sleeping<T>(s: Queue<T>) {
    Count(s.consumers, Asleep) > 0
  }

  ghost predicate CanWake<T>(s: Queue<T>, woken: Sleeper) {
    match woken
    case NoSleeper => !Sleeping(s) && !s.producer.Waiting?
    case AConsumer(c) => c in s.consumers && s.consumers[c] == Asleep
    case TheProducer => s.producer.Waiting?
  }

  ghost function NotifyOne<T>(s: Queue<T>, woken: Sleeper): Queue<T>
    requires woken.TheProducer? ==> s.producer.Waiting?
  {
    match woken
    case NoSleeper => s
    case AConsumer(c) => s.(consumers := s.consumers[c := Notified])
    case TheProducer => s.(producer := Woken(s.producer.item))
  }

  ghost function NotifyAll<T>(s: Queue<T>): Queue<T> {
    s.(consumers := map c | c in s.consumers :: if s.consumers[c] == Asleep then Notified else s.consumers[c])
  }

  ghost function At<T>(s: Queue<T>, c: Consumer, p: Phase): Queue<T> {
    s.(consumers := s.consumers[c := p])
  }

  ghost predicate Enabled<T>(s: Queue<T>, e: Event) {
    match e
    case Put(woken) =>
      s.producer.Idle? && s.todo != [] && (if |s.queue| == s.size then woken.NoSleeper? else CanWake(s, woken))
    case PutAgain(woken) =>
      s.producer.Woken? && (if |s.queue| == s.size then woken.NoSleeper? else CanWake(s, woken))
    case Take(c, woken) =>
      && c in s.consumers && (s.consumers[c] == Ready || s.consumers[c] == Notified)
      && (if s.queue != [] then CanWake(s, woken) else woken.NoSleeper?)
    case Processed(c) => c in s.consumers && s.consumers[c].Processing?
    case JoinAll => s.producer.Idle? && s.todo == []
    case Joined => s.producer.Joining? && forall c :: c in s.consumers ==> s.consumers[c] == Exited
    case Spurious(c) => c in s.consumers && s.consumers[c] == Asleep
    case SpuriousProducer => s.producer.Waiting?
  }

  ghost function Apply<T>(s: Queue<T>, e: Event): Queue<T>
    requires Enabled(s, e)
  {
    match e
    case Put(_) => PutOrWait(s.(todo := s.todo[1..]), s.todo[0], e.woken)
    case PutAgain(_) => PutOrWait(s, s.producer.item, e.woken)
    case Take(c, woken) =>
      if s.queue != [] then
        At(NotifyOne(s, woken), c, Processing(s.taken)).(queue := s.queue[1..], taken := s.taken + 1)
      else At(s, c, if s.done then Exited else Asleep)
    case Processed(c) => At(s, c, Ready).(processed := s.processed + {s.consumers[c].item})
    case JoinAll => NotifyAll(s).(done := true, producer := Producer.Joining)
    case Joined => s.(producer := Producer.Joined)
    case Spurious(c) => At(s, c, Notified)
    case SpuriousProducer => s.(producer := Woken(s.producer.item))
  }

  ghost function PutOrWait<T>(s: Queue<T>, item: T, woken: Sleeper): Queue<T>
    requires |s.queue| != s.size ==> CanWake(s, woken)
  {
    if |s.queue| == s.size then s.(producer := Waiting(item))
    else NotifyOne(s, woken).(queue := s.queue + [item], accepted := s.accepted + [item], producer := Idle)
  }

  // ---------------------------------------------------------------- the invariant

  ghost predicate Holds<T>(s: Queue<T>, c: Consumer, k: nat) {
    c in s.consumers && s.consumers[c] == Processing(k)
  }

  /** The queue is the part of the log not yet taken; each taken item is either held by exactly one
      consumer or has been processed, never both. */
  ghost predicate Ledger<T>(s: Queue<T>) {
    && s.taken <= |s.accepted|
    && s.queue == s.accepted[s.taken..]
    && (forall k :: k in s.processed ==> k < s.taken)
    && (forall c: Consumer, k: nat :: Holds(s, c, k) ==> k < s.taken && k !in s.processed)
    && (forall b, c, k :: Holds(s, b, k) && Holds(s, c, k) ==> b == c)
    && (forall k: nat :: k < s.taken && k !in s.processed ==> exists c :: Holds(s, c, k))
  }

  /** The heart of the protocol: although notify_one may wake either side, a sleeping consumer means
      that every queued item has a notified consumer coming, and a sleeping producer means that the
      queue is full and no consumer sleeps. */
  ghost predicate NoLostWakeup<T>(s: Queue<T>) {
    && (Sleeping(s) ==> |s.queue| <= Count(s.consumers, Notified) && !s.done)
    && (s.producer.Waiting? ==> |s.queue| == s.size && !Sleeping(s))
  }

  ghost predicate Closing<T>(s: Queue<T>) {
    && (s.done <==> s.producer.Joining? || s.producer.Joined?)
    && (s.done ==> s.todo == [])
    && (Count(s.consumers, Exited) > 0 ==> s.done && s.queue == [])
    && (s.producer.Joined? ==> forall c :: c in s.consumers ==> s.consumers[c] == Exited)
  }

  ghost predicate Inv<T>(s: Queue<T>) {
    && |s.queue| <= s.size == |s.consumers|
    && s.size > 0
    && Ledger(s)
    && NoLostWakeup(s)
    && Closing(s)
  }

  /** What the producer has put, is putting, and will put. */
  ghost function Program<T>(s: Queue<T>): seq<T> {
    s.accepted + (if s.producer.Waiting? || s.producer.Woken? then [s.producer.item] else []) + s.todo
  }

  lemma SleepersAndNotified<T>(s: Queue<T>)
    ensures Count(s.consumers, Asleep) + Count(s.consumers, Notified) <= |s.consumers|
  {
    var a, n := Where(s.consumers, Asleep), Where(s.consumers, Notified);
    assert a + n <= s.consumers.Keys;
    SubsetSize(a + n, s.consumers.Keys);
  }

  lemma LedgerFrame<T>(s: Queue<T>, t: Queue<T>)
    requires Ledger(s)
    requires t.taken == s.taken && t.accepted == s.accepted && t.queue == s.queue && t.processed == s.processed
    requires forall c, k :: Holds(t, c, k) <==> Holds(s, c, k)
    ensures Ledger(t)
  {
    forall k: nat | k < t.taken && k !in t.processed ensures exists c :: Holds(t, c, k) {
      var c :| Holds(s, c, k);
      assert Holds(t, c, k);
    }
  }

  /** One consumer changing position. */
  lemma MovedAll<T>(s: Queue<T>, c: Consumer, p: Phase)
    requires c in s.consumers
    ensures |At(s, c, p).consumers| == |s.consumers|
    ensures forall q :: Count(At(s, c, p).consumers, q) == Count(s.consumers, q)
                          - (if s.consumers[c] == q then 1 else 0) + (if q == p then 1 else 0)
  {
    assert At(s, c, p).consumers.Keys == s.consumers.Keys;
    assert |At(s, c, p).consumers.Keys| == |s.consumers.Keys|;
    forall q { Moved(s.consumers, c, p, q); }
  }

  lemma PutKeeps<T>(s: Queue<T>, e: Event)
    requires Inv(s) && Enabled(s, e) && (e.Put? || e.PutAgain?)
    ensures Inv(Apply(s, e)) && Program(Apply(s, e)) == Program(s)
  {
    var t := Apply(s, e);
    if |s.queue| == s.size {
      SleepersAndNotified(s);
      LedgerFrame(s, t);
    } else {
      if e.woken.AConsumer? {
        MovedAll(s, e.woken.c, Notified);
      }
      assert forall c, k :: Holds(t, c, k) <==> Holds(s, c, k);
      forall k: nat | k < t.taken && k !in t.processed ensures exists c :: Holds(t, c, k) {
        var c :| Holds(s, c, k);
        assert Holds(t, c, k);
      }
    }
  }

  lemma RestKeeps<T>(s: Queue<T>, e: Event)
    requires Inv(s) && Enabled(s, e) && e.Take? && s.queue == []
    ensures Inv(Apply(s, e)) && Program(Apply(s, e)) == Program(s)
  {
    MovedAll(s, e.c, if s.done then Exited else Asleep);
    LedgerFrame(s, Apply(s, e));
  }

  lemma TakenLedger<T>(s: Queue<T>, c: Consumer, woken: Sleeper)
    requires Ledger(s) && s.queue != [] && Enabled(s, Take(c, woken))
    ensures Ledger(Apply(s, Take(c, woken)))
  {
    var t := Apply(s, Take(c, woken));
    assert forall b, k :: Holds(t, b, k) <==> Holds(s, b, k) || (b == c && k == s.taken);
    forall k: nat | k < t.taken && k !in t.processed ensures exists b :: Holds(t, b, k) {
      if k < s.taken {
        var b :| Holds(s, b, k);
        assert Holds(t, b, k);
      } else {
        assert Holds(t, c, k);
      }
    }
  }

  lemma TakeKeeps<T>(s: Queue<T>, e: Event)
    requires Inv(s) && Enabled(s, e) && e.Take? && s.queue != []
    ensures Inv(Apply(s, e)) && Program(Apply(s, e)) == Program(s)
  {
    TakenLedger(s, e.c, e.woken);
    if e.woken.AConsumer? {
      MovedAll(s, e.woken.c, Notified);
    }
    MovedAll(NotifyOne(s, e.woken), e.c, Processing(s.taken));
    Occupied(s.consumers, Exited);
  }

  lemma ProcessedKeeps<T>(s: Queue<T>, e: Event)
    requires Inv(s) && Enabled(s, e) && e.Processed?
    ensures Inv(Apply(s, e)) && Program(Apply(s, e)) == Program(s)
  {
    var t := Apply(s, e);
    MovedAll(s, e.c, Ready);
    assert Holds(s, e.c, s.consumers[e.c].item);
    assert forall c, k :: Holds(t, c, k) <==> Holds(s, c, k) && c != e.c;
    forall k: nat | k < t.taken && k !in t.processed ensures exists c :: Holds(t, c, k) {
      var c :| Holds(s, c, k);
      assert Holds(t, c, k);
    }
  }

  lemma OthersKeep<T>(s: Queue<T>, e: Event)
    requires Inv(s) && Enabled(s, e)
    requires e.JoinAll? || e.Joined? || e.Spurious? || e.SpuriousProducer?
    ensures Inv(Apply(s, e)) && Program(Apply(s, e)) == Program(s)
  {
    var t := Apply(s, e);
    if e.Spurious? {
      MovedAll(s, e.c, Notified);
    } else if e.JoinAll? {
      assert t.consumers.Keys == s.consumers.Keys;
      assert |t.consumers.Keys| == |s.consumers.Keys|;
      Occupied(t.consumers, Asleep);
      assert Where(t.consumers, Exited) == Where(s.consumers, Exited);
    }
    LedgerFrame(s, t);
  }

  /** Every interleaving: one critical section of any thread keeps the invariant, and nothing the
      producer offers is lost or reordered. */
  lemma EventKeepsInv<T>(s: Queue<T>, e: Event)
    requires Inv(s) && Enabled(s, e)
    ensures Inv(Apply(s, e)) && Program(Apply(s, e)) == Program(s)
  {
    match e
    case Put(_) => PutKeeps(s, e);
    case PutAgain(_) => PutKeeps(s, e);
    case Take(_, _) => if s.queue == [] { RestKeeps(s, e); } else { TakeKeeps(s, e); }
    case Processed(_) => ProcessedKeeps(s, e);
    case _ => OthersKeep(s, e);
  }

  lemma CreateInv<T>(size: nat, program: seq<T>)
    requires size > 0
    ensures Inv(Create(size, program)) && Program(Create(size, program)) == program
  {
    var s := Create(size, program);
    Occupied(s.consumers, Asleep);
    Occupied(s.consumers, Exited);
    assert s.consumers.Keys == UpTo(size);
    assert |s.consumers.Keys| == size;
  }

  // ---------------------------------------------------------------- no deadlock, and completion

  ghost predicate Finished<T>(s: Queue<T>) {
    s.producer.Joined?
  }

  /** Everything except spurious wakeups. */
  predicate Purposeful(e: Event) {
    !e.Spurious? && !e.SpuriousProducer?
  }

  /** An event that wakes nobody or anybody who sleeps. */
  ghost function SomeSleeper<T>(s: Queue<T>): (woken: Sleeper)
    ensures CanWake(s, woken)
  {
    if s.producer.Waiting? then TheProducer
    else if Sleeping(s) then
      Occupied(s.consumers, Asleep);
      var c :| c in s.consumers && s.consumers[c] == Asleep;
      AConsumer(c)
    else NoSleeper
  }

  ghost function MoveOf<T>(s: Queue<T>, c: Consumer): (e: Event)
    requires c in s.consumers && s.consumers[c] != Asleep && s.consumers[c] != Exited
    ensures Purposeful(e) && Enabled(s, e)
  {
    if s.consumers[c].Processing? then Processed(c)
    else Take(c, if s.queue != [] then SomeSleeper(s) else NoSleeper)
  }

  /** No deadlock: until everything has been joined, somebody can always move. */
  lemma NoDeadlock<T>(s: Queue<T>) returns (e: Event)
    requires Inv(s) && !Finished(s)
    ensures Purposeful(e) && Enabled(s, e)
  {
    var full := |s.queue| == s.size;
    match s.producer
    case Idle =>
      e := if s.todo == [] then JoinAll else Put(if full then NoSleeper else SomeSleeper(s));
    case Woken(_) =>
      e := PutAgain(if full then NoSleeper else SomeSleeper(s));
    case Waiting(_) =>
      Occupied(s.consumers, Asleep);
      Occupied(s.consumers, Exited);
      var c :| c in s.consumers.Keys;
      e := MoveOf(s, c);
    case Joining =>
      Occupied(s.consumers, Asleep);
      if c :| c in s.consumers && s.consumers[c] != Exited {
        e := MoveOf(s, c);
      } else {
        e := Event.Joined;
      }
    case Joined =>
  }

  ghost function Busy<T>(s: Queue<T>): set<Consumer> {
    set c | c in s.consumers && s.consumers[c].Processing?
  }

  ghost function ProducerWork<T>(s: Queue<T>): nat {
    match s.producer
    case Idle => s.size + 2
    case Waiting(_) => s.size + 6
    case Woken(_) => s.size + 7
    case Joining => 1
    case Joined => 0
  }

  /** What is left to do; every purposeful event lowers it. */
  ghost function Work<T>(s: Queue<T>): nat {
    6 * |s.todo| + 3 * |s.queue| + ProducerWork(s)
    + 2 * |Busy(s)| + Count(s.consumers, Ready) + Count(s.consumers, Notified)
  }

  lemma BusyMoved<T>(s: Queue<T>, c: Consumer, p: Phase)
    requires c in s.consumers
    ensures |Busy(At(s, c, p))| == |Busy(s)| - (if s.consumers[c].Processing? then 1 else 0)
                                             + (if p.Processing? then 1 else 0)
  {
    var rest := Busy(s) - {c};
    assert Busy(At(s, c, p)) == if p.Processing? then rest + {c} else rest;
  }

  ghost function Weight(p: Phase): nat {
    match p
    case Processing(_) => 2
    case Ready => 1
    case Notified => 1
    case _ => 0
  }

  lemma MovedCosts<T>(s: Queue<T>, c: Consumer, p: Phase)
    requires c in s.consumers
    ensures Work(At(s, c, p)) == Work(s) - Weight(s.consumers[c]) + Weight(p)
  {
    MovedAll(s, c, p);
    BusyMoved(s, c, p);
  }

  lemma NotifyCosts<T>(s: Queue<T>, woken: Sleeper)
    requires CanWake(s, woken)
    ensures Work(NotifyOne(s, woken)) <= Work(s) + 1
  {
    if woken.AConsumer? {
      MovedCosts(s, woken.c, Notified);
    }
  }

  lemma NotifyAllCosts<T>(s: Queue<T>)
    requires |s.consumers| == s.size
    ensures var t := NotifyAll(s);
            && Busy(t) == Busy(s)
            && Count(t.consumers, Ready) == Count(s.consumers, Ready)
            && Count(t.consumers, Notified) <= Count(s.consumers, Notified) + s.size
  {
    var t := NotifyAll(s);
    assert Where(t.consumers, Ready) == Where(s.consumers, Ready);
    assert Where(t.consumers, Notified) == Where(s.consumers, Notified) + Where(s.consumers, Asleep);
    SubsetSize(Where(s.consumers, Asleep), s.consumers.Keys);
  }

  lemma PutLowersWork<T>(s: Queue<T>, e: Event)
    requires Inv(s) && Enabled(s, e) && (e.Put? || e.PutAgain?)
    ensures Work(Apply(s, e)) < Work(s)
  {
    if |s.queue| < s.size {
      NotifyCosts(s, e.woken);
    }
  }

  lemma TakeLowersWork<T>(s: Queue<T>, e: Event)
    requires Enabled(s, e) && e.Take?
    ensures Work(Apply(s, e)) < Work(s)
  {
    if s.queue != [] {
      NotifyCosts(s, e.woken);
      MovedCosts(NotifyOne(s, e.woken), e.c, Processing(s.taken));
    } else {
      MovedCosts(s, e.c, if s.done then Exited else Asleep);
    }
  }

  lemma EventLowersWork<T>(s: Queue<T>, e: Event)
    requires Inv(s) && Enabled(s, e) && Purposeful(e)
    ensures Work(Apply(s, e)) < Work(s)
  {
    match e
    case Put(_) => PutLowersWork(s, e);
    case PutAgain(_) => PutLowersWork(s, e);
    case Take(_, _) => TakeLowersWork(s, e);
    case Processed(c) => MovedCosts(s, c, Ready);
    case JoinAll => NotifyAllCosts(s);
    case Joined =>
  }

  ghost predicate Step<T>(s: Queue<T>, t: Queue<T>) {
    exists e :: Purposeful(e) && Enabled(s, e) && t == Apply(s, e)
  }

  lemma StepEffect<T>(s: Queue<T>, t: Queue<T>)
    requires Inv(s) && Step(s, t)
    ensures Inv(t) && Program(t) == Program(s) && Work(t) < Work(s)
  {
    var e :| Purposeful(e) && Enabled(s, e) && t == Apply(s, e);
    EventLowersWork(s, e);
    EventKeepsInv(s, e);
  }

  /** Joined, with every item of the program accepted in order and processed exactly once. */
  ghost predicate Completed<T>(s: Queue<T>, program: seq<T>) {
    Finished(s) && s.accepted == program && s.queue == [] && s.processed == UpTo(|program|)
  }

  lemma FinishedMeansCompleted<T>(s: Queue<T>)
    requires Inv(s) && Finished(s)
    ensures Completed(s, Program(s))
  {
    Occupied(s.consumers, Exited);
    var c :| c in s.consumers.Keys;
    forall k: nat | k < s.taken ensures k in s.processed {
      assert forall b :: !Holds(s, b, k);
    }
    assert s.processed == UpTo(s.taken);
  }

  /** In the schedule `f`, state `k` is final or is followed by one step from it. */
  ghost predicate Follows<T>(f: nat -> Queue<T>, k: nat) {
    !Finished(f(k)) ==> Step(f(k), f(k + 1))
  }

  lemma FollowsEffect<T>(f: nat -> Queue<T>, k: nat)
    requires Inv(f(k)) && Follows(f, k) && !Finished(f(k))
    ensures Inv(f(k + 1)) && Program(f(k + 1)) == Program(f(k)) && Work(f(k + 1)) < Work(f(k))
  {
    StepEffect(f(k), f(k + 1));
  }

  /** Total correctness of the whole protocol: without wakeups for nothing, whatever the schedule, a
      program of puts followed by join_all ends, with every item accepted in program order and processed
      exactly once. */
  lemma {:induction false} ProgramCompletes<T>(f: nat -> Queue<T>, i: nat) returns (k: nat)
    requires Inv(f(i))
    requires forall j: nat :: j >= i ==> Follows(f, j)
    ensures k >= i && Completed(f(k), Program(f(i)))
    decreases Work(f(i))
  {
    if Finished(f(i)) {
      FinishedMeansCompleted(f(i));
      k := i;
    } else {
      assert Follows(f, i);
      FollowsEffect(f, i);
      k := ProgramCompletes(f, i + 1);
    }
  }

  // ---------------------------------------------------------------- whole runs, spurious wakeups included

  ghost predicate Valid<T>(s: Queue<T>, es: seq<Event>)
    decreases |es|
  {
    es == [] || (Enabled(s, es[0]) && Valid(Apply(s, es[0]), es[1..]))
  }

  ghost function After<T>(s: Queue<T>, es: seq<Event>): Queue<T>
    requires Valid(s, es)
    decreases |es|
  {
    if es == [] then s else After(Apply(s, es[0]), es[1..])
  }

  lemma {:induction false} RunKeepsInv<T>(s: Queue<T>, es: seq<Event>)
    requires Inv(s) && Valid(s, es)
    ensures Inv(After(s, es)) && After(s, es).size == s.size && Program(After(s, es)) == Program(s)
    decreases |es|
  {
    if es != [] {
      EventKeepsInv(s, es[0]);
      RunKeepsInv(Apply(s, es[0]), es[1..]);
    }
  }

  /** In every reachable state nothing oversleeps and no item is lost or held twice; and if everything
      has been joined, each item of the program has been accepted in order and processed once. */
  lemma QueueIsSafe<T>(size: nat, program: seq<T>, es: seq<Event>)
    requires size > 0 && Valid(Create(size, program), es)
    ensures var s := After(Create(size, program), es);
            && |s.queue| <= size && NoLostWakeup(s) && Ledger(s)
            && (Finished(s) ==> Completed(s, program))
  {
    CreateInv(size, program);
    RunKeepsInv(Create(size, program), es);
    var s := After(Create(size, program), es);
    if Finished(s) {
      FinishedMeansCompleted(s);
    }
  }
}
