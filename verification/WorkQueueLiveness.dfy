/**
 The work queue under weak fairness: its program completes although consumers and producer may wake for
 nothing as often as they like.
 */
module WorkQueueLiveness {
  import opened Census
  import opened Fairness
  import opened WorkQueueProtocol

  datatype Actor = Consuming(c: Consumer) | Producing

  /** Whose step the event is; waking for nothing is nobody's. */
  ghost predicate Own(e: Event, a: Actor) {
    match e
    case Take(c, _) => a == Consuming(c)
    case Processed(c) => a == Consuming(c)
    case Spurious(_) => false
    case SpuriousProducer => false
    case _ => a == Producing
  }

  ghost predicate CanMove<T>(s: Queue<T>, a: Actor) {
    match a
    case Consuming(c) => c in s.consumers && s.consumers[c] != Asleep && s.consumers[c] != Exited
    case Producing =>
      match s.producer
      case Waiting(_) => false
      case Joining => forall c :: c in s.consumers ==> s.consumers[c] == Exited
      case Joined => false
      case _ => true
  }

  ghost predicate Step<T>(s: Queue<T>, t: Queue<T>) {
    exists e :: Enabled(s, e) && t == Apply(s, e)
  }

  ghost predicate StepAt<T>(f: nat -> Queue<T>, k: nat) {
    f(k + 1) == f(k) || Step(f(k), f(k + 1))
  }

  ghost predicate MovesAt<T>(f: nat -> Queue<T>, k: nat, a: Actor) {
    exists e :: Own(e, a) && Enabled(f(k), e) && f(k + 1) == Apply(f(k), e)
  }

  ghost predicate TurnComes<T>(f: nat -> Queue<T>, k: nat, a: Actor) {
    exists j: nat :: k <= j && (MovesAt(f, j, a) || !CanMove(f(j), a))
  }

  /** Nobody who can move is kept from moving for ever. */
  ghost predicate Fair<T>(f: nat -> Queue<T>) {
    forall k: nat, a :: TurnComes(f, k, a)
  }

  // ---------------------------------------------------------------- what brings progress

  ghost function ProducerRank<T>(s: Queue<T>): nat {
    match s.producer
    case Idle => 2
    case Waiting(_) => 6
    case Woken(_) => 6
    case Joining => 1
    case Joined => 0
  }

  /** What is left to do. Who sleeps and who is awake does not matter. */
  ghost function Rest<T>(s: Queue<T>): int {
    6 * |s.todo| + 3 * |s.queue| + ProducerRank(s) + 2 * |Busy(s)| + |s.consumers| - Count(s.consumers, Exited)
  }

  lemma RestNotNegative<T>(s: Queue<T>)
    ensures Rest(s) >= 0
  {
    SubsetSize(Where(s.consumers, Exited), s.consumers.Keys);
  }

  ghost function RankOf<T>(s: Queue<T>): Rank {
    RestNotNegative(s);
    (Rest(s), 0, 0)
  }

  /** Waking for nothing, and looking again at a queue that is empty, or full. */
  ghost predicate IdleStep<T>(s: Queue<T>, e: Event) {
    match e
    case Spurious(_) => true
    case SpuriousProducer => true
    case Take(_, _) => s.queue == [] && !s.done
    case PutAgain(_) => |s.queue| == s.size
    case _ => false
  }

  ghost predicate Helps<T>(s: Queue<T>, a: Actor) {
    match a
    case Consuming(c) =>
      c in s.consumers && (s.consumers[c].Processing?
        || ((s.consumers[c] == Ready || s.consumers[c] == Notified) && (s.queue != [] || s.done)))
    case Producing =>
      || s.producer.Idle?
      || (s.producer.Woken? && |s.queue| != s.size)
      || (s.producer.Joining? && forall c :: c in s.consumers ==> s.consumers[c] == Exited)
  }

  lemma RestMoved<T>(s: Queue<T>, c: Consumer, p: Phase)
    requires c in s.consumers
    ensures Rest(At(s, c, p)) == Rest(s)
            - (if s.consumers[c].Processing? then 2 else 0) + (if p.Processing? then 2 else 0)
            + (if s.consumers[c] == Exited then 1 else 0) - (if p == Exited then 1 else 0)
  {
    MovedAll(s, c, p);
    BusyMoved(s, c, p);
  }

  lemma RestNotified<T>(s: Queue<T>, woken: Sleeper)
    requires CanWake(s, woken)
    ensures Rest(NotifyOne(s, woken)) == Rest(s)
  {
    if woken.AConsumer? {
      RestMoved(s, woken.c, Notified);
    }
  }

  lemma IdleKeeps<T>(s: Queue<T>, e: Event, a: Actor)
    requires Enabled(s, e) && IdleStep(s, e) && Helps(s, a)
    ensures Rest(Apply(s, e)) == Rest(s) && Helps(Apply(s, e), a) && !Own(e, a)
  {
    match e
    case Spurious(c) => RestMoved(s, c, Notified);
    case Take(c, _) => RestMoved(s, c, Asleep);
    case _ =>
  }

  lemma PutLowers<T>(s: Queue<T>, e: Event)
    requires Enabled(s, e) && !IdleStep(s, e) && (e.Put? || e.PutAgain?)
    ensures Rest(Apply(s, e)) < Rest(s)
  {
    if |s.queue| != s.size {
      var before := if e.Put? then s.(todo := s.todo[1..]) else s;
      RestNotified(before, e.woken);
    }
  }

  lemma TakeLowers<T>(s: Queue<T>, e: Event)
    requires Enabled(s, e) && !IdleStep(s, e) && e.Take?
    ensures Rest(Apply(s, e)) < Rest(s)
  {
    if s.queue != [] {
      RestNotified(s, e.woken);
      RestMoved(NotifyOne(s, e.woken), e.c, Processing(s.taken));
    } else {
      RestMoved(s, e.c, Exited);
    }
  }

  lemma AllNotified<T>(s: Queue<T>)
    ensures Rest(NotifyAll(s)) == Rest(s)
  {
    var t := NotifyAll(s);
    assert t.consumers.Keys == s.consumers.Keys;
    assert |t.consumers.Keys| == |s.consumers.Keys|;
    assert Busy(t) == Busy(s) && Where(t.consumers, Exited) == Where(s.consumers, Exited);
  }

  lemma UsefulLowers<T>(s: Queue<T>, e: Event)
    requires Enabled(s, e) && !IdleStep(s, e)
    ensures Rest(Apply(s, e)) < Rest(s)
  {
    match e
    case Put(_) => PutLowers(s, e);
    case PutAgain(_) => PutLowers(s, e);
    case Take(_, _) => TakeLowers(s, e);
    case Processed(c) => RestMoved(s, c, Ready);
    case JoinAll => AllNotified(s);
    case Joined =>
  }

  lemma OneStep<T>(s: Queue<T>, e: Event, a: Actor)
    requires Enabled(s, e) && Helps(s, a)
    ensures || Below(RankOf(Apply(s, e)), RankOf(s))
            || (RankOf(Apply(s, e)) == RankOf(s) && Helps(Apply(s, e), a) && !Own(e, a))
  {
    if IdleStep(s, e) {
      IdleKeeps(s, e, a);
    } else {
      UsefulLowers(s, e);
    }
  }

  /** Until everything has been joined, somebody's step brings progress. */
  lemma SomebodyHelps<T>(s: Queue<T>) returns (a: Actor)
    requires Inv(s) && !Finished(s)
    ensures Helps(s, a)
  {
    if c :| c in s.consumers && s.consumers[c].Processing? {
      a := Consuming(c);
    } else if s.queue != [] {
      a := TakerHelps(s);
    } else if s.producer.Joining? {
      a := JoinerHelps(s);
    } else {
      a := Producing;
    }
  }

  /** Someone is on the way to a queue that is not empty. */
  lemma TakerHelps<T>(s: Queue<T>) returns (a: Actor)
    requires Inv(s) && s.queue != [] && forall c :: c in s.consumers ==> !s.consumers[c].Processing?
    ensures Helps(s, a)
  {
    Occupied(s.consumers, Asleep);
    Occupied(s.consumers, Notified);
    Occupied(s.consumers, Exited);
    if Sleeping(s) {
      var c :| c in s.consumers && s.consumers[c] == Notified;
      a := Consuming(c);
    } else {
      var c :| c in s.consumers.Keys;
      a := Consuming(c);
    }
  }

  lemma JoinerHelps<T>(s: Queue<T>) returns (a: Actor)
    requires Inv(s) && s.producer.Joining? && forall c :: c in s.consumers ==> !s.consumers[c].Processing?
    ensures Helps(s, a)
  {
    Occupied(s.consumers, Asleep);
    if c :| c in s.consumers && s.consumers[c] != Exited {
      a := Consuming(c);
    } else {
      a := Producing;
    }
  }

  // ---------------------------------------------------------------- schedules

  lemma StepKeepsInv<T>(s: Queue<T>, t: Queue<T>)
    requires Inv(s) && Step(s, t)
    ensures Inv(t) && Program(t) == Program(s)
  {
    var e :| Enabled(s, e) && t == Apply(s, e);
    EventKeepsInv(s, e);
  }

  lemma {:induction false} ScheduleKeepsInv<T>(f: nat -> Queue<T>, k: nat)
    requires Inv(f(0)) && forall m: nat :: StepAt(f, m)
    ensures Inv(f(k)) && Program(f(k)) == Program(f(0))
  {
    if k > 0 {
      ScheduleKeepsInv(f, k - 1);
      assert StepAt(f, k - 1);
      if f(k) != f(k - 1) {
        StepKeepsInv(f(k - 1), f(k));
      }
    }
  }

  ghost function CourseOf<T>(f: nat -> Queue<T>): Course<Actor> {
    Course((k: nat) => RankOf(f(k)), (k: nat) => Finished(f(k)),
           (k: nat, a: Actor) => Helps(f(k), a), (k: nat, a: Actor) => MovesAt(f, k, a))
  }

  lemma HelperIsSteady<T>(f: nat -> Queue<T>, k: nat, a: Actor)
    requires StepAt(f, k)
    ensures Steady(CourseOf(f), k, a)
  {
    if Helps(f(k), a) {
      if MovesAt(f, k, a) {
        var e :| Own(e, a) && Enabled(f(k), e) && f(k + 1) == Apply(f(k), e);
        OneStep(f(k), e, a);
      } else if f(k + 1) != f(k) {
        var e :| Enabled(f(k), e) && f(k + 1) == Apply(f(k), e);
        OneStep(f(k), e, a);
      }
    }
  }

  lemma AlwaysHelped<T>(f: nat -> Queue<T>, m: nat)
    requires Inv(f(0)) && forall l: nat :: StepAt(f, l)
    ensures Helped(CourseOf(f), m)
  {
    ScheduleKeepsInv(f, m);
    if !Finished(f(m)) {
      var a := SomebodyHelps(f(m));
      assert CourseOf(f).helps(m, a);
    }
  }

  lemma AlwaysFair<T>(f: nat -> Queue<T>, m: nat, a: Actor)
    requires Inv(f(0)) && (forall l: nat :: StepAt(f, l)) && Fair(f)
    ensures Steady(CourseOf(f), m, a) && FairTo(CourseOf(f), m, a)
  {
    assert StepAt(f, m) && TurnComes(f, m, a);
    HelperIsSteady(f, m, a);
    var j: nat :| m <= j && (MovesAt(f, j, a) || !CanMove(f(j), a));
    assert CourseOf(f).moves(j, a) || !CourseOf(f).helps(j, a);
  }

  /** In every fair schedule, with any number of wakeups for nothing, the program completes: every item
      is accepted in order and processed exactly once, and everything is joined. */
  lemma ProgramCompletesFairly<T>(f: nat -> Queue<T>) returns (k: nat)
    requires Inv(f(0)) && (forall m: nat :: StepAt(f, m)) && Fair(f)
    ensures Completed(f(k), Program(f(0)))
  {
    var c := CourseOf(f);
    forall m: nat ensures Helped(c, m) {
      AlwaysHelped(f, m);
    }
    forall m: nat, a ensures Steady(c, m, a) && FairTo(c, m, a) {
      AlwaysFair(f, m, a);
    }
    k := EndIsReached(c, 0);
    ScheduleKeepsInv(f, k);
    FinishedMeansCompleted(f(k));
  }
}
