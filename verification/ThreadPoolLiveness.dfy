/**
 The thread pool under weak fairness: without calls from outside it settles, although workers may wake for
 nothing as often as they like.
 */
module ThreadPoolLiveness {
  import opened Census
  import opened Fairness
  import opened ThreadPoolProtocol

  ghost predicate Lively<T>(e: Event<T>) {
    Internal(e) || e.Spurious?
  }

  ghost predicate CanMove<T>(s: Pool<T>, w: Worker) {
    w in s.workers && s.workers[w] != Asleep
  }

  ghost predicate Step<T(!new)>(s: Pool<T>, t: Pool<T>) {
    exists e :: Lively(e) && Enabled(s, e) && t == Apply(s, e)
  }

  ghost predicate StepAt<T(!new)>(f: nat -> Pool<T>, k: nat) {
    f(k + 1) == f(k) || Step(f(k), f(k + 1))
  }

  ghost predicate MovesAt<T(!new)>(f: nat -> Pool<T>, k: nat, w: Worker) {
    exists e :: Internal(e) && e.w == w && Enabled(f(k), e) && f(k + 1) == Apply(f(k), e)
  }

  ghost predicate TurnComes<T(!new)>(f: nat -> Pool<T>, k: nat, w: Worker) {
    exists j: nat :: k <= j && (MovesAt(f, j, w) || !CanMove(f(j), w))
  }

  /** No worker that can move is kept from moving for ever; so every task ends. */
  ghost predicate Fair<T(!new)>(f: nat -> Pool<T>) {
    forall k: nat, w :: TurnComes(f, k, w)
  }

  /** Of the target size, with nothing left to do; some workers may be about to find that out. */
  ghost predicate Settled<T>(s: Pool<T>) {
    && s.workerCount == s.target
    && (s.target >= 1 ==> s.queue == [])
    && forall w :: w in s.workers ==> s.workers[w] == Asleep || s.workers[w] == Notified
  }

  // ---------------------------------------------------------------- what brings progress

  /** Workers that are about to die or about to look, but not those that have woken, unless they die too. */
  ghost function Pending<T>(s: Pool<T>): nat {
    if s.workerCount > s.target then Count(s.workers, Ready) + Count(s.workers, Notified)
    else 2 * Count(s.workers, Dying) + Count(s.workers, Ready)
  }

  ghost function RankOf<T>(s: Pool<T>): Rank {
    (TaskWork(s), |s.workers|, Pending(s))
  }

  /** Waking for nothing, and going back to sleep. */
  ghost predicate Idle<T>(s: Pool<T>, e: Event<T>) {
    e.Spurious? || (e.Wake? && s.workerCount <= s.target && s.queue == [])
  }

  ghost predicate Helps<T>(s: Pool<T>, w: Worker) {
    && CanMove(s, w)
    && (s.workers[w] == Notified ==> s.workerCount > s.target || s.queue != [])
  }

  lemma SameWorkers<T>(s: Pool<T>, w: Worker, p: Phase)
    requires w in s.workers
    ensures |s.workers[w := p]| == |s.workers|
  {
    assert s.workers[w := p].Keys == s.workers.Keys;
    assert |s.workers[w := p].Keys| == |s.workers.Keys|;
  }

  lemma IdleStep<T>(s: Pool<T>, e: Event<T>, w: Worker)
    requires Inv(s) && Lively(e) && Enabled(s, e) && Idle(s, e) && Helps(s, w)
    ensures RankOf(Apply(s, e)) == RankOf(s) && Helps(Apply(s, e), w) && (Internal(e) ==> e.w != w)
  {
    var p := if e.Spurious? then Notified else Asleep;
    SameWorkers(s, e.w, p);
    BusyMoved(s, Apply(s, e), e.w);
    Occupied(s.workers, Asleep);
    Moved(s.workers, e.w, p, Ready);
    Moved(s.workers, e.w, p, Dying);
  }

  lemma UsefulStep<T>(s: Pool<T>, e: Event<T>)
    requires Inv(s) && s.isRunning && Lively(e) && Enabled(s, e) && !Idle(s, e)
    ensures Below(RankOf(Apply(s, e)), RankOf(s))
  {
    if e.Died? {
      DeathLowers(s, e);
    } else {
      var t := Apply(s, e);
      var p := t.workers[e.w];
      SameWorkers(s, e.w, p);
      BusyMoved(s, t, e.w);
      Moved(s.workers, e.w, p, Ready);
      Moved(s.workers, e.w, p, Notified);
      Moved(s.workers, e.w, p, Dying);
    }
  }

  lemma DeathLowers<T>(s: Pool<T>, e: Event<T>)
    requires Inv(s) && s.isRunning && e.Died? && Enabled(s, e)
    ensures Below(RankOf(Apply(s, e)), RankOf(s))
  {
    var u := s.workers - {e.w};
    assert Busy(Apply(s, e)) == Busy(s);
    assert u.Keys == s.workers.Keys - {e.w};
    assert |u.Keys| == |s.workers.Keys| - 1;
    if s.target > s.workerCount - 1 {
      assert u[s.serial := Ready].Keys == u.Keys + {s.serial};
      assert |u[s.serial := Ready].Keys| == |u.Keys| + 1;
      Left(s.workers, e.w, Ready);
      Left(s.workers, e.w, Dying);
      Moved(u, s.serial, Ready, Ready);
      Moved(u, s.serial, Ready, Dying);
    }
  }

  lemma OneStep<T>(s: Pool<T>, e: Event<T>, w: Worker)
    requires Inv(s) && s.isRunning && Lively(e) && Enabled(s, e) && Helps(s, w)
    ensures || Below(RankOf(Apply(s, e)), RankOf(s))
            || (RankOf(Apply(s, e)) == RankOf(s) && Helps(Apply(s, e), w) && (Internal(e) ==> e.w != w))
  {
    if Idle(s, e) {
      IdleStep(s, e, w);
    } else {
      UsefulStep(s, e);
    }
  }

  /** Until the pool is settled, some worker's step brings progress. */
  lemma SomebodyHelps<T>(s: Pool<T>) returns (w: Worker)
    requires Inv(s) && s.isRunning && !Settled(s)
    ensures Helps(s, w)
  {
    if v :| v in s.workers && s.workers[v] != Asleep && s.workers[v] != Notified {
      w := v;
    } else {
      Occupied(s.workers, Asleep);
      Occupied(s.workers, Notified);
      if Sleeping(s) {
        w :| w in s.workers && s.workers[w] == Notified;
      } else {
        assert |s.workers| > 0;
        w :| w in s.workers.Keys;
      }
    }
  }

  /** A settled pool stays settled. */
  lemma SettledStays<T>(s: Pool<T>, e: Event<T>)
    requires Settled(s) && s.workerCount == |s.workers| && Lively(e) && Enabled(s, e)
    ensures Settled(Apply(s, e))
  {
    assert |s.workers.Keys| > 0;
  }

  // ---------------------------------------------------------------- schedules

  lemma StepKeepsInv<T(!new)>(s: Pool<T>, t: Pool<T>)
    requires Inv(s) && s.isRunning && Step(s, t)
    ensures Inv(t) && t.isRunning && t.target == s.target
  {
    var e :| Lively(e) && Enabled(s, e) && t == Apply(s, e);
    EventKeepsInv(s, e);
  }

  lemma {:induction false} ScheduleKeepsInv<T(!new)>(f: nat -> Pool<T>, k: nat)
    requires Inv(f(0)) && f(0).isRunning && forall m: nat :: StepAt(f, m)
    ensures Inv(f(k)) && f(k).isRunning && f(k).target == f(0).target
  {
    if k > 0 {
      ScheduleKeepsInv(f, k - 1);
      assert StepAt(f, k - 1);
      if f(k) != f(k - 1) {
        StepKeepsInv(f(k - 1), f(k));
      }
    }
  }

  ghost function CourseOf<T(!new)>(f: nat -> Pool<T>): Course<Worker> {
    Course((k: nat) => RankOf(f(k)), (k: nat) => Settled(f(k)),
           (k: nat, w: Worker) => Helps(f(k), w), (k: nat, w: Worker) => MovesAt(f, k, w))
  }

  lemma HelperIsSteady<T(!new)>(f: nat -> Pool<T>, k: nat, w: Worker)
    requires Inv(f(k)) && f(k).isRunning && StepAt(f, k)
    ensures Steady(CourseOf(f), k, w)
  {
    if Helps(f(k), w) {
      if MovesAt(f, k, w) {
        var e :| Internal(e) && e.w == w && Enabled(f(k), e) && f(k + 1) == Apply(f(k), e);
        OneStep(f(k), e, w);
      } else if f(k + 1) != f(k) {
        var e :| Lively(e) && Enabled(f(k), e) && f(k + 1) == Apply(f(k), e);
        OneStep(f(k), e, w);
      }
    }
  }

  lemma AlwaysHelped<T(!new)>(f: nat -> Pool<T>, m: nat)
    requires Inv(f(0)) && f(0).isRunning && forall l: nat :: StepAt(f, l)
    ensures Helped(CourseOf(f), m)
  {
    ScheduleKeepsInv(f, m);
    if !Settled(f(m)) {
      var w := SomebodyHelps(f(m));
      assert CourseOf(f).helps(m, w);
    }
  }

  lemma AlwaysFair<T(!new)>(f: nat -> Pool<T>, m: nat, w: Worker)
    requires Inv(f(0)) && f(0).isRunning && (forall l: nat :: StepAt(f, l)) && Fair(f)
    ensures Steady(CourseOf(f), m, w) && FairTo(CourseOf(f), m, w)
  {
    assert StepAt(f, m) && TurnComes(f, m, w);
    ScheduleKeepsInv(f, m);
    HelperIsSteady(f, m, w);
    var j: nat :| m <= j && (MovesAt(f, j, w) || !CanMove(f(j), w));
    assert CourseOf(f).moves(j, w) || !CourseOf(f).helps(j, w);
  }

  /** In every fair schedule of the workers, with any number of wakeups for nothing, the pool reaches its
      target size and runs all tasks, unless the target is zero. */
  lemma PoolSettlesFairly<T(!new)>(f: nat -> Pool<T>) returns (k: nat)
    requires Inv(f(0)) && f(0).isRunning && (forall m: nat :: StepAt(f, m)) && Fair(f)
    ensures Settled(f(k)) && f(k).target == f(0).target
  {
    var c := CourseOf(f);
    forall m: nat ensures Helped(c, m) {
      AlwaysHelped(f, m);
    }
    forall m: nat, w ensures Steady(c, m, w) && FairTo(c, m, w) {
      AlwaysFair(f, m, w);
    }
    k := EndIsReached(c, 0);
    ScheduleKeepsInv(f, k);
  }

  /** From then on it stays so. */
  lemma {:induction false} SettledForGood<T(!new)>(f: nat -> Pool<T>, k: nat, l: nat)
    requires Inv(f(0)) && f(0).isRunning && (forall m: nat :: StepAt(f, m)) && Settled(f(k)) && k <= l
    ensures Settled(f(l))
    decreases l - k
  {
    if k < l {
      SettledForGood(f, k, l - 1);
      ScheduleKeepsInv(f, l - 1);
      assert StepAt(f, l - 1);
      if f(l) != f(l - 1) {
        var e :| Lively(e) && Enabled(f(l - 1), e) && f(l) == Apply(f(l - 1), e);
        SettledStays(f(l - 1), e);
      }
    }
  }
}
