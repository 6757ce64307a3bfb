/**
 The object pool once no more calls of acquire begin: every waiting call is served or times out, although
 waiters may wake for nothing as often as they like.
 */
module PoolLiveness {
  import opened Census
  import opened Fairness
  import opened PoolProtocol
  import opened Wrappers

  /** A thread inside acquire, or the holder of a record. */
  datatype Actor<R> = Waiter(t: Thread) | Holder(r: R)

  ghost predicate Lively<R>(e: Event<R>) {
    Internal(e) || e.TimedOut? || e.Spurious?
  }

  /** Whose step the event is; waking for nothing is nobody's. */
  ghost predicate Own<R>(e: Event<R>, a: Actor<R>) {
    match e
    case Wake(t) => a == Waiter(t)
    case Created(t, _) => a == Waiter(t)
    case CreateFailed(t) => a == Waiter(t)
    case TimedOut(t) => a == Waiter(t)
    case Release(r, _) => a == Holder(r)
    case _ => false
  }

  ghost predicate CanMove<R>(s: Pool<R>, a: Actor<R>) {
    match a
    case Waiter(t) => t in s.threads && s.threads[t] != Asleep
    case Holder(r) => r in s.handles
  }

  ghost predicate Step<R(!new)>(s: Pool<R>, t: Pool<R>) {
    exists e :: Lively(e) && Enabled(s, e) && t == Apply(s, e)
  }

  ghost predicate StepAt<R(!new)>(f: nat -> Pool<R>, k: nat) {
    f(k + 1) == f(k) || Step(f(k), f(k + 1))
  }

  ghost predicate MovesAt<R(!new)>(f: nat -> Pool<R>, k: nat, a: Actor<R>) {
    exists e :: Lively(e) && Own(e, a) && Enabled(f(k), e) && f(k + 1) == Apply(f(k), e)
  }

  ghost predicate TurnComes<R(!new)>(f: nat -> Pool<R>, k: nat, a: Actor<R>) {
    exists j: nat :: k <= j && (MovesAt(f, j, a) || !CanMove(f(j), a))
  }

  /** Nobody who can move is kept from moving for ever; so every holder releases in the end. */
  ghost predicate Fair<R(!new)>(f: nat -> Pool<R>) {
    forall k: nat, a :: TurnComes(f, k, a)
  }

  // ---------------------------------------------------------------- what brings progress

  ghost function RankOf<R>(s: Pool<R>): Rank {
    (2 * |s.threads| + |s.handles|, 0, 0)
  }

  /** A waiter that finds nothing sleeps on. */
  ghost predicate Idle<R>(s: Pool<R>, e: Event<R>) {
    e.Spurious? || (e.Wake? && s.free == [])
  }

  ghost predicate Helps<R>(s: Pool<R>, a: Actor<R>) {
    match a
    case Waiter(t) => t in s.threads && (s.threads[t] == Creating || (s.threads[t] == Notified && s.free != []))
    case Holder(r) => r in s.handles
  }

  lemma SameThreads<R>(s: Pool<R>, w: Thread, p: Phase)
    requires w in s.threads
    ensures |At(s, w, p).threads| == |s.threads|
  {
    assert At(s, w, p).threads.Keys == s.threads.Keys;
    assert |At(s, w, p).threads.Keys| == |s.threads.Keys|;
  }

  lemma IdleStep<R>(s: Pool<R>, e: Event<R>, a: Actor<R>)
    requires Lively(e) && Enabled(s, e) && Idle(s, e) && Helps(s, a)
    ensures RankOf(Apply(s, e)) == RankOf(s) && Helps(Apply(s, e), a) && !Own(e, a)
  {
    SameThreads(s, e.t, if e.Spurious? then Notified else Asleep);
  }

  lemma UsefulStep<R>(s: Pool<R>, e: Event<R>)
    requires Lively(e) && Enabled(s, e) && !Idle(s, e)
    ensures Below(RankOf(Apply(s, e)), RankOf(s))
  {
    if e.Release? {
      if e.woken.Some? {
        SameThreads(s, e.woken.value, Notified);
      }
    } else {
      LeaveShrinks(s, e.t);
    }
  }

  /** Until everybody is served and everything released, somebody's step brings progress. */
  lemma SomebodyHelps<R>(s: Pool<R>) returns (a: Actor<R>)
    requires Inv(s) && !Drained(s)
    ensures Helps(s, a)
  {
    if s.handles != multiset{} {
      var r :| r in s.handles;
      a := Holder(r);
    } else {
      var t :| t in s.threads.Keys;
      Occupied(s.threads, Asleep);
      Occupied(s.threads, Notified);
      SleeperHasReleaser(s);
      if s.threads[t] == Creating {
        a := Waiter(t);
      } else {
        var w :| w in s.threads && s.threads[w] == Notified;
        a := Waiter(w);
      }
    }
  }

  // ---------------------------------------------------------------- schedules

  lemma StepKeepsInv<R(!new)>(s: Pool<R>, t: Pool<R>)
    requires Inv(s) && Step(s, t)
    ensures Inv(t)
  {
    var e :| Lively(e) && Enabled(s, e) && t == Apply(s, e);
    EventKeepsInv(s, e);
  }

  lemma {:induction false} ScheduleKeepsInv<R(!new)>(f: nat -> Pool<R>, k: nat)
    requires Inv(f(0)) && forall m: nat :: StepAt(f, m)
    ensures Inv(f(k))
  {
    if k > 0 {
      ScheduleKeepsInv(f, k - 1);
      assert StepAt(f, k - 1);
      if f(k) != f(k - 1) {
        StepKeepsInv(f(k - 1), f(k));
      }
    }
  }

  ghost function CourseOf<R(!new)>(f: nat -> Pool<R>): Course<Actor<R>> {
    Course((k: nat) => RankOf(f(k)), (k: nat) => Drained(f(k)),
           (k: nat, a: Actor<R>) => Helps(f(k), a), (k: nat, a: Actor<R>) => MovesAt(f, k, a))
  }

  lemma HelperIsSteady<R(!new)>(f: nat -> Pool<R>, k: nat, a: Actor<R>)
    requires StepAt(f, k)
    ensures Steady(CourseOf(f), k, a)
  {
    if Helps(f(k), a) {
      if MovesAt(f, k, a) {
        var e :| Lively(e) && Own(e, a) && Enabled(f(k), e) && f(k + 1) == Apply(f(k), e);
        OneStep(f(k), e, a);
      } else if f(k + 1) != f(k) {
        var e :| Lively(e) && Enabled(f(k), e) && f(k + 1) == Apply(f(k), e);
        OneStep(f(k), e, a);
      }
    }
  }

  lemma OneStep<R>(s: Pool<R>, e: Event<R>, a: Actor<R>)
    requires Lively(e) && Enabled(s, e) && Helps(s, a)
    ensures || Below(RankOf(Apply(s, e)), RankOf(s))
            || (RankOf(Apply(s, e)) == RankOf(s) && Helps(Apply(s, e), a) && !Own(e, a))
  {
    if Idle(s, e) {
      IdleStep(s, e, a);
    } else {
      UsefulStep(s, e);
    }
  }

  lemma AlwaysHelped<R(!new)>(f: nat -> Pool<R>, m: nat)
    requires Inv(f(0)) && forall l: nat :: StepAt(f, l)
    ensures Helped(CourseOf(f), m)
  {
    ScheduleKeepsInv(f, m);
    if !Drained(f(m)) {
      var a := SomebodyHelps(f(m));
      assert CourseOf(f).helps(m, a);
    }
  }

  lemma AlwaysFair<R(!new)>(f: nat -> Pool<R>, m: nat, a: Actor<R>)
    requires Inv(f(0)) && (forall l: nat :: StepAt(f, l)) && Fair(f)
    ensures Steady(CourseOf(f), m, a) && FairTo(CourseOf(f), m, a)
  {
    assert StepAt(f, m) && TurnComes(f, m, a);
    HelperIsSteady(f, m, a);
    var j: nat :| m <= j && (MovesAt(f, j, a) || !CanMove(f(j), a));
    assert CourseOf(f).moves(j, a) || !CourseOf(f).helps(j, a);
  }

  /** In every fair schedule the pool drains: each waiting call ends, and each record comes back. */
  lemma PoolDrainsFairly<R(!new)>(f: nat -> Pool<R>) returns (k: nat)
    requires Inv(f(0)) && (forall m: nat :: StepAt(f, m)) && Fair(f)
    ensures Inv(f(k)) && Drained(f(k))
  {
    var c := CourseOf(f);
    forall m: nat ensures Helped(c, m) {
      AlwaysHelped(f, m);
    }
    forall m: nat, a ensures Steady(c, m, a) && FairTo(c, m, a) {
      AlwaysFair(f, m, a);
    }
    k := EndIsReached(c, 0);
    ScheduleKeepsInv(f, k);
  }
}
