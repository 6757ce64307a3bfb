/**
 The object pool as a monitor: an intrusive free list, growth outside the lock, and waiting on a
 condition variable.

 A pool value holds the fields that the mutex protects, with the free list written as the sequence
 of records on the chain from `top`, together with the threads inside `acquire` and the live
 handles.  One event is one critical section.  The class in PoolClass.dfy keeps the real linked
 records and is proved to perform exactly these events.
 */
module PoolProtocol {
  import opened Census
  import opened Common
  import opened Wrappers

  type Thread = nat

  /** Inside acquire: constructing an item with the mutex released; waiting and not notified; or
      woken and about to retake the mutex. */
  datatype Phase = Creating | Asleep | Notified

  datatype Pool<R> = Pool(
    startSize: nat,
    maxSize: nat,
    open: bool,                    // the constructor has finished
    records: seq<R>,               // pool_data
    free: seq<R>,                  // the chain from top
    inUse: set<R>,                 // records whose in_use flag is set
    inUseCount: int,
    currentSize: int,
    nextSize: int,
    threads: map<Thread, Phase>,
    handles: multiset<R>)          // live Ptr objects, by the record they refer to

  datatype Event<R> =
    | Grow(r: R)
    | Open
    | Acquire(t: Thread)
    | Created(t: Thread, r: R)
    | CreateFailed(t: Thread)
    | Wake(t: Thread)
    | TimedOut(t: Thread)
    | Spurious(t: Thread)
    | Release(r: R, woken: Option<Thread>)

  function Max(a: nat, b: nat): nat { if a < b then b else a }

  /** The members start_size and max_size as the constructor computes them from its arguments. */
  ghost function Create<R>(startArg: nat, maxArg: nat): Pool<R> {
    Pool(Max(2, startArg), Max(startArg, maxArg), false, [], [], {}, 0, 0, 0, map[], multiset{})
  }

  ghost predicate Sleeping<R>(s: Pool<R>) {
    Count(s.threads, Asleep) > 0
  }

  ghost function Push<R>(s: Pool<R>, r: R): Pool<R> {
    s.(records := s.records + [r], free := [r] + s.free, currentSize := s.currentSize + 1)
  }

  ghost function FetchTop<R>(s: Pool<R>): Pool<R>
    requires s.free != []
  {
    s.(free := s.free[1..], inUse := s.inUse + {s.free[0]}, inUseCount := s.inUseCount + 1,
       handles := s.handles + multiset{s.free[0]})
  }

  ghost function Returned<R>(s: Pool<R>, r: R): Pool<R> {
    s.(free := [r] + s.free, inUse := s.inUse - {r}, inUseCount := s.inUseCount - 1,
       handles := s.handles - multiset{r})
  }

  ghost function Woken<R>(s: Pool<R>, woken: Option<Thread>): Pool<R> {
    if woken.Some? then At(s, woken.value, Notified) else s
  }

  ghost function At<R>(s: Pool<R>, t: Thread, p: Phase): Pool<R> {
    s.(threads := s.threads[t := p])
  }

  ghost function Gone<R>(s: Pool<R>, t: Thread): Pool<R> {
    s.(threads := s.threads - {t})
  }

  ghost predicate Enabled<R>(s: Pool<R>, e: Event<R>) {
    match e
    case Grow(r) => !s.open && |s.records| < s.startSize && r !in s.records
    case Open => !s.open && |s.records| == s.startSize
    case Acquire(t) => s.open && t !in s.threads
    case Created(t, r) => t in s.threads && s.threads[t] == Creating && r !in s.records
    case CreateFailed(t) => t in s.threads && s.threads[t] == Creating
    case Wake(t) => t in s.threads && s.threads[t] == Notified
    case TimedOut(t) => t in s.threads && s.threads[t] != Creating
    case Spurious(t) => t in s.threads && s.threads[t] == Asleep
    case Release(r, woken) =>
      && r in s.handles
      && if Sleeping(s) then woken.Some? && woken.value in Where(s.threads, Asleep) else woken.None?
  }

  ghost function Apply<R>(s: Pool<R>, e: Event<R>): Pool<R>
    requires Enabled(s, e)
  {
    match e
    case Grow(r) => Push(s, r).(nextSize := s.nextSize + 1)
    case Open => s.(open := true)
    case Acquire(t) =>
      if s.free != [] then FetchTop(s)
      else if s.nextSize < s.maxSize then At(s, t, Creating).(nextSize := s.nextSize + 1)
      else At(s, t, Asleep)
    case Created(t, r) => FetchTop(Push(Gone(s, t), r))
    case CreateFailed(t) => Gone(s, t).(nextSize := s.nextSize - 1)
    case Wake(t) => if s.free != [] then FetchTop(Gone(s, t)) else At(s, t, Asleep)
    case TimedOut(t) => if s.free != [] then FetchTop(Gone(s, t)) else Gone(s, t)
    case Spurious(t) => At(s, t, Notified)
    case Release(r, woken) =>
      Woken(Returned(s, r), woken)
  }

  // ---------------------------------------------------------------- the invariant

  /** Every record is on the free chain once or in use, never both; every in-use record has
      exactly one live handle. */
  ghost predicate Owned<R>(s: Pool<R>) {
    && Distinct(s.records)
    && Distinct(s.free)
    && (forall r :: r in s.records ==> r in s.free || r in s.inUse)
    && (forall r :: r in s.free ==> r in s.records && r !in s.inUse)
    && (forall r :: r in s.inUse ==> r in s.records)
    && s.handles == multiset(s.inUse)
  }

  ghost predicate Sized<R>(s: Pool<R>) {
    && s.inUseCount == |s.inUse|
    && s.currentSize == |s.records| == |s.free| + |s.inUse|
    && s.currentSize + Count(s.threads, Creating) == s.nextSize <= Max(s.startSize, s.maxSize)
    && (Count(s.threads, Creating) > 0 ==> s.nextSize <= s.maxSize)
    && 2 <= s.startSize
    && (if s.open then s.startSize <= |s.records| else s.threads == map[] && |s.records| <= s.startSize)
  }

  /** While somebody sleeps un-notified, each free item has a notified waiter coming for it. */
  ghost predicate NoLostWakeup<R>(s: Pool<R>) {
    Sleeping(s) ==> |s.free| <= Count(s.threads, Notified)
  }

  ghost predicate Inv<R>(s: Pool<R>) {
    Owned(s) && Sized(s) && NoLostWakeup(s)
  }

  lemma PushOwned<R>(s: Pool<R>, r: R)
    requires Owned(s) && r !in s.records
    ensures Owned(Push(s, r))
  {
  }

  lemma FetchTopOwned<R>(s: Pool<R>)
    requires Owned(s) && s.free != []
    ensures Owned(FetchTop(s))
    ensures s.free[0] !in s.handles && s.free[0] !in s.inUse
  {
    var t := FetchTop(s);
    assert s.free == [s.free[0]] + t.free;
  }

  lemma InHand<R>(s: Pool<R>, r: R)
    requires Inv(s) && r in s.handles
    ensures r in s.inUse && r in s.records && r !in s.free && s.inUseCount > 0
  {
  }

  lemma ReleaseOwned<R>(s: Pool<R>, r: R)
    requires Owned(s) && r in s.handles
    ensures Owned(s.(free := [r] + s.free, inUse := s.inUse - {r}, handles := s.handles - multiset{r}))
    ensures r in s.inUse
  {
    assert multiset(s.inUse - {r}) == multiset(s.inUse) - multiset{r};
  }

  /** The counts of the positions after thread `t` moved to `p`, or left. */
  lemma MovedAll<R>(s: Pool<R>, t: Thread, p: Phase)
    ensures forall q :: Count(At(s, t, p).threads, q) == Count(s.threads, q)
                          - (if t in s.threads && s.threads[t] == q then 1 else 0) + (if q == p then 1 else 0)
  {
    forall q { Moved(s.threads, t, p, q); }
  }

  lemma GoneAll<R>(s: Pool<R>, t: Thread)
    requires t in s.threads
    ensures forall q :: Count(Gone(s, t).threads, q) == Count(s.threads, q) - (if s.threads[t] == q then 1 else 0)
  {
    forall q { Left(s.threads, t, q); }
  }

  lemma ServeKeeps<R>(s: Pool<R>, e: Event<R>)
    requires Inv(s) && Enabled(s, e) && (e.Acquire? || e.Wake? || e.TimedOut?)
    ensures Inv(Apply(s, e))
  {
    if !e.Acquire? {
      GoneAll(s, e.t);
    }
    if s.free != [] {
      FetchTopOwned(s);
    } else {
      MovedAll(s, e.t, if e.Acquire? && s.nextSize < s.maxSize then Creating else Asleep);
    }
  }

  lemma GrowthKeeps<R>(s: Pool<R>, e: Event<R>)
    requires Inv(s) && Enabled(s, e) && (e.Grow? || e.Open? || e.Created? || e.CreateFailed?)
    ensures Inv(Apply(s, e))
  {
    match e
    case Grow(r) => PushOwned(s, r);
    case Open =>
    case Created(t, r) =>
      GoneAll(s, t);
      PushOwned(Gone(s, t), r);
      FetchTopOwned(Push(Gone(s, t), r));
    case CreateFailed(t) => GoneAll(s, t);
  }

  lemma ReleaseKeeps<R>(s: Pool<R>, e: Event<R>)
    requires Inv(s) && Enabled(s, e) && e.Release?
    ensures Inv(Apply(s, e))
  {
    ReleaseOwned(s, e.r);
    if e.woken.Some? {
      MovedAll(s, e.woken.value, Notified);
    }
  }

  /** Every interleaving: one critical section of any thread keeps the invariant. */
  lemma EventKeepsInv<R>(s: Pool<R>, e: Event<R>)
    requires Inv(s) && Enabled(s, e)
    ensures Inv(Apply(s, e))
  {
    match e
    case Acquire(_) => ServeKeeps(s, e);
    case Wake(_) => ServeKeeps(s, e);
    case TimedOut(_) => ServeKeeps(s, e);
    case Spurious(t) => MovedAll(s, t, Notified);
    case Release(_, _) => ReleaseKeeps(s, e);
    case _ => GrowthKeeps(s, e);
  }

  lemma GrownKeepsInv<R>(s: Pool<R>, r: R)
    requires Inv(s) && !s.open && |s.records| < s.startSize && r !in s.records
    ensures var t := Push(s, r).(nextSize := s.nextSize + 1); Inv(t) && t == Apply(s, Grow(r))
  {
    GrowthKeeps(s, Grow(r));
  }

  lemma ReturnedKeepsInv<R>(s: Pool<R>, r: R, woken: Option<Thread>)
    requires Inv(s) && r in s.handles
    requires if Sleeping(s) then woken.Some? && woken.value in Where(s.threads, Asleep) else woken.None?
    ensures var t := Woken(Returned(s, r), woken); Inv(t) && t == Apply(s, Release(r, woken))
  {
    ReleaseKeeps(s, Release(r, woken));
  }

  lemma CreateInv<R>(startArg: nat, maxArg: nat)
    ensures Inv(Create<R>(startArg, maxArg))
  {
    Occupied(map[], Creating);
    Occupied(map[], Asleep);
  }

  // ---------------------------------------------------------------- what the invariant gives

  /** The record that the event hands to its caller, if any. */
  ghost function Served<R>(s: Pool<R>, e: Event<R>): Option<R>
    requires Enabled(s, e)
  {
    match e
    case Acquire(_) => if s.free != [] then Some(s.free[0]) else None
    case Wake(_) => if s.free != [] then Some(s.free[0]) else None
    case TimedOut(_) => if s.free != [] then Some(s.free[0]) else None
    case Created(_, r) => Some(r)
    case _ => None
  }

  /** A record handed out was in nobody's hands before, and is in exactly one pair of hands after. */
  lemma ServedExclusively<R>(s: Pool<R>, e: Event<R>)
    requires Inv(s) && Enabled(s, e) && Served(s, e).Some?
    ensures var r := Served(s, e).value;
            && r !in s.handles
            && Apply(s, e).handles == s.handles + multiset{r}
            && Apply(s, e).handles[r] == 1
  {
    if !e.Created? {
      FetchTopOwned(s);
    }
  }

  ghost predicate AsleepOnlyAtCapacity<R>(s: Pool<R>) {
    Sleeping(s) ==> s.nextSize >= s.maxSize
  }

  /** A failed construction gives its slot back without telling anybody, and a woken waiter looks at
      the free chain only.  Exactly these two events can leave a thread asleep although the pool may
      grow again. */
  lemma CapacityKeptIff<R>(s: Pool<R>, e: Event<R>)
    requires Inv(s) && Enabled(s, e) && AsleepOnlyAtCapacity(s)
    ensures AsleepOnlyAtCapacity(Apply(s, e)) <==>
            !(e.CreateFailed? && Sleeping(s)) && !(e.Wake? && s.free == [] && s.nextSize < s.maxSize)
  {
    match e
    case Acquire(t) => MovedAll(s, t, if s.nextSize < s.maxSize then Creating else Asleep);
    case Created(t, _) => GoneAll(s, t);
    case CreateFailed(t) => GoneAll(s, t);
    case Wake(t) => GoneAll(s, t); MovedAll(s, t, Asleep);
    case TimedOut(t) => GoneAll(s, t);
    case Spurious(t) => MovedAll(s, t, Notified);
    case Release(_, woken) => if woken.Some? { MovedAll(s, woken.value, Notified); }
    case _ =>
  }

  /** Even then nobody is stranded: if a thread sleeps and no waiter is on its way, every record is
      in the hands of a live handle, and there are at least two. */
  lemma SleeperHasReleaser<R>(s: Pool<R>)
    requires Inv(s)
    ensures Sleeping(s) && Count(s.threads, Notified) == 0 ==>
              s.free == [] && |s.handles| == s.currentSize >= 2
  {
    Occupied(s.threads, Asleep);
  }

  // ---------------------------------------------------------------- whole runs

  ghost predicate Valid<R>(s: Pool<R>, es: seq<Event<R>>)
    decreases |es|
  {
    es == [] || (Enabled(s, es[0]) && Valid(Apply(s, es[0]), es[1..]))
  }

  ghost function After<R>(s: Pool<R>, es: seq<Event<R>>): Pool<R>
    requires Valid(s, es)
    decreases |es|
  {
    if es == [] then s else After(Apply(s, es[0]), es[1..])
  }

  lemma {:induction false} RunKeepsInv<R>(s: Pool<R>, es: seq<Event<R>>)
    requires Inv(s) && Valid(s, es)
    ensures Inv(After(s, es))
    ensures After(s, es).startSize == s.startSize && After(s, es).maxSize == s.maxSize
    decreases |es|
  {
    if es != [] {
      EventKeepsInv(s, es[0]);
      RunKeepsInv(Apply(s, es[0]), es[1..]);
    }
  }

  /** Safety over whole runs: sizes add up and stay bounded, the free chain and the live handles share
      out the records without overlap, and no free item is left behind while somebody sleeps. */
  lemma PoolIsSafe<R>(startArg: nat, maxArg: nat, es: seq<Event<R>>)
    requires Valid(Create<R>(startArg, maxArg), es)
    ensures var s := After(Create<R>(startArg, maxArg), es);
            && s.currentSize + Count(s.threads, Creating) == s.nextSize
            && s.nextSize <= Max(Max(2, startArg), maxArg)
            && s.currentSize == |s.records| == |s.free| + |s.handles|
            && s.inUseCount == |s.handles|
            && Distinct(s.free)
            && (forall r :: r in s.records ==> (r in s.free <==> r !in s.handles) && s.handles[r] <= 1)
            && (Sleeping(s) ==> |s.free| <= Count(s.threads, Notified))
  {
    CreateInv<R>(startArg, maxArg);
    RunKeepsInv(Create<R>(startArg, maxArg), es);
  }

  lemma ConsRun<R>(s: Pool<R>, e: Event<R>, es: seq<Event<R>>)
    requires Enabled(s, e) && Valid(Apply(s, e), es)
    ensures Valid(s, [e] + es) && After(s, [e] + es) == After(Apply(s, e), es)
  {
    assert ([e] + es)[1..] == es;
  }

  lemma GrownToTwo<R>(a: R, b: R)
    requires a != b
    ensures var s, es := Create<R>(2, 3), [Grow(a), Grow(b), Open];
            Valid(s, es) && After(s, es) == Pool(2, 3, true, [a, b], [b, a], {}, 0, 2, 2, map[], multiset{})
  {
    var s0 := Create<R>(2, 3);
    var s1 := Apply(s0, Grow(a));
    var s2 := Apply(s1, Grow(b));
    assert s2 == Pool(2, 3, false, [a, b], [b, a], {}, 0, 2, 2, map[], multiset{});
    var last: seq<Event<R>> := [Open] + [];
    ConsRun(s2, Event<R>.Open, []);
    ConsRun(s1, Grow(b), last);
    ConsRun(s0, Grow(a), [Grow(b)] + last);
    assert [Grow(a)] + ([Grow(b)] + last) == [Grow(a), Grow(b), Open];
  }

  lemma TwoTaken<R>(s: Pool<R>, a: R, b: R)
    requires s == Pool(2, 3, true, [a, b], [b, a], {}, 0, 2, 2, map[], multiset{})
    ensures var es := [Acquire(0), Acquire(1)];
            && Valid(s, es)
            && After(s, es) == Pool(2, 3, true, [a, b], [], {b, a}, 2, 2, 2, map[], multiset{b, a})
  {
    var s1 := Apply(s, Acquire(0));
    assert s1 == Pool(2, 3, true, [a, b], [a], {b}, 1, 2, 2, map[], multiset{b});
    var last: seq<Event<R>> := [Acquire(1)] + [];
    ConsRun(s1, Acquire(1), []);
    ConsRun(s, Acquire(0), last);
    assert [Acquire(0)] + last == [Acquire(0), Acquire(1)];
  }

  lemma ConstructionFails<R>(s: Pool<R>)
    requires s.open && s.free == [] && s.nextSize == 2 && s.maxSize == 3 && s.threads == map[]
    ensures var es := [Acquire(2), Acquire(3), CreateFailed(2)];
            && Valid(s, es) && After(s, es) == s.(threads := map[3 := Asleep])
  {
    var s1 := Apply(s, Acquire(2));
    assert s1 == s.(threads := map[2 := Creating], nextSize := 3);
    var s2 := Apply(s1, Acquire(3));
    assert s2 == s1.(threads := map[2 := Creating, 3 := Asleep]);
    assert Gone(s2, 2).threads == map[3 := Asleep];
    var last: seq<Event<R>> := [CreateFailed(2)] + [];
    ConsRun(s2, CreateFailed(2), []);
    ConsRun(s1, Acquire(3), last);
    ConsRun(s, Acquire(2), [Acquire(3)] + last);
    assert [Acquire(2)] + ([Acquire(3)] + last) == [Acquire(2), Acquire(3), CreateFailed(2)];
  }

  lemma FirstStep<R>(s: Pool<R>, es: seq<Event<R>>)
    requires es != [] && Valid(s, es)
    ensures Enabled(s, es[0]) && Valid(Apply(s, es[0]), es[1..])
    ensures After(s, es) == After(Apply(s, es[0]), es[1..])
  {
  }

  lemma Regrouped<E>(es: seq<E>, fs: seq<E>)
    requires es != []
    ensures [es[0]] + (es[1..] + fs) == es + fs
  {
  }

  lemma {:induction false} JoinedRuns<R>(s: Pool<R>, es: seq<Event<R>>, fs: seq<Event<R>>)
    requires Valid(s, es) && Valid(After(s, es), fs)
    ensures Valid(s, es + fs) && After(s, es + fs) == After(After(s, es), fs)
    decreases |es|
  {
    if es == [] {
      assert es + fs == fs;
    } else {
      FirstStep(s, es);
      JoinedRuns(Apply(s, es[0]), es[1..], fs);
      ConsRun(s, es[0], es[1..] + fs);
      Regrouped(es, fs);
    }
  }

  /** A run that shows it: two records are taken, a third is under construction, and a fourth thread
      waits. The construction fails, and the thread sleeps on although there is room for a record. */
  lemma FailureLeavesSleeper<R>(a: R, b: R)
    requires a != b
    ensures var s := Create<R>(2, 3);
            var es := [Grow(a), Grow(b), Open] + [Acquire(0), Acquire(1)] + [Acquire(2), Acquire(3), CreateFailed(2)];
            Valid(s, es) && After(s, es).threads == map[3 := Asleep] && !AsleepOnlyAtCapacity(After(s, es))
  {
    var s := Create<R>(2, 3);
    GrownToTwo(a, b);
    TwoTaken(After(s, [Grow(a), Grow(b), Open]), a, b);
    JoinedRuns(s, [Grow(a), Grow(b), Open], [Acquire(0), Acquire(1)]);
    var taken := [Grow(a), Grow(b), Open] + [Acquire(0), Acquire(1)];
    ConstructionFails(After(s, taken));
    JoinedRuns(s, taken, [Acquire(2), Acquire(3), CreateFailed(2)]);
    Occupied(map[3 := Asleep], Asleep);
  }

  // ---------------------------------------------------------------- everybody is served

  /** The steps left once nobody calls acquire, times out or wakes without reason. */
  predicate Internal<R>(e: Event<R>) {
    e.Wake? || e.Created? || e.CreateFailed? || e.Release?
  }

  ghost predicate Drained<R>(s: Pool<R>) {
    s.threads == map[] && s.handles == multiset{}
  }

  /** While somebody waits or holds an item, some internal step can be taken. */
  lemma SomebodyCanMove<R>(s: Pool<R>) returns (e: Event<R>)
    requires Inv(s) && !Drained(s)
    ensures Internal(e) && Enabled(s, e)
  {
    if s.handles != multiset{} {
      var r :| r in s.handles;
      if Sleeping(s) {
        var w :| w in Where(s.threads, Asleep);
        e := Release(r, Some(w));
      } else {
        e := Release(r, None);
      }
    } else {
      var t :| t in s.threads.Keys;
      Occupied(s.threads, Asleep);
      Occupied(s.threads, Notified);
      SleeperHasReleaser(s);
      if s.threads[t] == Creating {
        e := CreateFailed(t);
      } else {
        var w :| w in s.threads && s.threads[w] == Notified;
        e := Wake(w);
      }
    }
  }

  ghost predicate Descends<R>(s: Pool<R>, t: Pool<R>) {
    var x, y := 2 * |s.threads| + |s.handles|, 2 * |t.threads| + |t.handles|;
    y < x || (y == x && Count(t.threads, Notified) < Count(s.threads, Notified))
  }

  lemma InternalStepDescends<R>(s: Pool<R>, e: Event<R>)
    requires Inv(s) && Internal(e) && Enabled(s, e)
    ensures Descends(s, Apply(s, e))
  {
    var t := Apply(s, e);
    match e
    case Release(r, woken) =>
      if woken.Some? {
        assert t.threads.Keys == s.threads.Keys;
        assert |t.threads.Keys| == |s.threads.Keys|;
      }
    case Wake(w) =>
      MovedAll(s, w, Asleep);
      if s.free == [] {
        assert t.threads.Keys == s.threads.Keys;
        assert |t.threads.Keys| == |s.threads.Keys|;
      } else {
        LeaveShrinks(s, w);
      }
    case Created(w, _) => LeaveShrinks(s, w);
    case CreateFailed(w) => LeaveShrinks(s, w);
  }

  lemma LeaveShrinks<R>(s: Pool<R>, w: Thread)
    requires w in s.threads
    ensures |Gone(s, w).threads| == |s.threads| - 1
  {
    assert Gone(s, w).threads.Keys == s.threads.Keys - {w};
    assert |Gone(s, w).threads.Keys| == |s.threads.Keys| - 1;
  }

  ghost predicate InternalStep<R(!new)>(s: Pool<R>, t: Pool<R>) {
    exists e :: Internal(e) && Enabled(s, e) && t == Apply(s, e)
  }

  lemma InternalStepEffect<R(!new)>(s: Pool<R>, t: Pool<R>)
    requires Inv(s) && InternalStep(s, t)
    ensures Inv(t) && Descends(s, t)
  {
    var e :| Internal(e) && Enabled(s, e) && t == Apply(s, e);
    InternalStepDescends(s, e);
    EventKeepsInv(s, e);
  }

  /** In the schedule `f`, state `k` is drained or is followed by one step from it. */
  ghost predicate Follows<R(!new)>(f: nat -> Pool<R>, k: nat) {
    !Drained(f(k)) ==> InternalStep(f(k), f(k + 1))
  }

  lemma FollowsEffect<R(!new)>(f: nat -> Pool<R>, k: nat)
    requires Inv(f(k)) && Follows(f, k) && !Drained(f(k))
    ensures Inv(f(k + 1))
    ensures var s, t := f(k), f(k + 1);
            var x, y := 2 * |s.threads| + |s.handles|, 2 * |t.threads| + |t.handles|;
            y < x || (y == x && Count(t.threads, Notified) < Count(s.threads, Notified))
  {
    InternalStepEffect(f(k), f(k + 1));
  }

  /** If every holder eventually releases, then every waiting acquire is served, in any schedule. */
  lemma {:induction false} PoolDrains<R(!new)>(f: nat -> Pool<R>, i: nat) returns (k: nat)
    requires Inv(f(i))
    requires forall j: nat :: j >= i ==> Follows(f, j)
    ensures k >= i && Drained(f(k))
    decreases 2 * |f(i).threads| + |f(i).handles|, Count(f(i).threads, Notified)
  {
    if Drained(f(i)) {
      k := i;
    } else {
      assert Follows(f, i);
      FollowsEffect(f, i);
      k := PoolDrains(f, i + 1);
    }
  }
}
