/** The pool class with its linked item records: every critical section performs its protocol event. */
module Pool {
  import P = PoolProtocol
  import opened Census
  import opened Common
  import opened Wrappers

  class ItemRec<Item> {
    const data: Item
    var next: ItemRec?<Item>
    var in_use: bool

    constructor (item: Item)
      ensures data == item && next == null && !in_use
    {
      data, next, in_use := item, null, false;
    }
  }

  /** Following `next` from `head` visits exactly the records of `q`, in order, and then ends. */
  ghost predicate Chain<Item>(head: ItemRec?<Item>, q: seq<ItemRec<Item>>)
    reads q
    decreases |q|
  {
    if q == [] then head == null else head == q[0] && Chain(q[0].next, q[1..])
  }

  /** How the first critical section of acquire ends. */
  datatype Outcome<Item> = Got(rec: ItemRec<Item>) | MustCreate | MustWait

  class Pool<Item> {
    const start_size: nat
    const max_size: nat
    var current_size: nat
    var next_current_size: nat
    var in_use_count: nat
    var top: ItemRec?<Item>
    var pool_data: seq<ItemRec<Item>>

    ghost var open: bool
    ghost var free: seq<ItemRec<Item>>
    ghost var inUse: set<ItemRec<Item>>
    ghost var threads: map<P.Thread, P.Phase>
    ghost var handles: multiset<ItemRec<Item>>

    ghost function View(): P.Pool<ItemRec<Item>>
      reads this
    {
      P.Pool(start_size, max_size, open, pool_data, free, inUse, in_use_count, current_size,
             next_current_size, threads, handles)
    }

    /** The chain from `top` visits exactly the records of `free`, in order, and ends; the flags
        mark exactly the records in use, and those are off the chain. */
    ghost predicate Chained()
      reads this, pool_data, free
    {
      && (forall r :: r in free ==> r in pool_data)
      && Chain(top, free)
      && (forall r :: r in pool_data ==> (r.in_use <==> r in inUse))
      && (forall r :: r in pool_data && r.in_use ==> r.next == null)
    }

    ghost predicate Valid()
      reads this, pool_data, free
    {
      P.Inv(View()) && Chained()
    }

    constructor (startArg: nat, maxArg: nat)
      ensures Valid() && View() == P.Create(startArg, maxArg)
    {
      start_size, max_size := P.Max(2, startArg), P.Max(startArg, maxArg);
      current_size, next_current_size, in_use_count := 0, 0, 0;
      top, pool_data := null, [];
      open, free, inUse, threads, handles := false, [], {}, map[], multiset{};
      P.CreateInv<ItemRec<Item>>(startArg, maxArg);
    }

    /** Appends a new record and puts it on top of the free chain. */
    method PushNew(item: Item) returns (rec: ItemRec<Item>)
      requires Chained() && forall r :: r in inUse ==> r in pool_data
      modifies this`pool_data, this`top, this`current_size, this`free
      ensures fresh(rec) && rec !in old(pool_data) && rec.data == item
      ensures Chained() && View() == P.Push(old(View()), rec)
    {
      rec := new ItemRec(item);
      assert rec !in pool_data && rec !in inUse;
      pool_data := pool_data + [rec];
      rec.next := top;
      top := rec;
      current_size := current_size + 1;
      free := [rec] + free;
    }

    /** A new record for which the place is reserved at once. */
    method PushReserved(item: Item) returns (rec: ItemRec<Item>)
      requires Chained() && forall r :: r in inUse ==> r in pool_data
      modifies this
      ensures fresh(rec) && rec !in old(pool_data) && rec.data == item && Chained()
      ensures View() == P.Push(old(View()), rec).(nextSize := old(next_current_size) + 1)
    {
      next_current_size := next_current_size + 1;
      rec := PushNew(item);
    }

    method Grow(item: Item) returns (rec: ItemRec<Item>)
      requires Valid() && !open && |pool_data| < start_size
      modifies this
      ensures Valid() && fresh(rec) && rec !in old(pool_data) && rec.data == item
      ensures View() == P.Apply(old(View()), P.Grow(rec))
    {
      rec := PushReserved(item);
      P.GrownKeepsInv(old(View()), rec);
    }

    /** Sequential initialisation; `items` are what the item factory returns, in order. */
    method Init(items: seq<Item>)
      requires Valid() && !open && pool_data == [] && |items| == start_size
      modifies this
      ensures Valid() && open && |pool_data| == |free| == start_size
    {
      for i := 0 to start_size
        invariant Valid() && !open && |pool_data| == i
        invariant forall r :: r in pool_data ==> fresh(r)
        invariant handles == old(handles) && inUse == old(inUse)
      {
        var _ := Grow(items[i]);
      }
      P.EventKeepsInv(View(), P.Event.Open);
      open := true;
    }

    method FetchTop() returns (rec: ItemRec<Item>)
      requires Chained() && free != [] && Distinct(free) && free[0] !in inUse
      modifies this`top, this`free, this`inUse, this`handles, this`in_use_count, pool_data
      ensures Chained() && View() == P.FetchTop(old(View())) && rec == old(free[0])
      ensures rec.next == null && rec.in_use
    {
      rec := Unlink();
      in_use_count := in_use_count + 1;
      handles := handles + multiset{rec};
    }

    /** Takes the top record off the chain and marks it. */
    method Unlink() returns (rec: ItemRec<Item>)
      requires Chained() && free != [] && Distinct(free) && free[0] !in inUse
      modifies this`top, this`free, this`inUse, pool_data
      ensures Chained() && rec == old(free[0]) && rec.next == null && rec.in_use
      ensures free == old(free)[1..] && inUse == old(inUse) + {rec}
    {
      rec := top;
      assert rec in free && rec in pool_data;
      assert rec !in free[1..];
      top := top.next;
      rec.next := null;
      rec.in_use := true;
      assert Chain(top, free[1..]);
      free, inUse := free[1..], inUse + {rec};
    }

    /** FetchTop by a thread that was waiting. */
    method FetchAndLeave(ghost t: P.Thread) returns (rec: ItemRec<Item>)
      requires Chained() && free != [] && Distinct(free) && free[0] !in inUse
      modifies this`top, this`free, this`inUse, this`handles, this`in_use_count, this`threads, pool_data
      ensures Chained() && View() == P.FetchTop(P.Gone(old(View()), t)) && rec == old(free[0])
    {
      rec := FetchTop();
      threads := threads - {t};
    }

    /** acquire up to its return, its release of the mutex, or its wait. */
    method EnterAcquire(ghost t: P.Thread) returns (r: Outcome<Item>)
      requires Valid() && P.Enabled(View(), P.Acquire(t))
      modifies this, pool_data
      ensures Valid() && View() == P.Apply(old(View()), P.Acquire(t))
      ensures P.Served(old(View()), P.Acquire(t)) == if r.Got? then Some(r.rec) else None
      ensures r.MustWait? <==> t in threads && threads[t] == P.Asleep
      ensures r.MustCreate? <==> t in threads && threads[t] == P.Creating
    {
      P.EventKeepsInv(View(), P.Acquire(t));
      if top != null {
        var rec := FetchTop();
        r := Got(rec);
      } else if next_current_size < max_size {
        next_current_size := next_current_size + 1;
        threads := threads[t := P.Creating];
        r := MustCreate;
      } else {
        threads := threads[t := P.Asleep];
        r := MustWait;
      }
    }

    /** A new record goes onto the free chain and straight off again, into the hands of its creator. */
    method PushAndFetch(ghost t: P.Thread, item: Item) returns (rec: ItemRec<Item>)
      requires Chained() && Distinct(free)
      requires forall r :: r in inUse || r in free ==> r in pool_data
      modifies this`pool_data, this`top, this`current_size, this`free, this`inUse, this`handles,
               this`in_use_count, this`threads, pool_data
      ensures Chained() && fresh(rec) && rec !in old(pool_data) && rec.data == item
      ensures View() == P.FetchTop(P.Push(P.Gone(old(View()), t), rec))
    {
      var pushed := PushNew(item);
      rec := FetchAndLeave(t);
    }

    /** acquire after the item factory has returned. */
    method FinishCreate(ghost t: P.Thread, item: Item) returns (rec: ItemRec<Item>)
      requires Valid() && t in threads && threads[t] == P.Creating
      modifies this, pool_data
      ensures Valid() && fresh(rec) && rec !in old(pool_data) && rec.data == item
      ensures View() == P.Apply(old(View()), P.Created(t, rec))
    {
      rec := PushAndFetch(t, item);
      P.EventKeepsInv(old(View()), P.Created(t, rec));
    }

    /** acquire after the item factory has thrown. */
    method AbandonCreate(ghost t: P.Thread)
      requires Valid() && P.Enabled(View(), P.CreateFailed(t))
      modifies this
      ensures Valid() && View() == P.Apply(old(View()), P.CreateFailed(t))
    {
      P.EventKeepsInv(View(), P.CreateFailed(t));
      Occupied(threads, P.Creating);
      next_current_size := next_current_size - 1;
      threads := threads - {t};
    }

    /** acquire from a wakeup to its return or its next wait. */
    method WakeInAcquire(ghost t: P.Thread) returns (r: Option<ItemRec<Item>>)
      requires Valid() && P.Enabled(View(), P.Wake(t))
      modifies this, pool_data
      ensures Valid() && View() == P.Apply(old(View()), P.Wake(t)) && r == P.Served(old(View()), P.Wake(t))
    {
      P.EventKeepsInv(View(), P.Wake(t));
      if top != null {
        var rec := FetchAndLeave(t);
        r := Some(rec);
      } else {
        threads := threads[t := P.Asleep];
        r := None;
      }
    }

    /** acquire from the expiry of its timeout; `None` is the timeout exception. */
    method TimeoutInAcquire(ghost t: P.Thread) returns (r: Option<ItemRec<Item>>)
      requires Valid() && P.Enabled(View(), P.TimedOut(t))
      modifies this, pool_data
      ensures Valid() && View() == P.Apply(old(View()), P.TimedOut(t)) && r == P.Served(old(View()), P.TimedOut(t))
    {
      P.EventKeepsInv(View(), P.TimedOut(t));
      if top != null {
        var rec := FetchAndLeave(t);
        r := Some(rec);
      } else {
        threads := threads - {t};
        r := None;
      }
    }

    /** release, called once by each live handle. */
    method Release(rec: ItemRec<Item>) returns (ghost woken: Option<P.Thread>)
      requires Valid() && rec in handles
      modifies this, pool_data
      ensures Valid() && P.Enabled(old(View()), P.Release(rec, woken))
      ensures View() == P.Apply(old(View()), P.Release(rec, woken))
      ensures top == rec
    {
      P.InHand(View(), rec);
      PutBack(rec);
      woken := NotifyOne();
      P.ReturnedKeepsInv(old(View()), rec, woken);
    }

    ghost method NotifyOne() returns (woken: Option<P.Thread>)
      modifies this`threads
      ensures if P.Sleeping(old(View())) then woken.Some? && woken.value in Where(old(threads), P.Asleep)
              else woken.None?
      ensures View() == P.Woken(old(View()), woken)
    {
      woken := None;
      var sleepers := Where(threads, P.Asleep);
      if sleepers != {} {
        var w :| w in sleepers;
        woken := Some(w);
        threads := threads[w := P.Notified];
      }
    }

    /** The part of release that links the record back and clears its flag. */
    method PutBack(rec: ItemRec<Item>)
      requires Chained() && in_use_count > 0 && rec in inUse && rec in pool_data && rec !in free
      modifies this`top, this`in_use_count, this`free, this`inUse, this`handles, rec
      ensures Chained() && top == rec
      ensures View() == P.Returned(old(View()), rec)
    {
      rec.next := top;
      rec.in_use := false;
      top := rec;
      in_use_count := in_use_count - 1;
      free, inUse, handles := [rec] + free, inUse - {rec}, handles - multiset{rec};
      assert free[1..] == old(free);
    }
  }
}
