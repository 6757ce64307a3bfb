/** The sharded cache: a list and a hash index in each shard, changed in place. */
module Cache {
  import opened CacheModel
  import opened Wrappers

  class Entry<K, V> {
    const key: K
    const value: V
    const size: nat
    var hits: nat

    constructor (key: K, value: V, size: nat)
      ensures this.key == key && this.value == value && this.size == size && hits == 0
    {
      this.key, this.value, this.size := key, value, size;
      hits := 0;
    }

    ghost function Item(): Item<K, V>
    {
      CacheModel.Item(key, value, size)
    }
  }

  // ---------------------------------------------------------------- the list and its index

  /** No key occurs in two entries. */
  predicate DistinctEntries<K(==), V>(list: seq<Entry<K, V>>) {
    forall i, j :: 0 <= i < j < |list| ==> list[i].key != list[j].key
  }

  /** The index that leads to every entry of the list by its key, and nowhere else. */
  ghost function IndexOf<K, V>(list: seq<Entry<K, V>>): map<K, Entry<K, V>> {
    if list == [] then map[]
    else
      var last := list[|list| - 1];
      IndexOf(list[..|list| - 1])[last.key := last]
  }

  ghost function ItemsOf<K, V>(list: seq<Entry<K, V>>): (items: seq<Item<K, V>>)
    ensures |items| == |list| && forall i :: 0 <= i < |list| ==> items[i] == list[i].Item()
  {
    if list == [] then [] else ItemsOf(list[..|list| - 1]) + [list[|list| - 1].Item()]
  }

  lemma {:induction false} IndexHolds<K, V>(list: seq<Entry<K, V>>)
    requires DistinctEntries(list)
    ensures |IndexOf(list)| == |list|
    ensures forall i :: 0 <= i < |list| ==> list[i].key in IndexOf(list) && IndexOf(list)[list[i].key] == list[i]
    ensures forall k :: k in IndexOf(list) ==> IndexOf(list)[k] in list && IndexOf(list)[k].key == k
  {
    if list != [] {
      var rest, last := list[..|list| - 1], list[|list| - 1];
      IndexHolds(rest);
      assert list == rest + [last];
      assert forall i :: 0 <= i < |rest| ==> rest[i] == list[i];
      assert last.key !in IndexOf(rest);
      assert IndexOf(list).Keys == IndexOf(rest).Keys + {last.key};
    }
  }

  lemma IndexSize<K, V>(list: seq<Entry<K, V>>)
    requires DistinctEntries(list)
    ensures |IndexOf(list)| == |list|
  {
    IndexHolds(list);
  }

  lemma DistinctWithout<K, V>(list: seq<Entry<K, V>>, i: nat)
    requires DistinctEntries(list) && i < |list|
    ensures DistinctEntries(Without(list, i))
    ensures forall e :: e in Without(list, i) ==> e in list && e.key != list[i].key
  {
    var rest := Without(list, i);
    assert forall k :: 0 <= k < |rest| ==> rest[k] == list[if k < i then k else k + 1];
  }

  lemma IndexOfWithout<K, V>(list: seq<Entry<K, V>>, i: nat)
    requires i < |list| - 1
    ensures var n := |list| - 1;
            IndexOf(Without(list, i)) == IndexOf(Without(list[..n], i))[list[n].key := list[n]]
  {
    WithoutFromFront(list, i);
  }

  lemma RemoveAndUpdate<A, B>(m: map<A, B>, gone: A, key: A, value: B)
    requires gone != key
    ensures (m - {gone})[key := value] == m[key := value] - {gone}
  {
  }

  lemma LastGone<K, V>(list: seq<Entry<K, V>>)
    requires DistinctEntries(list) && list != []
    ensures var n := |list| - 1; IndexOf(Without(list, n)) == IndexOf(list) - {list[n].key}
  {
    var rest, last := list[..|list| - 1], list[|list| - 1];
    assert Without(list, |list| - 1) == rest;
    IndexHolds(rest);
    assert last.key !in IndexOf(rest);
  }

  lemma {:induction false} IndexWithout<K, V>(list: seq<Entry<K, V>>, i: nat)
    requires DistinctEntries(list) && i < |list|
    ensures IndexOf(Without(list, i)) == IndexOf(list) - {list[i].key}
  {
    if i == |list| - 1 {
      LastGone(list);
    } else {
      var rest, last := list[..|list| - 1], list[|list| - 1];
      IndexWithout(rest, i);
      IndexOfWithout(list, i);
      RemoveAndUpdate(IndexOf(rest), list[i].key, last.key, last);
    }
  }

  lemma IndexWith<K, V>(list: seq<Entry<K, V>>, e: Entry<K, V>)
    requires DistinctEntries(list) && e.key !in IndexOf(list)
    ensures DistinctEntries(list + [e]) && IndexOf(list + [e]) == IndexOf(list)[e.key := e]
  {
    IndexHolds(list);
    assert (list + [e])[..|list|] == list;
  }

  lemma {:induction false} ItemsWithout<K, V>(list: seq<Entry<K, V>>, i: nat)
    requires i < |list|
    ensures ItemsOf(Without(list, i)) == Without(ItemsOf(list), i)
  {
    var rest := list[..|list| - 1];
    if i == |list| - 1 {
      assert Without(list, i) == rest;
      assert Without(ItemsOf(list), i) == ItemsOf(rest);
    } else {
      ItemsWithout(rest, i);
      WithoutFromFront(list, i);
      WithoutFromFront(ItemsOf(list), i);
      assert ItemsOf(list)[..|list| - 1] == ItemsOf(rest);
    }
  }

  lemma WithoutFromFront<T>(s: seq<T>, i: nat)
    requires i < |s| - 1
    ensures var n := |s| - 1;
            Without(s, i) == Without(s[..n], i) + [s[n]] && Without(s, i)[..n - 1] == Without(s[..n], i)
  {
  }

  lemma FrontGone<K, V>(list: seq<Entry<K, V>>)
    requires DistinctEntries(list) && list != []
    ensures DistinctEntries(list[1..]) && IndexOf(list[1..]) == IndexOf(list) - {list[0].key}
    ensures ItemsOf(list[1..]) == ItemsOf(list)[1..]
  {
    DistinctWithout(list, 0);
    IndexWithout(list, 0);
    ItemsWithout(list, 0);
    assert Without(list, 0) == list[1..];
    assert Without(ItemsOf(list), 0) == ItemsOf(list)[1..];
  }

  lemma ItemsAreDistinct<K, V>(list: seq<Entry<K, V>>)
    requires DistinctEntries(list)
    ensures DistinctKeys(ItemsOf(list))
  {
  }

  lemma RemoveAndAdd<A, B>(m: map<A, B>, key: A)
    requires key in m
    ensures (m - {key})[key := m[key]] == m
  {
  }

  lemma SpliceKeepsIndex<K, V>(list: seq<Entry<K, V>>, i: nat)
    requires DistinctEntries(list) && i < |list|
    ensures DistinctEntries(MovedToBack(list, i)) && IndexOf(MovedToBack(list, i)) == IndexOf(list)
  {
    DistinctWithout(list, i);
    PositionIs(list, list[i].key, i);
    IndexWithout(list, i);
    RemoveAndAdd(IndexOf(list), list[i].key);
    IndexWith(Without(list, i), list[i]);
  }

  lemma SpliceMovesItem<K, V>(list: seq<Entry<K, V>>, i: nat)
    requires i < |list|
    ensures ItemsOf(MovedToBack(list, i)) == MovedToBack(ItemsOf(list), i)
  {
    ItemsWithout(list, i);
    assert (Without(list, i) + [list[i]])[..|list| - 1] == Without(list, i);
  }

  lemma SpliceKeepsTotal<K, V>(items: seq<Item<K, V>>, i: nat)
    requires i < |items|
    ensures Total(MovedToBack(items, i)) == Total(items)
  {
    TotalWithout(items, i);
    TotalOfConcat(Without(items, i), [items[i]]);
  }

  lemma HeldIff<K, V>(list: seq<Entry<K, V>>, key: K)
    requires DistinctEntries(list)
    ensures key in IndexOf(list) <==> Has(ItemsOf(list), key)
  {
    IndexHolds(list);
    var items := ItemsOf(list);
    if key in IndexOf(list) {
      var i :| 0 <= i < |list| && list[i] == IndexOf(list)[key];
      assert items[i].key == key;
    }
  }

  /** Where the index points is where the model finds the key. */
  lemma PositionIs<K, V>(list: seq<Entry<K, V>>, key: K, i: nat)
    requires DistinctEntries(list) && i < |list| && list[i].key == key
    ensures Index(ItemsOf(list), key) == i && key in IndexOf(list) && IndexOf(list)[key] == list[i]
  {
    IndexHolds(list);
    var items := ItemsOf(list);
    assert items[i].key == key && Has(items, key);
  }

  class Shard<K(==), V> {
    /** Least recently used first. */
    var list: seq<Entry<K, V>>
    var index: map<K, Entry<K, V>>
    var size: nat
    var insertCount: nat
    var evictionCount: nat
    var hitCount: nat
    var missCount: nat

    ghost var model: CacheModel.Shard<K, V>

    ghost predicate Valid()
      reads this
    {
      Linked() && size == Total(model.items) && Counted()
    }

    /** The list, the index and the model agree with each other. */
    ghost predicate Linked()
      reads this
    {
      && DistinctEntries(list)
      && index == IndexOf(list)
      && model.items == ItemsOf(list)
    }

    ghost predicate Counted()
      reads this
    {
      (insertCount, evictionCount, hitCount, missCount) == (model.inserts, model.evictions, model.hits, model.misses)
    }

    constructor ()
      ensures Valid() && model == EmptyShard()
    {
      list, index := [], map[];
      size, insertCount, evictionCount, hitCount, missCount := 0, 0, 0, 0, 0;
      model := EmptyShard();
    }

    lemma IndexHasModelKeys(key: K)
      requires Linked()
      ensures key in index <==> Has(model.items, key)
      ensures |index| == |model.items| == |list|
    {
      HeldIff(list, key);
      IndexHolds(list);
    }

    /** Removes the least recently used entry, and gives its key and value. */
    method EvictOne() returns (evicted: (K, V))
      requires Linked() && list != [] && size >= Total(model.items)
      modifies this`list, this`index, this`size, this`model
      ensures Linked() && old(model.items) != [] && model == old(model).(items := old(model.items)[1..])
      ensures size == old(size) - old(model.items)[0].size
      ensures evicted == (old(model.items)[0].key, old(model.items)[0].value)
    {
      evicted := (list[0].key, list[0].value);
      FrontGone(list);
      size := size - list[0].size;
      index := index - {list[0].key};
      list := list[1..];
      model := model.(items := model.items[1..]);
    }

    /** Evicts one more of the items that were there at first, `n` of which have gone. */
    method EvictNext(ghost items: seq<Item<K, V>>, ghost n: nat, ghost need: nat, ghost max: nat)
      returns (evicted: (K, V))
      requires Linked() && list != [] && size == Total(model.items) + need > max
      requires n < |items| && model.items == items[n..]
      modifies this`list, this`index, this`size, this`model
      ensures Linked() && size == Total(model.items) + need
      ensures model == old(model).(items := items[n + 1..])
      ensures Kept(items[n..], need, max) == Kept(items[n + 1..], need, max)
      ensures Pairs(items[..n + 1]) == Pairs(items[..n]) + [evicted]
    {
      EvictsFirst(items, n, need, max);
      evicted := EvictOne();
    }

    /** Drops least recently used entries until the shard is within its capacity, when `need` has
        already been added to its size. */
    method EvictLRU(max: nat, ghost need: nat) returns (evicted: seq<(K, V)>)
      requires Linked() && size == Total(model.items) + need
      modifies this`list, this`index, this`size, this`model
      ensures Linked() && size == Total(model.items) + need
      ensures model == old(model).(items := Kept(old(model.items), need, max))
      ensures evicted == EvictedBy(old(model), need, max)
    {
      evicted := [];
      ghost var items := model.items;
      EvictsNone(items);
      while size > max && list != []
        invariant Linked() && size == Total(model.items) + need
        invariant |evicted| <= |items| && model == old(model).(items := items[|evicted|..])
        invariant Kept(items, need, max) == Kept(items[|evicted|..], need, max)
        invariant evicted == Pairs(items[..|evicted|])
        decreases |items| - |evicted|
      {
        var e := EvictNext(items, |evicted|, need, max);
        evicted := evicted + [e];
      }
      EvictsNoMore(old(model), |evicted|, need, max);
    }

    /** Puts a new entry at the most recently used end. */
    method PushBack(key: K, value: V, valueSize: nat)
      requires Linked() && key !in index
      modifies this`list, this`index, this`model
      ensures Linked()
      ensures model == old(model).(items := old(model.items) + [Item(key, value, valueSize)])
    {
      var e := new Entry(key, value, valueSize);
      IndexWith(list, e);
      assert (list + [e])[..|list|] == list;
      list := list + [e];
      index := index[key := e];
      model := model.(items := model.items + [Item(key, value, valueSize)]);
    }

    /** The position in the list of the entry that the index points at. */
    method Position(key: K) returns (i: nat)
      requires Linked() && key in index
      ensures i < |list| && i < |model.items| && list[i] == index[key]
      ensures i == Index(model.items, key) && list[i].Item() == model.items[i]
    {
      IndexHolds(list);
      i :| 0 <= i < |list| && list[i] == index[key];
      PositionIs(list, key, i);
    }

    /** Takes the entry at a position out of the list and the index. */
    method Erase(i: nat)
      requires Linked() && i < |list| && i < |model.items|
      modifies this`list, this`index, this`model
      ensures Linked() && model == old(model).(items := Without(old(model.items), i))
    {
      DistinctWithout(list, i);
      IndexWithout(list, i);
      ItemsWithout(list, i);
      index := index - {list[i].key};
      list := Without(list, i);
      model := model.(items := Without(model.items, i));
    }

    /** Adds the size of a new value, and evicts what does not fit any more. */
    method MakeRoom(valueSize: nat, max: nat) returns (evicted: seq<(K, V)>)
      requires Valid()
      modifies this`list, this`index, this`size, this`evictionCount, this`model
      ensures Linked() && size == Total(model.items) + valueSize && Counted()
      ensures model == RoomMade(old(model), valueSize, max)
      ensures evicted == EvictedBy(old(model), valueSize, max)
    {
      IndexSize(list);
      var mapSizeBefore := |index|;
      size := size + valueSize;
      evicted := EvictLRU(max, valueSize);
      IndexSize(list);
      CountEvictions(mapSizeBefore - |index|);
    }

    method CountEvictions(n: nat)
      requires Linked() && Counted()
      modifies this`evictionCount, this`model
      ensures Linked() && Counted() && model == old(model).(evictions := old(model.evictions) + n)
    {
      evictionCount := evictionCount + n;
      model := model.(evictions := evictionCount);
    }

    /** Room is made for the new value, and it is stored. */
    method Store(key: K, value: V, valueSize: nat, max: nat) returns (evicted: seq<(K, V)>)
      requires Valid() && !Has(model.items, key) && valueSize <= max
      modifies this
      ensures Valid()
      ensures model == Append(old(model), key, value, valueSize, max)
      ensures evicted == EvictedBy(old(model), valueSize, max)
    {
      KeptHasNoMore(model.items, valueSize, max, key);
      evicted := MakeRoom(valueSize, max);
      IndexHasModelKeys(key);
      Enter(key, value, valueSize);
    }

    /** Stores a value for which there is room, and counts it. */
    method Enter(key: K, value: V, valueSize: nat)
      requires Linked() && Counted() && key !in index && size == Total(model.items) + valueSize
      modifies this`list, this`index, this`insertCount, this`model
      ensures Valid()
      ensures model == old(model).(items := old(model.items) + [Item(key, value, valueSize)],
                                   inserts := old(model.inserts) + 1)
    {
      TotalOfConcat(model.items, [Item(key, value, valueSize)]);
      insertCount := insertCount + 1;
      model := model.(inserts := insertCount);
      PushBack(key, value, valueSize);
    }

    method Insert(key: K, value: V, valueSize: nat, max: nat) returns (ok: bool, evicted: seq<(K, V)>)
      requires Valid()
      modifies this
      ensures Valid()
      ensures (model, ok) == CacheModel.Insert(old(model), key, value, valueSize, max)
      ensures evicted == if ok then EvictedBy(old(model), valueSize, max) else []
    {
      IndexHasModelKeys(key);
      ok, evicted := false, [];
      if key in index || valueSize > max {
        return;
      }
      evicted := Store(key, value, valueSize, max);
      ok := true;
    }

    lemma DropFacts(s: CacheModel.Shard<K, V>, key: K, i: nat)
      requires DistinctKeys(s.items) && i == Index(s.items, key) < |s.items|
      ensures Total(Without(s.items, i)) == Total(s.items) - s.items[i].size
      ensures !Has(Without(s.items, i), key)
      ensures Dropped(s, key) == s.(items := Without(s.items, i), replaced := s.replaced + 1)
    {
      TotalWithout(s.items, i);
      WithoutKey(s.items, i);
    }

    /** Removes the old entry without counting it as an eviction. */
    method Drop(key: K)
      requires Valid() && key in index
      modifies this`size, this`list, this`index, this`model
      ensures Valid() && !Has(model.items, key) && model == Dropped(old(model), key)
    {
      var i := Position(key);
      ghost var rest := Without(model.items, i);
      ItemsAreDistinct(list);
      DropFacts(model, key, i);
      size := size - index[key].size;
      model := model.(replaced := model.replaced + 1);
      Erase(i);
      assert model.items == rest;
    }

    method Upsert(key: K, value: V, valueSize: nat, max: nat) returns (ok: bool)
      requires Valid()
      modifies this
      ensures Valid()
      ensures (model, ok) == CacheModel.Upsert(old(model), key, value, valueSize, max)
    {
      IndexHasModelKeys(key);
      if key in index {
        Drop(key);
      }
      if valueSize > max {
        return false;
      }
      var evicted := Store(key, value, valueSize, max);
      ok := true;
    }

    /** Moves an entry to the most recently used end. */
    method Splice(i: nat)
      requires Valid() && i < |list| && i < |model.items|
      modifies this`list, this`model
      ensures Valid() && list == MovedToBack(old(list), i)
      ensures model == old(model).(items := MovedToBack(old(model.items), i))
    {
      SpliceKeepsIndex(list, i);
      SpliceMovesItem(list, i);
      SpliceKeepsTotal(model.items, i);
      list := MovedToBack(list, i);
      model := model.(items := MovedToBack(model.items, i));
    }

    method CountHit()
      requires Valid()
      modifies this`hitCount, this`model
      ensures Valid() && model == old(model).(hits := old(model.hits) + 1)
    {
      hitCount := hitCount + 1;
      model := model.(hits := hitCount);
    }

    method CountMiss()
      requires Valid()
      modifies this`missCount, this`model
      ensures Valid() && model == old(model).(misses := old(model.misses) + 1)
    {
      missCount := missCount + 1;
      model := model.(misses := missCount);
    }

    /** An entry that is already the most recently used one stays where it is, any other one is moved.
        Only the hit count of the entry found changes, and it is reported. */
    method Find(key: K) returns (found: Option<V>, hits: nat)
      requires Valid()
      modifies this, set e | e in list && e.key == key
      ensures Valid()
      ensures var (s, item) := CacheModel.Find(old(model), key);
              && model == s
              && found == (if item.Some? then Some(item.value.value) else None)
      ensures found.Some? ==> key in old(index) && old(index)[key].hits == hits == old(index[key].hits) + 1
    {
      IndexHasModelKeys(key);
      hits := 0;
      if key !in index {
        CountMiss();
        return None, 0;
      }
      var i := Position(key);
      var e: Entry<K, V> := list[i];
      Touch(key, i);
      e.hits := e.hits + 1;
      hits := e.hits;
      found := Some(e.value);
    }

    method Touch(key: K, i: nat)
      requires Valid() && Has(model.items, key) && i == Index(model.items, key) && i < |list|
      modifies this`list, this`hitCount, this`model
      ensures Valid() && model == CacheModel.Find(old(model), key).0
    {
      HitIsMove(model, key);
      if i + 1 == |list| {
        CountHit();
      } else {
        Splice(i);
        CountHit();
      }
    }

    method Clear()
      requires Valid()
      modifies this`list, this`index, this`size, this`model
      ensures Valid() && model == Cleared(old(model))
    {
      list, index, size := [], map[], 0;
      model := Cleared(model);
    }

    /** Evicts what does not fit into a new capacity. */
    method Shrink(max: nat) returns (evicted: seq<(K, V)>)
      requires Valid()
      modifies this`list, this`index, this`size, this`evictionCount, this`model
      ensures Valid() && model == Resized(old(model), max)
      ensures evicted == EvictedBy(old(model), 0, max)
    {
      evicted := MakeRoom(0, max);
    }
  }

  class Cache<K(==), V> {
    const hash: K -> nat
    const sizeOf: V -> nat
    const shards: seq<Shard<K, V>>
    var itsMaxSizePerShard: nat

    /** The value of the cache: that of its shards. */
    ghost var models: seq<CacheModel.Shard<K, V>>

    function GetShardIndex(key: K): (i: nat)
      requires |shards| > 0
      ensures i < |shards|
    {
      ShardOf(hash(key), |shards|)
    }

    ghost predicate ShardsValid()
      reads this, shards
    {
      && |models| == |shards|
      && (forall j, k :: 0 <= j < k < |shards| ==> shards[j] != shards[k])
      && (forall j :: 0 <= j < |shards| ==> shards[j].Valid() && shards[j].model == models[j])
    }

    /** The values of the shards, if they are as these say. */
    ghost function State(): Option<seq<CacheModel.Shard<K, V>>>
      reads this, shards
    {
      if ShardsValid() then Some(models) else None
    }

    /** The shards are as their values say; each value is sound, and holds only keys that belong to it. */
    ghost predicate Valid()
      reads this, shards
    {
      ShardsValid() && InPlace(models, itsMaxSizePerShard, hash)
    }

    constructor (maxSize: nat, numShards: nat, hash: K -> nat, sizeOf: V -> nat)
      requires 0 < numShards
      ensures Valid() && |shards| == numShards && itsMaxSizePerShard == PerShard(maxSize, numShards)
      ensures this.hash == hash && this.sizeOf == sizeOf
      ensures forall j :: 0 <= j < numShards ==> models[j] == EmptyShard()
    {
      this.hash, this.sizeOf := hash, sizeOf;
      itsMaxSizePerShard := PerShard(maxSize, numShards);
      var s: seq<Shard<K, V>> := [];
      while |s| < numShards
        invariant |s| <= numShards
        invariant forall j :: 0 <= j < |s| ==> fresh(s[j]) && s[j].Valid() && s[j].model == EmptyShard()
        invariant forall j, k :: 0 <= j < k < |s| ==> s[j] != s[k]
        decreases numShards - |s|
      {
        var one := new Shard();
        s := s + [one];
      }
      shards := s;
      models := seq(numShards, j => EmptyShard());
    }

    /** The old value under the key stays; a value that no shard can hold is refused. */
    method Insert(key: K, value: V) returns (ok: bool, evicted: seq<(K, V)>)
      requires Valid()
      modifies this`models, shards
      ensures Valid()
      ensures var h, before := GetShardIndex(key), old(models);
              && (models, ok) == InsertedIn(before, h, key, value, sizeOf(value), itsMaxSizePerShard)
              && evicted == if ok then EvictedBy(before[h], sizeOf(value), itsMaxSizePerShard) else []
    {
      var h := GetShardIndex(key);
      OperationKeepsPlace(models, itsMaxSizePerShard, hash, h, DoInsert(key, value, sizeOf(value)));
      ok, evicted := InsertIn(h, key, value, sizeOf(value));
    }

    method InsertIn(h: nat, key: K, value: V, size: nat) returns (ok: bool, evicted: seq<(K, V)>)
      requires h < |shards| && ShardsValid()
      modifies this`models, shards[h]
      ensures ShardsValid()
      ensures (models, ok) == InsertedIn(old(models), h, key, value, size, itsMaxSizePerShard)
      ensures evicted == if ok then EvictedBy(old(models)[h], size, itsMaxSizePerShard) else []
    {
      ok, evicted := shards[h].Insert(key, value, size, itsMaxSizePerShard);
      models := models[h := shards[h].model];
    }

    method Upsert(key: K, value: V) returns (ok: bool)
      requires Valid()
      modifies this`models, shards
      ensures Valid()
      ensures (models, ok) == UpsertedIn(old(models), GetShardIndex(key), key, value, sizeOf(value), itsMaxSizePerShard)
    {
      var h := GetShardIndex(key);
      OperationKeepsPlace(models, itsMaxSizePerShard, hash, h, DoUpsert(key, value, sizeOf(value)));
      ok := UpsertIn(h, key, value, sizeOf(value));
    }

    method UpsertIn(h: nat, key: K, value: V, size: nat) returns (ok: bool)
      requires h < |shards| && ShardsValid()
      modifies this`models, shards[h]
      ensures ShardsValid()
      ensures (models, ok) == UpsertedIn(old(models), h, key, value, size, itsMaxSizePerShard)
    {
      ok := shards[h].Upsert(key, value, size, itsMaxSizePerShard);
      models := models[h := shards[h].model];
    }

    method Find(key: K) returns (found: Option<V>, hits: nat)
      requires Valid()
      modifies this`models, shards, set e | e in shards[GetShardIndex(key)].list && e.key == key
      ensures Valid()
      ensures var (s, item) := CacheModel.Find(old(models)[GetShardIndex(key)], key);
              && models == old(models)[GetShardIndex(key) := s]
              && found == (if item.Some? then Some(item.value.value) else None)
      ensures found.Some? ==>
                var index := old(shards[GetShardIndex(key)].index);
                key in index && index[key].hits == hits == old(shards[GetShardIndex(key)].index[key].hits) + 1
    {
      var h := GetShardIndex(key);
      OperationKeepsPlace(models, itsMaxSizePerShard, hash, h, DoFind(key));
      found, hits := FindIn(h, key);
    }

    method FindIn(h: nat, key: K) returns (found: Option<V>, hits: nat)
      requires h < |shards| && ShardsValid()
      modifies this`models, shards[h], set e | e in shards[h].list && e.key == key
      ensures ShardsValid()
      ensures var (s, item) := CacheModel.Find(old(models)[h], key);
              && models == old(models)[h := s]
              && found == (if item.Some? then Some(item.value.value) else None)
      ensures found.Some? ==>
                var index := old(shards[h].index);
                key in index && index[key].hits == hits == old(shards[h].index[key].hits) + 1
    {
      found, hits := shards[h].Find(key);
      models := models[h := shards[h].model];
    }

    method Clear()
      requires Valid()
      modifies this`models, shards
      ensures Valid() && models == ClearedAll(old(models))
    {
      ClearedAllInPlace(models, itsMaxSizePerShard, hash);
      ClearAll();
    }

    method ClearAll()
      requires ShardsValid()
      modifies this`models, shards
      ensures ShardsValid() && models == ClearedAll(old(models))
    {
      ghost var before := models;
      ClearedEnds(before);
      for j := 0 to |shards|
        invariant State() == Some(ClearedUpTo(before, j))
      {
        ClearShard(j, before);
      }
    }

    method ClearShard(h: nat, ghost before: seq<CacheModel.Shard<K, V>>)
      requires h < |shards| == |before| && State() == Some(ClearedUpTo(before, h))
      modifies this`models, shards[h]
      ensures State() == Some(ClearedUpTo(before, h + 1))
    {
      ClearedOneMore(before, h);
      shards[h].Clear();
      models := models[h := shards[h].model];
    }

    /** Sets the capacity, evicts what does not fit any more, and reports it, shard by shard. */
    method Resize(newMaxSize: nat) returns (evicted: seq<(K, V)>)
      requires Valid()
      modifies this, shards
      ensures Valid() && itsMaxSizePerShard == PerShard(newMaxSize, |shards|)
      ensures models == ResizedAll(old(models), itsMaxSizePerShard)
      ensures evicted == EvictedByAll(old(models), itsMaxSizePerShard)
    {
      ghost var before, oldMax := models, itsMaxSizePerShard;
      var max := PerShard(newMaxSize, |shards|);
      itsMaxSizePerShard := max;
      evicted := ShrinkAll();
      ResizedAllInPlace(before, oldMax, max, hash);
    }

    method ShrinkAll() returns (evicted: seq<(K, V)>)
      requires ShardsValid()
      modifies this`models, shards
      ensures ShardsValid() && models == ResizedAll(old(models), itsMaxSizePerShard)
      ensures evicted == EvictedByAll(old(models), itsMaxSizePerShard)
    {
      ghost var before := models;
      ResizedEnds(before, itsMaxSizePerShard);
      evicted := [];
      for j := 0 to |shards|
        invariant State() == Some(ResizedUpTo(before, j, itsMaxSizePerShard))
        invariant evicted == EvictedByAll(before[..j], itsMaxSizePerShard)
      {
        ResizedOneMore(before, j, itsMaxSizePerShard);
        var shardEvicted := ShrinkShard(j, before);
        evicted := evicted + shardEvicted;
      }
    }

    method ShrinkShard(h: nat, ghost before: seq<CacheModel.Shard<K, V>>) returns (evicted: seq<(K, V)>)
      requires h < |shards| == |before| && State() == Some(ResizedUpTo(before, h, itsMaxSizePerShard))
      modifies this`models, shards[h]
      ensures State() == Some(ResizedUpTo(before, h + 1, itsMaxSizePerShard))
      ensures evicted == EvictedBy(before[h], 0, itsMaxSizePerShard)
    {
      ResizedOneMore(before, h, itsMaxSizePerShard);
      evicted := ShrinkIn(h, itsMaxSizePerShard);
    }

    method ShrinkIn(h: nat, max: nat) returns (evicted: seq<(K, V)>)
      requires h < |shards| && ShardsValid()
      modifies this`models, shards[h]
      ensures ShardsValid() && models == old(models)[h := Resized(old(models)[h], max)]
      ensures evicted == EvictedBy(old(models)[h], 0, max)
    {
      evicted := shards[h].Shrink(max);
      models := models[h := shards[h].model];
    }

    /** The sizes of all items together never exceed the capacity. */
    method Size() returns (total: nat)
      requires Valid()
      ensures total == TotalOfAll(models) <= MaxSize()
    {
      total := 0;
      for j := 0 to |shards|
        invariant total == TotalOfAll(models[..j]) <= itsMaxSizePerShard * j
      {
        assert models[..j + 1][..j] == models[..j];
        assert shards[j].model == models[j] && Sound(models[j], itsMaxSizePerShard);
        total := total + shards[j].size;
        assert itsMaxSizePerShard * j + itsMaxSizePerShard == itsMaxSizePerShard * (j + 1);
      }
      assert models[..|shards|] == models;
    }

    function MaxSize(): nat
      reads this
    {
      itsMaxSizePerShard * |shards|
    }
  }
}
