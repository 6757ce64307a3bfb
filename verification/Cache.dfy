/**
 The cache shard as a sequence of items in order of use, least recently used first, and the laws of
 whole runs.
 */
module CacheModel {
  import opened Common
  import opened Wrappers

  datatype Item<K, V> = Item(key: K, value: V, size: nat)

  /** `replaced` and `cleared` count the items that left the shard without being evicted; the code does
      not keep these two. */
  datatype Shard<K, V> = Shard(items: seq<Item<K, V>>, inserts: nat, evictions: nat, hits: nat, misses: nat,
                               replaced: nat, cleared: nat)

  function EmptyShard<K, V>(): Shard<K, V> {
    Shard([], 0, 0, 0, 0, 0, 0)
  }

  function Total<K, V>(items: seq<Item<K, V>>): nat {
    if items == [] then 0 else items[0].size + Total(items[1..])
  }

  predicate DistinctKeys<K(==), V>(items: seq<Item<K, V>>) {
    forall i, j :: 0 <= i < j < |items| ==> items[i].key != items[j].key
  }

  predicate Has<K(==), V>(items: seq<Item<K, V>>, key: K) {
    exists i :: 0 <= i < |items| && items[i].key == key
  }

  /** The position of a key's item, or the number of items. */
  function Index<K(==), V>(items: seq<Item<K, V>>, key: K): (i: nat)
    ensures i <= |items| && (i < |items| ==> items[i].key == key)
    ensures i < |items| <==> Has(items, key)
  {
    if items == [] then 0
    else if items[0].key == key then 0
    else
      var i := Index(items[1..], key);
      assert forall k :: 1 <= k < |items| ==> items[k] == items[1..][k - 1];
      i + 1
  }

  function Without<T>(s: seq<T>, i: nat): seq<T>
    requires i < |s|
  {
    s[..i] + s[i + 1..]
  }

  // ---------------------------------------------------------------- eviction

  /** The items left when the least recently used ones make room for `need`. */
  function Kept<K, V>(items: seq<Item<K, V>>, need: nat, max: nat): (kept: seq<Item<K, V>>)
    ensures |kept| <= |items|
  {
    if items == [] || Total(items) + need <= max then items else Kept(items[1..], need, max)
  }

  /** Eviction drops the shortest prefix that makes room. */
  lemma {:induction false} KeptDropsShortestPrefix<K, V>(items: seq<Item<K, V>>, need: nat, max: nat) returns (n: nat)
    requires need <= max
    ensures n <= |items| && Kept(items, need, max) == items[n..]
    ensures Total(items[n..]) + need <= max
    ensures forall m :: 0 <= m < n ==> Total(items[m..]) + need > max
  {
    if items == [] || Total(items) + need <= max {
      n := 0;
      assert items[0..] == items;
    } else {
      var k := KeptDropsShortestPrefix(items[1..], need, max);
      n := k + 1;
      assert items[n..] == items[1..][k..];
      forall m | 0 <= m < n ensures Total(items[m..]) + need > max {
        if m > 0 {
          assert items[m..] == items[1..][m - 1..];
        } else {
          assert items[0..] == items;
        }
      }
    }
  }

  lemma {:induction false} KeptHasNoMore<K, V>(items: seq<Item<K, V>>, need: nat, max: nat, key: K)
    requires !Has(items, key)
    ensures !Has(Kept(items, need, max), key)
  {
    if items != [] && Total(items) + need > max {
      assert forall i :: 0 <= i < |items[1..]| ==> items[1..][i] == items[i + 1];
      KeptHasNoMore(items[1..], need, max, key);
    }
  }

  /** What is reported of evicted items. */
  function Pairs<K, V>(items: seq<Item<K, V>>): seq<(K, V)> {
    seq(|items|, i requires 0 <= i < |items| => (items[i].key, items[i].value))
  }

  lemma PairsGrow<K, V>(items: seq<Item<K, V>>, n: nat)
    requires n < |items|
    ensures Pairs(items[..n + 1]) == Pairs(items[..n]) + [(items[n].key, items[n].value)]
  {
  }

  /** When what is left does not fit either, its first item leaves as well. */
  lemma EvictsFirst<K, V>(items: seq<Item<K, V>>, n: nat, need: nat, max: nat)
    requires n < |items| && Total(items[n..]) + need > max
    ensures items[n..][0] == items[n] && items[n..][1..] == items[n + 1..]
    ensures Total(items[n + 1..]) == Total(items[n..]) - items[n].size
    ensures Kept(items[n..], need, max) == Kept(items[n + 1..], need, max)
    ensures Pairs(items[..n + 1]) == Pairs(items[..n]) + [(items[n].key, items[n].value)]
  {
    PairsGrow(items, n);
  }

  /** The items that leave when room is made for `need`. */
  function EvictedBy<K, V>(s: Shard<K, V>, need: nat, max: nat): seq<(K, V)> {
    Pairs(s.items[..|s.items| - |Kept(s.items, need, max)|])
  }

  lemma EvictsNone<K, V>(items: seq<Item<K, V>>)
    ensures items[0..] == items && Pairs(items[..0]) == []
  {
  }

  /** When what is left fits, it is what is kept. */
  lemma EvictsNoMore<K, V>(s: Shard<K, V>, n: nat, need: nat, max: nat)
    requires n <= |s.items| && (s.items[n..] == [] || Total(s.items[n..]) + need <= max)
    requires Kept(s.items, need, max) == Kept(s.items[n..], need, max)
    ensures Kept(s.items, need, max) == s.items[n..] && EvictedBy(s, need, max) == Pairs(s.items[..n])
  {
  }

  // ---------------------------------------------------------------- the operations

  /** A hit moves the item to the most recently used end. */
  function Find<K(==), V>(s: Shard<K, V>, key: K): (Shard<K, V>, Option<Item<K, V>>) {
    var i := Index(s.items, key);
    if i == |s.items| then (s.(misses := s.misses + 1), None)
    else
      (s.(items := MovedToBack(s.items, i), hits := s.hits + 1), Some(s.items[i]))
  }

  function MovedToBack<T>(s: seq<T>, i: nat): seq<T>
    requires i < |s|
  {
    Without(s, i) + [s[i]]
  }

  /** A hit moves the item to the end; if it is there already, that changes nothing. */
  lemma HitIsMove<K, V>(s: Shard<K, V>, key: K)
    requires Has(s.items, key)
    ensures var i := Index(s.items, key);
            && Find(s, key).0 == s.(items := MovedToBack(s.items, i), hits := s.hits + 1)
            && (i == |s.items| - 1 ==> Find(s, key).0 == s.(hits := s.hits + 1))
  {
    var i := Index(s.items, key);
    assert i == |s.items| - 1 ==> MovedToBack(s.items, i) == s.items;
  }

  /** With room for `need`. */
  function RoomMade<K, V>(s: Shard<K, V>, need: nat, max: nat): Shard<K, V> {
    var kept := Kept(s.items, need, max);
    s.(items := kept, evictions := s.evictions + |s.items| - |kept|)
  }

  /** Appends an item that fits, after making room for it. */
  function Append<K, V>(s: Shard<K, V>, key: K, value: V, size: nat, max: nat): Shard<K, V> {
    var room := RoomMade(s, size, max);
    room.(items := room.items + [Item(key, value, size)], inserts := room.inserts + 1)
  }

  function Insert<K(==), V>(s: Shard<K, V>, key: K, value: V, size: nat, max: nat): (Shard<K, V>, bool) {
    if Has(s.items, key) || size > max then (s, false) else (Append(s, key, value, size, max), true)
  }

  /** Without its old item, whether or not the new value fits. */
  function Dropped<K(==), V>(s: Shard<K, V>, key: K): Shard<K, V> {
    var i := Index(s.items, key);
    if i == |s.items| then s else s.(items := Without(s.items, i), replaced := s.replaced + 1)
  }

  function Upsert<K(==), V>(s: Shard<K, V>, key: K, value: V, size: nat, max: nat): (Shard<K, V>, bool) {
    if size > max then (Dropped(s, key), false) else (Append(Dropped(s, key), key, value, size, max), true)
  }

  function Cleared<K, V>(s: Shard<K, V>): Shard<K, V> {
    s.(items := [], cleared := s.cleared + |s.items|)
  }

  function Resized<K, V>(s: Shard<K, V>, max: nat): Shard<K, V> {
    RoomMade(s, 0, max)
  }

  // ---------------------------------------------------------------- what every operation keeps

  datatype Operation<K, V> =
    | DoFind(key: K)
    | DoInsert(key: K, value: V, size: nat)
    | DoUpsert(key: K, value: V, size: nat)
    | DoClear
    | DoResize(max: nat)

  /** A shard and its capacity after an operation. */
  function Apply<K(==), V>(s: Shard<K, V>, max: nat, op: Operation<K, V>): (Shard<K, V>, nat) {
    match op
    case DoFind(key) => (Find(s, key).0, max)
    case DoInsert(key, value, size) => (Insert(s, key, value, size, max).0, max)
    case DoUpsert(key, value, size) => (Upsert(s, key, value, size, max).0, max)
    case DoClear => (Cleared(s), max)
    case DoResize(m) => (Resized(s, m), m)
  }

  /** Keys are distinct, the items fit, and every insertion is accounted for. */
  predicate Sound<K(==), V>(s: Shard<K, V>, max: nat) {
    && DistinctKeys(s.items)
    && Total(s.items) <= max
    && s.inserts == |s.items| + s.evictions + s.replaced + s.cleared
  }

  lemma {:induction false} TotalOfConcat<K, V>(a: seq<Item<K, V>>, b: seq<Item<K, V>>)
    ensures Total(a + b) == Total(a) + Total(b)
  {
    if a == [] {
      assert a + b == b;
    } else {
      assert (a + b)[1..] == a[1..] + b;
      TotalOfConcat(a[1..], b);
    }
  }

  lemma {:induction false} TotalWithout<K, V>(items: seq<Item<K, V>>, i: nat)
    requires i < |items|
    ensures Total(Without(items, i)) == Total(items) - items[i].size
  {
    if i == 0 {
      assert Without(items, 0) == items[1..];
    } else {
      TotalWithout(items[1..], i - 1);
      assert Without(items, i) == [items[0]] + Without(items[1..], i - 1);
    }
  }

  lemma WithoutKey<K, V>(items: seq<Item<K, V>>, i: nat)
    requires i < |items| && DistinctKeys(items)
    ensures DistinctKeys(Without(items, i)) && !Has(Without(items, i), items[i].key)
  {
    var w := Without(items, i);
    assert forall k :: 0 <= k < |w| ==> w[k] == items[if k < i then k else k + 1];
  }

  lemma AppendSound<K, V>(s: Shard<K, V>, key: K, value: V, size: nat, max: nat)
    requires Sound(s, max) && size <= max && !Has(s.items, key)
    ensures Sound(Append(s, key, value, size, max), max)
  {
    var n := KeptDropsShortestPrefix(s.items, size, max);
    var item := Item(key, value, size);
    TotalOfConcat(s.items[n..], [item]);
    assert [item][1..] == [];
  }

  lemma FindSound<K, V>(s: Shard<K, V>, key: K, max: nat)
    requires Sound(s, max)
    ensures Sound(Find(s, key).0, max)
  {
    var i := Index(s.items, key);
    if i < |s.items| {
      TotalWithout(s.items, i);
      WithoutKey(s.items, i);
      TotalOfConcat(Without(s.items, i), [s.items[i]]);
    }
  }

  lemma DroppedSound<K, V>(s: Shard<K, V>, key: K, max: nat)
    requires Sound(s, max)
    ensures Sound(Dropped(s, key), max) && !Has(Dropped(s, key).items, key)
  {
    var i := Index(s.items, key);
    if i < |s.items| {
      TotalWithout(s.items, i);
      WithoutKey(s.items, i);
    }
  }

  lemma ResizedSound<K, V>(s: Shard<K, V>, max: nat, old_max: nat)
    requires Sound(s, old_max)
    ensures Sound(Resized(s, max), max)
  {
    var n := KeptDropsShortestPrefix(s.items, 0, max);
  }

  lemma OperationKeepsSound<K, V>(s: Shard<K, V>, max: nat, op: Operation<K, V>)
    requires Sound(s, max)
    ensures var (s', max') := Apply(s, max, op); Sound(s', max')
  {
    match op {
      case DoFind(key) => FindSound(s, key, max);
      case DoInsert(key, value, size) =>
        if !Has(s.items, key) && size <= max {
          AppendSound(s, key, value, size, max);
        }
      case DoUpsert(key, value, size) =>
        DroppedSound(s, key, max);
        if size <= max {
          AppendSound(Dropped(s, key), key, value, size, max);
        }
      case DoClear =>
      case DoResize(m) => ResizedSound(s, m, max);
    }
  }

  function Run<K(==), V>(s: Shard<K, V>, max: nat, ops: seq<Operation<K, V>>): (Shard<K, V>, nat) {
    if ops == [] then (s, max)
    else
      var (s', max') := Run(s, max, ops[..|ops| - 1]);
      Apply(s', max', ops[|ops| - 1])
  }

  /** Every run keeps the shard sound. */
  lemma {:induction false} RunIsSound<K, V>(max: nat, ops: seq<Operation<K, V>>)
    ensures var (s, max') := Run(EmptyShard<K, V>(), max, ops); Sound(s, max')
  {
    if ops != [] {
      RunIsSound<K, V>(max, ops[..|ops| - 1]);
      var (s, m) := Run(EmptyShard<K, V>(), max, ops[..|ops| - 1]);
      OperationKeepsSound(s, m, ops[|ops| - 1]);
    }
  }

  /** An upsert whose value is too big for the shard fails, but the old value is gone. */
  lemma FailedUpsertLosesKey<K, V>(s: Shard<K, V>, key: K, value: V, size: nat, max: nat)
    requires Sound(s, max) && size > max && Has(s.items, key)
    ensures !Upsert(s, key, value, size, max).1
    ensures !Has(Upsert(s, key, value, size, max).0.items, key)
    ensures Find(Upsert(s, key, value, size, max).0, key).1 == None
  {
    DroppedSound(s, key, max);
  }

  /** A run that shows it: of two units at most, one is held, and the value that is to replace it has
      three. */
  lemma UpsertEmptiesShard<V>(old_value: V, new_value: V)
    ensures var ops := [DoInsert("key", old_value, 1), DoUpsert("key", new_value, 3)];
            Run(EmptyShard<string, V>(), 2, ops).0.items == []
  {
    var ops := [DoInsert("key", old_value, 1), DoUpsert("key", new_value, 3)];
    var s0 := EmptyShard<string, V>();
    assert ops[..1] == [ops[0]] && [ops[0]][..0] == [];
    assert Run(s0, 2, []) == (s0, 2);
    assert Run(s0, 2, [ops[0]]) == Apply(s0, 2, ops[0]);
    var s1 := Apply(s0, 2, ops[0]).0;
    assert s1.items == [Item("key", old_value, 1)];
    assert Index(s1.items, "key") == 0;
  }

  lemma ItemFound<K, V>(items: seq<Item<K, V>>, i: nat)
    requires DistinctKeys(items) && i < |items|
    ensures Index(items, items[i].key) == i
  {
    assert Has(items, items[i].key);
  }

  lemma DroppedKeepsOthers<K, V>(s: Shard<K, V>, key: K, other: K)
    requires DistinctKeys(s.items) && other != key
    ensures Find(Dropped(s, key), other).1 == Find(s, other).1
  {
    var i := Index(s.items, key);
    if i < |s.items| {
      WithoutKeepsOthers(s.items, i, other);
    }
  }

  lemma WithoutHasNoMore<K, V>(items: seq<Item<K, V>>, i: nat, key: K)
    requires i < |items| && !Has(items, key)
    ensures !Has(Without(items, i), key)
  {
    var rest := Without(items, i);
    assert forall k :: 0 <= k < |rest| ==> rest[k] == items[if k < i then k else k + 1];
  }

  lemma WithoutKeepsItem<K, V>(items: seq<Item<K, V>>, i: nat, j: nat)
    requires DistinctKeys(items) && i < |items| && j < |items| && i != j
    ensures var rest, k := Without(items, i), Index(Without(items, i), items[j].key);
            k < |rest| && rest[k] == items[j]
  {
    WithoutKey(items, i);
    ItemFound(Without(items, i), if j < i then j else j - 1);
  }

  lemma WithoutKeepsOthers<K, V>(items: seq<Item<K, V>>, i: nat, other: K)
    requires DistinctKeys(items) && i < |items| && items[i].key != other
    ensures var rest, j, k := Without(items, i), Index(items, other), Index(Without(items, i), other);
            (j == |items| <==> k == |rest|) && (j < |items| ==> rest[k] == items[j])
  {
    if Has(items, other) {
      WithoutKeepsItem(items, i, Index(items, other));
    } else {
      WithoutHasNoMore(items, i, other);
    }
  }

  /** An upsert that fails leaves the shard as it was exactly when the key was not there; any other key
      keeps its value in either case. */
  lemma FailedUpsertHarmlessIff<K, V>(s: Shard<K, V>, key: K, value: V, size: nat, max: nat)
    requires Sound(s, max) && size > max
    ensures var (t, ok) := Upsert(s, key, value, size, max);
            && !ok && (t == s <==> !Has(s.items, key))
            && forall other :: other != key ==> Find(t, other).1 == Find(s, other).1
  {
    forall other | other != key
      ensures Find(Upsert(s, key, value, size, max).0, other).1 == Find(s, other).1
    {
      DroppedKeepsOthers(s, key, other);
    }
  }

  /** What has just been put in is found, with its value. */
  lemma InsertedIsFound<K, V>(s: Shard<K, V>, key: K, value: V, size: nat, max: nat)
    requires Sound(s, max) && size <= max
    ensures var s' := Upsert(s, key, value, size, max).0; Find(s', key).1 == Some(Item(key, value, size))
    ensures !Has(s.items, key) ==>
              var s' := Insert(s, key, value, size, max).0; Find(s', key).1 == Some(Item(key, value, size))
  {
    DroppedSound(s, key, max);
    AppendSound(Dropped(s, key), key, value, size, max);
    LastIsFound(Upsert(s, key, value, size, max).0.items);
    if !Has(s.items, key) {
      AppendSound(s, key, value, size, max);
      LastIsFound(Insert(s, key, value, size, max).0.items);
    }
  }

  lemma LastIsFound<K, V>(items: seq<Item<K, V>>)
    requires items != [] && DistinctKeys(items)
    ensures Index(items, items[|items| - 1].key) == |items| - 1
  {
    assert items[|items| - 1].key == items[|items| - 1].key;
    assert Has(items, items[|items| - 1].key);
  }

  // ---------------------------------------------------------------- shards of a cache

  const Word := 0x1_0000_0000_0000_0000
  const Prime := 2654435761

  /** The shard of a key with the given hash, in 64-bit arithmetic. */
  function ShardOf(hash: nat, shards: nat): (i: nat)
    requires shards > 0
    ensures i < shards
  {
    hash * Prime % Word % shards
  }

  /** The capacity of each shard, in 64-bit arithmetic. */
  function PerShard(maxSize: nat, shards: nat): nat
    requires shards > 0
  {
    (maxSize + shards - 1) % Word / shards
  }

  /** The capacity of all shards is the least multiple of their number that is large enough, exactly
      when rounding up does not overflow. */
  lemma CapacityCoversIff(maxSize: nat, shards: nat)
    requires 0 < shards < Word && maxSize < Word
    ensures maxSize <= PerShard(maxSize, shards) * shards < maxSize + shards <==> maxSize + shards - 1 < Word
  {
    var m := maxSize + shards - 1;
    var w := if m < Word then m else m - Word;
    assert m % Word == w;
    assert w / shards * shards == w - w % shards;
  }

  /** All keys belong to shard `j`. */
  predicate AtHome<K, V>(items: seq<Item<K, V>>, home: K -> nat, j: nat) {
    forall i :: 0 <= i < |items| ==> home(items[i].key) == j
  }

  lemma {:induction false} KeptAtHome<K, V>(items: seq<Item<K, V>>, need: nat, max: nat, home: K -> nat, j: nat)
    requires AtHome(items, home, j)
    ensures AtHome(Kept(items, need, max), home, j)
  {
    if items != [] && Total(items) + need > max {
      KeptAtHome(items[1..], need, max, home, j);
    }
  }

  /** No operation brings a key of another shard. */
  lemma OperationKeepsAtHome<K, V>(s: Shard<K, V>, max: nat, op: Operation<K, V>, home: K -> nat, j: nat)
    requires AtHome(s.items, home, j)
    requires (op.DoFind? || op.DoInsert? || op.DoUpsert?) ==> home(op.key) == j
    ensures AtHome(Apply(s, max, op).0.items, home, j)
  {
    match op {
      case DoFind(key) =>
      case DoInsert(key, value, size) => KeptAtHome(s.items, size, max, home, j);
      case DoUpsert(key, value, size) =>
        assert AtHome(Dropped(s, key).items, home, j);
        KeptAtHome(Dropped(s, key).items, size, max, home, j);
      case DoClear =>
      case DoResize(m) => KeptAtHome(s.items, 0, m, home, j);
    }
  }

  /** Every shard is sound and holds only keys that belong to it. */
  ghost predicate InPlace<K, V>(shards: seq<Shard<K, V>>, max: nat, hash: K -> nat) {
    |shards| > 0 &&
    forall j :: 0 <= j < |shards| ==>
      Sound(shards[j], max) && AtHome(shards[j].items, HomeIn(|shards|, hash), j)
  }

  function HomeIn<K>(shards: nat, hash: K -> nat): K -> nat
    requires shards > 0
  {
    key => ShardOf(hash(key), shards)
  }

  function InsertedIn<K(==), V>(shards: seq<Shard<K, V>>, h: nat, key: K, value: V, size: nat, max: nat)
    : (seq<Shard<K, V>>, bool)
    requires h < |shards|
  {
    var (s, ok) := Insert(shards[h], key, value, size, max);
    (shards[h := s], ok)
  }

  function UpsertedIn<K(==), V>(shards: seq<Shard<K, V>>, h: nat, key: K, value: V, size: nat, max: nat)
    : (seq<Shard<K, V>>, bool)
    requires h < |shards|
  {
    var (s, ok) := Upsert(shards[h], key, value, size, max);
    (shards[h := s], ok)
  }

  function ClearedAll<K, V>(shards: seq<Shard<K, V>>): (r: seq<Shard<K, V>>)
    ensures |r| == |shards| && forall j :: 0 <= j < |shards| ==> r[j] == Cleared(shards[j])
  {
    seq(|shards|, j requires 0 <= j < |shards| => Cleared(shards[j]))
  }

  function ResizedAll<K, V>(shards: seq<Shard<K, V>>, max: nat): (r: seq<Shard<K, V>>)
    ensures |r| == |shards| && forall j :: 0 <= j < |shards| ==> r[j] == Resized(shards[j], max)
  {
    seq(|shards|, j requires 0 <= j < |shards| => Resized(shards[j], max))
  }

  /** What resizing evicts, in order of the shards. */
  function EvictedByAll<K, V>(shards: seq<Shard<K, V>>, max: nat): seq<(K, V)> {
    if shards == [] then []
    else EvictedByAll(shards[..|shards| - 1], max) + EvictedBy(shards[|shards| - 1], 0, max)
  }

  function TotalOfAll<K, V>(shards: seq<Shard<K, V>>): nat {
    if shards == [] then 0 else TotalOfAll(shards[..|shards| - 1]) + Total(shards[|shards| - 1].items)
  }

  /** The first `j` shards cleared. */
  function ClearedUpTo<K, V>(shards: seq<Shard<K, V>>, j: nat): seq<Shard<K, V>>
    requires j <= |shards|
  {
    ClearedAll(shards[..j]) + shards[j..]
  }

  function ResizedUpTo<K, V>(shards: seq<Shard<K, V>>, j: nat, max: nat): seq<Shard<K, V>>
    requires j <= |shards|
  {
    ResizedAll(shards[..j], max) + shards[j..]
  }

  lemma ClearedOneMore<K, V>(shards: seq<Shard<K, V>>, j: nat)
    requires j < |shards|
    ensures j < |ClearedUpTo(shards, j)| && ClearedUpTo(shards, j)[j] == shards[j]
    ensures ClearedUpTo(shards, j)[j := Cleared(shards[j])] == ClearedUpTo(shards, j + 1)
  {
  }

  lemma ClearedEnds<K, V>(shards: seq<Shard<K, V>>)
    ensures ClearedUpTo(shards, 0) == shards && ClearedUpTo(shards, |shards|) == ClearedAll(shards)
  {
    assert shards[..|shards|] == shards;
  }

  lemma ResizedOneMore<K, V>(shards: seq<Shard<K, V>>, j: nat, max: nat)
    requires j < |shards|
    ensures j < |ResizedUpTo(shards, j, max)| && ResizedUpTo(shards, j, max)[j] == shards[j]
    ensures ResizedUpTo(shards, j, max)[j := Resized(shards[j], max)] == ResizedUpTo(shards, j + 1, max)
    ensures EvictedByAll(shards[..j + 1], max) == EvictedByAll(shards[..j], max) + EvictedBy(shards[j], 0, max)
  {
    assert shards[..j + 1][..j] == shards[..j];
  }

  lemma ResizedEnds<K, V>(shards: seq<Shard<K, V>>, max: nat)
    ensures ResizedUpTo(shards, 0, max) == shards && ResizedUpTo(shards, |shards|, max) == ResizedAll(shards, max)
    ensures EvictedByAll(shards[..0], max) == [] && shards[..|shards|] == shards
  {
    assert shards[..|shards|] == shards;
  }

  lemma ClearedAllInPlace<K, V>(shards: seq<Shard<K, V>>, max: nat, hash: K -> nat)
    requires InPlace(shards, max, hash)
    ensures InPlace(ClearedAll(shards), max, hash)
  {
  }

  lemma ResizedAllInPlace<K, V>(shards: seq<Shard<K, V>>, oldMax: nat, max: nat, hash: K -> nat)
    requires InPlace(shards, oldMax, hash)
    ensures InPlace(ResizedAll(shards, max), max, hash)
  {
    var home := HomeIn(|shards|, hash);
    forall j | 0 <= j < |shards|
      ensures Sound(Resized(shards[j], max), max) && AtHome(Resized(shards[j], max).items, home, j)
    {
      ResizedSound(shards[j], max, oldMax);
      KeptAtHome(shards[j].items, 0, max, home, j);
    }
  }

  lemma OperationKeepsPlace<K, V>(shards: seq<Shard<K, V>>, max: nat, hash: K -> nat, h: nat, op: Operation<K, V>)
    requires InPlace(shards, max, hash) && h < |shards| && !op.DoResize?
    requires !op.DoClear? ==> ShardOf(hash(op.key), |shards|) == h
    ensures InPlace(shards[h := Apply(shards[h], max, op).0], max, hash)
  {
    OperationKeepsSound(shards[h], max, op);
    OperationKeepsAtHome(shards[h], max, op, HomeIn(|shards|, hash), h);
  }

  // ---------------------------------------------------------------- the LRU law

  /** Looks a key up, and stores it on a miss. */
  function ReadThrough<K(==), V>(s: Shard<K, V>, key: K, load: K -> V, max: nat): Shard<K, V> {
    var (s', hit) := Find(s, key);
    if hit.Some? then s' else Insert(s', key, load(key), 1, max).0
  }

  function Accesses<K(==), V>(trace: seq<K>, load: K -> V, max: nat): Shard<K, V> {
    if trace == [] then EmptyShard()
    else ReadThrough(Accesses(trace[..|trace| - 1], load, max), trace[|trace| - 1], load, max)
  }

  function Keys<K, V>(items: seq<Item<K, V>>): (keys: seq<K>)
    ensures |keys| == |items| && forall i :: 0 <= i < |items| ==> keys[i] == items[i].key
  {
    seq(|items|, i requires 0 <= i < |items| => items[i].key)
  }

  function Removed<K(==)>(s: seq<K>, key: K): seq<K> {
    if s == [] then [] else if s[0] == key then Removed(s[1..], key) else [s[0]] + Removed(s[1..], key)
  }

  /** The distinct keys of a trace, in order of their last use. */
  function Recency<K(==)>(trace: seq<K>): seq<K> {
    if trace == [] then []
    else Removed(Recency(trace[..|trace| - 1]), trace[|trace| - 1]) + [trace[|trace| - 1]]
  }

  /** The last position of a key in a trace, or -1. */
  function LastUse<K(==)>(trace: seq<K>, key: K): int {
    if trace == [] then -1
    else if trace[|trace| - 1] == key then |trace| - 1
    else LastUse(trace[..|trace| - 1], key)
  }

  predicate ByLastUse<K(==)>(trace: seq<K>, keys: seq<K>) {
    && (forall i, j :: 0 <= i < j < |keys| ==> LastUse(trace, keys[i]) < LastUse(trace, keys[j]))
    && (set k | k in trace) == (set k | k in keys)
  }

  lemma {:induction false} RemovedIs<K>(s: seq<K>, key: K, i: nat)
    requires Distinct(s) && i < |s| && s[i] == key
    ensures Removed(s, key) == Without(s, i)
  {
    if i == 0 {
      RemovedAbsent(s[1..], key);
      assert Without(s, 0) == s[1..];
    } else {
      RemovedIs(s[1..], key, i - 1);
      assert Without(s, i) == [s[0]] + Without(s[1..], i - 1);
    }
  }

  lemma {:induction false} RemovedAbsent<K>(s: seq<K>, key: K)
    requires key !in s
    ensures Removed(s, key) == s
  {
    if s != [] {
      RemovedAbsent(s[1..], key);
    }
  }

  lemma {:induction false} RecencyDistinct<K>(trace: seq<K>)
    ensures Distinct(Recency(trace))
  {
    if trace != [] {
      var r, key := Recency(trace[..|trace| - 1]), trace[|trace| - 1];
      RecencyDistinct(trace[..|trace| - 1]);
      if key in r {
        var i :| 0 <= i < |r| && r[i] == key;
        RemovedIs(r, key, i);
      } else {
        RemovedAbsent(r, key);
      }
    }
  }

  /** `Recency` is what it says: every key of the trace once, in order of last use. */
  lemma {:induction false} RecencyIsByLastUse<K>(trace: seq<K>)
    ensures ByLastUse(trace, Recency(trace))
  {
    if trace != [] {
      var before, key := trace[..|trace| - 1], trace[|trace| - 1];
      var r := Recency(before);
      RecencyIsByLastUse(before);
      RecencyDistinct(before);
      MovedToEnd(before, r, key);
      assert trace == before + [key];
    }
  }

  lemma {:induction false} LastUseInside<K>(trace: seq<K>, key: K)
    ensures -1 <= LastUse(trace, key) < |trace|
    ensures key in trace <==> LastUse(trace, key) >= 0
  {
    if trace != [] {
      LastUseInside(trace[..|trace| - 1], key);
      assert trace == trace[..|trace| - 1] + [trace[|trace| - 1]];
    }
  }

  lemma MovedToEnd<K>(before: seq<K>, r: seq<K>, key: K)
    requires ByLastUse(before, r) && Distinct(r)
    ensures ByLastUse(before + [key], Removed(r, key) + [key])
  {
    var trace, rest := before + [key], Removed(r, key);
    assert trace[..|before|] == before;
    RemovedKeepsOrder(before, r, key);
    forall k | 0 <= k < |rest| ensures LastUse(trace, rest[k]) == LastUse(before, rest[k]) < |before| {
      LastUseInside(before, rest[k]);
    }
    assert (set k | k in trace) == (set k | k in before) + {key};
    assert (set k | k in rest + [key]) == (set k | k in rest) + {key};
  }

  lemma RemovedKeepsOrder<K>(before: seq<K>, r: seq<K>, key: K)
    requires ByLastUse(before, r) && Distinct(r)
    ensures var rest := Removed(r, key);
            && (forall i, j :: 0 <= i < j < |rest| ==> LastUse(before, rest[i]) < LastUse(before, rest[j]))
            && (forall k :: 0 <= k < |rest| ==> rest[k] != key)
            && (set k | k in rest) == (set k | k in before) - {key}
  {
    var rest := Removed(r, key);
    RemovedMembers(r, key);
    if key in r {
      var i :| 0 <= i < |r| && r[i] == key;
      RemovedIs(r, key, i);
      assert forall k :: 0 <= k < |rest| ==> rest[k] == r[if k < i then k else k + 1];
    } else {
      RemovedAbsent(r, key);
    }
  }

  lemma {:induction false} RemovedMembers<K>(r: seq<K>, key: K)
    ensures (set k | k in Removed(r, key)) == (set k | k in r) - {key}
    ensures key !in Removed(r, key)
  {
    if r != [] {
      RemovedMembers(r[1..], key);
      assert r == [r[0]] + r[1..];
      assert (set k | k in r) == (set k | k in r[1..]) + {r[0]};
      if r[0] != key {
        assert (set k | k in Removed(r, key)) == (set k | k in Removed(r[1..], key)) + {r[0]};
      }
    }
  }

  predicate Unit<K, V>(items: seq<Item<K, V>>) {
    forall i :: 0 <= i < |items| ==> items[i].size == 1
  }

  lemma {:induction false} UnitTotal<K, V>(items: seq<Item<K, V>>)
    requires Unit(items)
    ensures Total(items) == |items|
  {
    if items != [] {
      UnitTotal(items[1..]);
    }
  }

  /** One unit item makes room for one. */
  lemma UnitKept<K, V>(items: seq<Item<K, V>>, max: nat)
    requires Unit(items) && |items| <= max && 1 <= max
    ensures Kept(items, 1, max) == if |items| < max then items else items[1..]
  {
    UnitTotal(items);
    if items != [] {
      UnitTotal(items[1..]);
    }
  }

  lemma IndexInKeys<K, V>(items: seq<Item<K, V>>, key: K)
    ensures Has(items, key) <==> key in Keys(items)
  {
    if Has(items, key) {
      var i :| 0 <= i < |items| && items[i].key == key;
      assert Keys(items)[i] == key;
    }
  }

  /** Accessing a key that is held moves it to the end. */
  lemma HitMoves<K, V>(s: Shard<K, V>, key: K, load: K -> V, max: nat)
    requires Distinct(Keys(s.items)) && Has(s.items, key)
    ensures Keys(ReadThrough(s, key, load, max).items) == Removed(Keys(s.items), key) + [key]
  {
    var i := Index(s.items, key);
    RemovedIs(Keys(s.items), key, i);
    assert Keys(Without(s.items, i)) == Without(Keys(s.items), i);
  }

  /** Accessing a key that is not held appends it, and drops the first key of a full shard. */
  lemma MissAppends<K, V>(s: Shard<K, V>, key: K, load: K -> V, max: nat)
    requires Unit(s.items) && |s.items| <= max && !Has(s.items, key)
    ensures var keys := Keys(s.items);
            Keys(ReadThrough(s, key, load, max).items)
            == if max == 0 then [] else (if |keys| < max then keys else keys[1..]) + [key]
  {
    if max > 0 {
      UnitKept(s.items, max);
    }
  }

  /** The last `c` keys in order of use, after one more access. */
  lemma LastOnesHit<K>(r: seq<K>, key: K, c: nat)
    requires Distinct(r) && key in LastOnes(r, c)
    ensures LastOnes(Removed(r, key) + [key], c) == Removed(LastOnes(r, c), key) + [key]
  {
    var l := LastOnes(r, c);
    var i :| 0 <= i < |l| && l[i] == key;
    if |r| <= c {
      RemovedIs(r, key, i);
    } else {
      var d := |r| - c;
      assert l == r[d..] && r[d + i] == l[i];
      WindowHit(r, d, key, i);
      assert LastOnes(Removed(r, key) + [key], c) == (Removed(r, key) + [key])[d..];
    }
  }

  lemma WindowHit<K>(r: seq<K>, d: nat, key: K, i: nat)
    requires Distinct(r) && d + i < |r| && r[d + i] == key
    ensures |Removed(r, key)| == |r| - 1
    ensures (Removed(r, key) + [key])[d..] == Removed(r[d..], key) + [key]
  {
    RemovedIs(r, key, d + i);
    RemovedIs(r[d..], key, i);
    WithoutSuffix(r, d, i);
  }

  lemma WithoutSuffix<T>(s: seq<T>, d: nat, i: nat)
    requires d + i < |s|
    ensures Without(s, d + i)[d..] == Without(s[d..], i)
  {
    assert s[d..][..i] == s[..d + i][d..];
    assert s[d..][i + 1..] == s[d + i + 1..];
  }

  lemma LastOnesMiss<K>(r: seq<K>, key: K, c: nat)
    requires Distinct(r) && key !in LastOnes(r, c)
    ensures var l := LastOnes(r, c);
            LastOnes(Removed(r, key) + [key], c) == if c == 0 then [] else (if |l| < c then l else l[1..]) + [key]
  {
    var l := LastOnes(r, c);
    if key in r {
      var i :| 0 <= i < |r| && r[i] == key;
      BeforeWindow(r, |r| - |l|, i);
      RemovedIs(r, key, i);
      LastOnesOfLonger(Without(r, i), l, key, c);
    } else {
      RemovedAbsent(r, key);
      if |r| >= c {
        LastOnesOfLonger(r, l, key, c);
      }
    }
  }

  /** What is not in the window stands before it, and can go without changing the window. */
  lemma BeforeWindow<K>(r: seq<K>, d: nat, i: nat)
    requires i < |r| && d <= |r| && r[i] !in r[d..]
    ensures i < d && |Without(r, i)| == |r| - 1 && Without(r, i)[d - 1..] == r[d..]
  {
    assert forall j :: d <= j < |r| ==> r[j] == r[d..][j - d];
  }

  /** A full window moves on by one. */
  lemma LastOnesOfLonger<K>(r: seq<K>, l: seq<K>, key: K, c: nat)
    requires |l| == c <= |r| && r[|r| - c..] == l
    ensures LastOnes(r + [key], c) == if c == 0 then [] else l[1..] + [key]
  {
    if c > 0 {
      assert (r + [key])[|r| + 1 - c..] == r[|r| - c..][1..] + [key];
    }
  }

  ghost predicate Loaded<K, V>(items: seq<Item<K, V>>, load: K -> V) {
    Unit(items) && forall i :: 0 <= i < |items| ==> items[i].value == load(items[i].key)
  }

  lemma AccessKeepsLoaded<K, V>(s: Shard<K, V>, key: K, load: K -> V, c: nat)
    requires Loaded(s.items, load) && |s.items| <= c
    ensures Loaded(ReadThrough(s, key, load, c).items, load)
  {
    if !Has(s.items, key) && c > 0 {
      UnitKept(s.items, c);
    }
  }

  lemma AccessMovesWindow<K, V>(s: Shard<K, V>, r: seq<K>, key: K, load: K -> V, c: nat)
    requires Keys(s.items) == LastOnes(r, c) && Distinct(r) && Unit(s.items)
    ensures Keys(ReadThrough(s, key, load, c).items) == LastOnes(Removed(r, key) + [key], c)
  {
    IndexInKeys(s.items, key);
    if Has(s.items, key) {
      HitMoves(s, key, load, c);
      LastOnesHit(r, key, c);
    } else {
      MissAppends(s, key, load, c);
      LastOnesMiss(r, key, c);
    }
  }

  /** After any run of read-through accesses to unit items, a shard of capacity `c` holds exactly the
      last `c` distinct keys, in order of use, with the values that were loaded. */
  lemma {:induction false} HoldsLastKeys<K, V>(trace: seq<K>, load: K -> V, c: nat)
    ensures var s := Accesses(trace, load, c);
            Keys(s.items) == LastOnes(Recency(trace), c) && Loaded(s.items, load)
  {
    if trace != [] {
      var before, key := trace[..|trace| - 1], trace[|trace| - 1];
      HoldsLastKeys(before, load, c);
      RecencyDistinct(before);
      AccessMovesWindow(Accesses(before, load, c), Recency(before), key, load, c);
      AccessKeepsLoaded(Accesses(before, load, c), key, load, c);
    }
  }

  predicate EndsWith<T(==)>(s: seq<T>, t: seq<T>) {
    |t| <= |s| && s[|s| - |t|..] == t
  }

  lemma LastOnesNest<T>(s: seq<T>, c: nat, d: nat)
    requires c <= d
    ensures EndsWith(LastOnes(s, d), LastOnes(s, c))
  {
  }

  /** On the same trace, a larger shard ends with everything a smaller one holds. */
  lemma LargerHoldsMore<K, V>(trace: seq<K>, load: K -> V, c: nat, d: nat)
    requires c <= d
    ensures EndsWith(Keys(Accesses(trace, load, d).items), Keys(Accesses(trace, load, c).items))
  {
    var r := Recency(trace);
    HoldsLastKeys(trace, load, c);
    HoldsLastKeys(trace, load, d);
    LastOnesNest(r, c, d);
    assert EndsWith(LastOnes(r, d), LastOnes(r, c));
  }
}
