/** The least-recently-used response cache of app/cache/cache.py: an ordered dictionary
    from address to /check answer whose oldest key is the least recently used one. */
module Cache {
  import opened Common
  import opened OrderedMap
  import opened Models

  type Key = string
  type Value = CheckEndpointResponse
  type Dict = ODict<Key, Value>

  /** The default arguments of `get_instance`. */
  const DefaultCapacity: int := 100
  const DefaultPurgeInterval: Option<int> := None

  /** The dictionary after `set(key, value)`: item assignment, then, if the dictionary
      holds more keys than `capacity`, removal of its single oldest key. */
  function AfterSet(d: Dict, capacity: int, key: Key, value: Value): (r: Dict)
    requires Valid(d)
    ensures Valid(r)
  {
    var put := Put(d, key, value);
    if |put.keys| > capacity then PopFirst(put) else put
  }

  /** Right after `set(key, value)`, `get(key)` returns `value`, unless the capacity is 0
      or negative, where a new key is evicted by its own insertion (and the dictionary is
      then always empty). */
  lemma SetThenGet(d: Dict, capacity: int, key: Key, value: Value)
    requires Valid(d) && |d.keys| <= (if capacity < 0 then 0 else capacity)
    ensures OrderedMap.Get(AfterSet(d, capacity, key, value), key)
            == if capacity <= 0 then None else Some(value)
  {
    var put := Put(d, key, value);
    if key !in d.vals && |put.keys| > capacity && |d.keys| > 0 {
      assert put.keys[0] == d.keys[0];
    }
  }

  /** `set` evicts at most one key, and only the oldest one; it keeps the size within the
      capacity once the size is within it. */
  lemma SetEvictsAtMostOldest(d: Dict, capacity: int, key: Key, value: Value)
    requires Valid(d)
    ensures var r := AfterSet(d, capacity, key, value);
            var put := Put(d, key, value);
            && (r.keys == put.keys || r.keys == put.keys[1..])
            && (forall k :: k in d.vals && k !in r.vals ==> k == d.keys[0])
            && (0 <= |d.keys| <= capacity ==> |r.keys| <= capacity)
  {
    var put := Put(d, key, value);
    if key !in d.vals && |d.keys| > 0 {
      assert put.keys[0] == d.keys[0];
    }
  }

  /** Writing to a present key changes its value but not its position; a new key is
      appended as the newest, after which the oldest key is dropped on overflow. */
  lemma SetPosition(d: Dict, capacity: int, key: Key, value: Value)
    requires Valid(d)
    ensures var r := AfterSet(d, capacity, key, value);
            && (key in d.vals && |d.keys| <= capacity ==> r.keys == d.keys && r.vals == d.vals[key := value])
            && (key !in d.vals ==> r.keys == if |d.keys| + 1 > capacity then (d.keys + [key])[1..] else d.keys + [key])
  {
  }

  /** The keys of a sequence of `set` calls, in call order. */
  function KeysOf(entries: seq<(Key, Value)>): (ks: seq<Key>)
    ensures |ks| == |entries|
    ensures forall i :: 0 <= i < |entries| ==> ks[i] == entries[i].0
  {
    seq(|entries|, i requires 0 <= i < |entries| => entries[i].0)
  }

  /** The dictionary after calling `set` once per entry, in order. */
  function SetAll(d: Dict, capacity: int, entries: seq<(Key, Value)>): (r: Dict)
    requires Valid(d)
    ensures Valid(r)
    decreases |entries|
  {
    if |entries| == 0 then d
    else
      var last := entries[|entries| - 1];
      AfterSet(SetAll(d, capacity, entries[..|entries| - 1]), capacity, last.0, last.1)
  }

  /** Up to `capacity` distinct keys set into an empty cache are all kept, in call order. */
  lemma {:induction false} FillUpToCapacity(capacity: int, entries: seq<(Key, Value)>)
    requires |entries| <= capacity && NoDuplicates(KeysOf(entries))
    ensures SetAll(Empty(), capacity, entries).keys == KeysOf(entries)
  {
    if |entries| > 0 {
      var n := |entries| - 1;
      var prefix := entries[..n];
      assert KeysOf(prefix) == KeysOf(entries)[..n];
      FillUpToCapacity(capacity, prefix);
      var before := SetAll(Empty(), capacity, prefix);
      assert entries[n].0 !in before.keys by {
        forall i | 0 <= i < n ensures before.keys[i] != entries[n].0 {
          assert KeysOf(entries)[i] == before.keys[i];
        }
      }
      assert KeysOf(entries) == KeysOf(prefix) + [entries[n].0];
    }
  }

  /** Setting `capacity + 1` distinct keys into an empty cache evicts exactly the first of
      them (101 keys into a cache of capacity 100 lose the key set first). */
  lemma {:induction false} OverflowEvictsFirst(capacity: int, entries: seq<(Key, Value)>)
    requires 0 <= capacity && |entries| == capacity + 1 && NoDuplicates(KeysOf(entries))
    ensures SetAll(Empty(), capacity, entries).keys == KeysOf(entries)[1..]
    ensures OrderedMap.Get(SetAll(Empty(), capacity, entries), entries[0].0) == None
  {
    var n := |entries| - 1;
    var prefix := entries[..n];
    assert KeysOf(prefix) == KeysOf(entries)[..n];
    assert NoDuplicates(KeysOf(prefix)) by {
      forall i, j | 0 <= i < j < n ensures KeysOf(prefix)[i] != KeysOf(prefix)[j] {
        assert KeysOf(prefix)[i] == KeysOf(entries)[i] && KeysOf(prefix)[j] == KeysOf(entries)[j];
      }
    }
    FillUpToCapacity(capacity, prefix);
    var before := SetAll(Empty(), capacity, prefix);
    assert entries[n].0 !in before.keys by {
      forall i | 0 <= i < n ensures before.keys[i] != entries[n].0 {
        assert KeysOf(entries)[i] == before.keys[i];
      }
    }
    assert KeysOf(entries) == KeysOf(prefix) + [entries[n].0];
    var r := SetAll(Empty(), capacity, entries);
    assert r.keys == (before.keys + [entries[n].0])[1..];
    assert entries[0].0 == KeysOf(entries)[0];
    assert entries[0].0 !in r.keys by {
      forall i | 0 <= i < |r.keys| ensures r.keys[i] != entries[0].0 {
        assert r.keys[i] == KeysOf(entries)[i + 1];
      }
    }
  }

  /** One cache instance (`LRUCache`). */
  class LruCache {
    var cache: Dict
    var capacity: int
    var purgeInterval: Option<int>
    var stopPurge: bool

    ghost predicate Valid()
      reads this
    {
      OrderedMap.Valid(cache)
    }

    /** `__init__`: an empty dictionary and a purge loop that has not been told to stop. A
        purge interval that is present means the periodic purge task was started. */
    constructor (capacity: int, purgeInterval: Option<int>)
      ensures Valid() && cache == Empty()
      ensures this.capacity == capacity && this.purgeInterval == purgeInterval && !stopPurge
    {
      cache := Empty();
      this.capacity := capacity;
      this.purgeInterval := purgeInterval;
      stopPurge := false;
    }

    /** `get`: a miss returns None and changes nothing, not even the order; a hit returns
        the stored value and makes the key the newest. */
    method Get(key: Key) returns (r: Option<Value>)
      requires Valid()
      modifies this`cache
      ensures Valid()
      ensures key !in old(cache.vals) ==> r == None && cache == old(cache)
      ensures key in old(cache.vals) ==>
                && r == Some(old(cache.vals[key]))
                && cache == MoveToEnd(old(cache), key)
                && cache.vals == old(cache.vals)
                && cache.keys[|cache.keys| - 1] == key
    {
      if key !in cache.vals {
        return None;
      }
      cache := MoveToEnd(cache, key);
      return Some(cache.vals[key]);
    }

    /** `set`: assigns the value, then evicts the oldest key if over capacity. */
    method Set(key: Key, value: Value)
      requires Valid()
      modifies this`cache
      ensures Valid()
      ensures cache == AfterSet(old(cache), capacity, key, value)
    {
      cache := Put(cache, key, value);
      if |cache.keys| > capacity {
        cache := PopFirst(cache);
      }
    }

    /** `clear_cache`: every key is dropped; the purge flag is left alone. */
    method ClearCache()
      requires Valid()
      modifies this`cache
      ensures Valid() && cache == Empty()
    {
      cache := Empty();
    }

    /** One turn of the `periodic_purge` loop: the stop flag is read at the head of the
        loop; if it is not set, the loop sleeps and then empties the dictionary. The loop
        runs only on an instance built with a purge interval. */
    method PurgeStep() returns (purged: bool)
      requires Valid() && purgeInterval.Some?
      modifies this`cache
      ensures Valid()
      ensures purged == !stopPurge
      ensures cache == if purged then Empty() else old(cache)
    {
      if stopPurge {
        return false;
      }
      cache := Empty();
      return true;
    }

    /** `stop_purge`: sets the flag and nothing else; calling it again changes nothing. */
    method StopPurge()
      modifies this`stopPurge
      ensures stopPurge
    {
      stopPurge := true;
    }
  }

  /** The class-level singleton slot `LRUCache._instance`. */
  class CacheRegistry {
    var instance: LruCache?

    ghost predicate Valid()
      reads this, instance
    {
      instance != null ==> instance.Valid()
    }

    constructor ()
      ensures Valid() && instance == null
    {
      instance := null;
    }

    /** `get_instance`: builds a new cache only when the slot is empty; otherwise returns
        the cache in the slot and ignores its arguments. */
    method GetInstance(capacity: int, purgeInterval: Option<int>) returns (c: LruCache)
      requires Valid()
      modifies this
      ensures Valid() && instance == c && c.Valid()
      ensures old(instance) != null ==> c == old(instance)
      ensures old(instance) == null ==>
                && fresh(c) && c.cache == Empty()
                && c.capacity == capacity && c.purgeInterval == purgeInterval && !c.stopPurge
    {
      if instance == null {
        instance := new LruCache(capacity, purgeInterval);
      }
      c := instance;
    }

    /** `delete_instance`: empties the slot. The cache that was in it is not touched. */
    method DeleteInstance()
      modifies this
      ensures instance == null
    {
      instance := null;
    }
  }
}
