/**
 * The chunk cache (include/util/LRUCache.hpp): a recency list of keys, kept
 * in a `HashList` with the most recent key at the front, beside a map from
 * key to value and a capacity.
 *
 * Eviction pops the least recent key from the list but leaves its value in
 * the map. So the map may hold keys that are no longer listed, a later `Put`
 * of such a key reports `Overwrite` with the stale value and skips the
 * capacity test, and the list can then grow past the capacity. What stays
 * true is that every listed key has a value (`Coherent`).
 */
module LruCaches {
  import opened Options
  import opened KeyOrder
  import opened HashLists

  /** The three outcomes of `Put`. */
  datatype CachePutResult = RemoveLast | Overwrite | Success

  /** The abstract state of a cache: the recency order (most recent first), the value map and the capacity. */
  datatype CacheState<K, V> = CacheState(keys: seq<K>, values: map<K, V>, capacity: int)

  /** What the cache keeps true: the listed keys are distinct and each has a value, and the capacity is at least one. */
  ghost predicate Coherent<K, V>(s: CacheState<K, V>)
  {
    && Distinct(s.keys)
    && (forall i :: 0 <= i < |s.keys| ==> s.keys[i] in s.values)
    && s.capacity >= 1
  }

  /** `Put(key, _)` pops the back key when the key has no value and pushing it made the list longer than the capacity. */
  predicate Evicts<K(==), V>(s: CacheState<K, V>, key: K)
  {
    key !in s.values && |MoveToFront(s.keys, key)| > s.capacity
  }

  /** The state after `Put(key, value)`. */
  function PutState<K(==), V>(s: CacheState<K, V>, key: K, value: V): (r: CacheState<K, V>)
    ensures r.capacity == s.capacity
    ensures key in r.values && r.values[key] == value
  {
    var pushed := MoveToFront(s.keys, key);
    CacheState(if Evicts(s, key) then pushed[..|pushed| - 1] else pushed, s.values[key := value], s.capacity)
  }

  /**
   * What `Put(key, _)` returns, with the value it writes to its output
   * (`None` when it writes nothing): the replaced value, or the value of the
   * key it popped from the back.
   */
  function PutReport<K(==), V>(s: CacheState<K, V>, key: K): (r: (CachePutResult, Option<V>))
    requires Coherent(s)
    ensures r.0 == Overwrite <==> key in s.values
    ensures r.0 == Overwrite ==> r.1 == Some(s.values[key])
    ensures r.1.None? <==> r.0 == Success
  {
    var pushed := MoveToFront(s.keys, key);
    if key in s.values then (Overwrite, Some(s.values[key]))
    else if Evicts(s, key) then
      PutEvictsLeastRecent(s, key);
      (RemoveLast, Some(s.values[pushed[|pushed| - 1]]))
    else (Success, None)
  }

  /** The state after `Fetch(key)`: a listed key moves to the front; otherwise nothing changes. */
  function FetchState<K(==), V>(s: CacheState<K, V>, key: K): (r: CacheState<K, V>)
    ensures r.values == s.values && r.capacity == s.capacity
  {
    if key in s.keys then s.(keys := MoveToFront(s.keys, key)) else s
  }

  /** What `Fetch(key)` writes to its output: the value of a listed key, nothing for any other. */
  ghost function FetchReport<K, V>(s: CacheState<K, V>, key: K): (r: Option<V>)
    requires Coherent(s)
    ensures r.Some? <==> key in s.keys
    ensures r.Some? ==> key in s.values && r.value == s.values[key]
  {
    if key in s.keys then
      var i :| 0 <= i < |s.keys| && s.keys[i] == key;
      Some(s.values[key])
    else None
  }

  /** Under `Coherent`, a listed key has a value. */
  lemma ListedHasValue<K, V>(s: CacheState<K, V>, key: K)
    requires Coherent(s) && key in s.keys
    ensures key in s.values
  {
    var j :| 0 <= j < |s.keys| && s.keys[j] == key;
  }

  /** Under `Coherent`, a key without a value is not listed. */
  lemma UnvaluedIsUnlisted<K, V>(s: CacheState<K, V>, key: K)
    requires Coherent(s) && key !in s.values
    ensures key !in s.keys
  {
    forall j | 0 <= j < |s.keys| ensures s.keys[j] != key {
      assert s.keys[j] in s.values;
    }
  }

  /** `Put` keeps the cache coherent. */
  lemma PutKeepsCoherent<K, V>(s: CacheState<K, V>, key: K, value: V)
    requires Coherent(s)
    ensures Coherent(PutState(s, key, value))
  {
    var pushed := MoveToFront(s.keys, key);
    var t := PutState(s, key, value);
    MoveToFrontFacts(s.keys, key);
    MoveToFrontRest(s.keys, key);
    forall i | 0 <= i < |t.keys| ensures t.keys[i] in t.values {
      assert t.keys[i] == pushed[i];
      if i > 0 {
        ListedHasValue(s, pushed[i]);
      }
    }
    if Evicts(s, key) {
      DistinctPrefix(pushed, |pushed| - 1);
    }
  }

  /** After any `Put` the key is the most recent one and maps to the new value. */
  lemma PutPromotes<K, V>(s: CacheState<K, V>, key: K, value: V)
    requires Coherent(s)
    ensures |PutState(s, key, value).keys| > 0
    ensures PutState(s, key, value).keys[0] == key
    ensures PutState(s, key, value).values[key] == value
  {
    MoveToFrontFacts(s.keys, key);
    if Evicts(s, key) {
      var pushed := MoveToFront(s.keys, key);
      UnvaluedIsUnlisted(s, key);
      assert |pushed| >= 2;
    }
  }

  /**
   * `Put` of a key that has a value, listed or not, reports `Overwrite` with
   * the value it replaces and pops nothing: every key listed before is still
   * listed.
   */
  lemma PutOverwrites<K, V>(s: CacheState<K, V>, key: K, value: V)
    requires Coherent(s) && key in s.values
    ensures PutReport(s, key) == (Overwrite, Some(s.values[key]))
    ensures PutState(s, key, value).keys == MoveToFront(s.keys, key)
    ensures forall x :: x in s.keys ==> x in PutState(s, key, value).keys
  {
    MoveToFrontFacts(s.keys, key);
  }

  /**
   * For a key without a value, `Put` pops exactly when the list is already at
   * or above capacity. It then pops the least recent key, reports
   * `RemoveLast` with that key's value, and lists the new key in front of all
   * the others. The popped key is never the new one, and its value stays in
   * the map.
   */
  lemma PutEvictsLeastRecent<K, V>(s: CacheState<K, V>, key: K)
    requires Coherent(s) && key !in s.values
    ensures Evicts(s, key) <==> |s.keys| >= s.capacity
    ensures Evicts(s, key) ==> |s.keys| > 0
    ensures Evicts(s, key) ==>
            var pushed := MoveToFront(s.keys, key);
            pushed[..|pushed| - 1] == [key] + s.keys[..|s.keys| - 1]
            && pushed[|pushed| - 1] == s.keys[|s.keys| - 1]
    ensures Evicts(s, key) ==>
            var last := s.keys[|s.keys| - 1];
            last != key && last !in [key] + s.keys[..|s.keys| - 1] && last in s.values
  {
    var n := |s.keys|;
    UnvaluedIsUnlisted(s, key);
    WithoutAbsent(s.keys, key);
    var pushed := MoveToFront(s.keys, key);
    assert pushed == [key] + s.keys;
    if n >= s.capacity {
      assert pushed[..|pushed| - 1] == [key] + s.keys[..n - 1];
      var front := s.keys[..n - 1];
      forall j | 0 <= j < |front| ensures front[j] != s.keys[n - 1] {
        assert front[j] == s.keys[j];
      }
    }
  }

  /** `Put` of a key without a value into a list below capacity reports `Success` and pops nothing. */
  lemma PutSucceeds<K, V>(s: CacheState<K, V>, key: K, value: V)
    requires Coherent(s) && key !in s.values && |s.keys| < s.capacity
    ensures PutReport(s, key) == (Success, None)
    ensures PutState(s, key, value).keys == [key] + s.keys
  {
    UnvaluedIsUnlisted(s, key);
    WithoutAbsent(s.keys, key);
  }

  /**
   * The capacity holds after a `Put` as long as it held before and the key
   * is not a popped key whose value was left behind.
   */
  lemma PutWithinCapacity<K, V>(s: CacheState<K, V>, key: K, value: V)
    requires Coherent(s) && |s.keys| <= s.capacity
    requires key in s.values ==> key in s.keys
    ensures |PutState(s, key, value).keys| <= s.capacity
  {
    MoveToFrontFacts(s.keys, key);
  }

  /**
   * Capacity one: put k1, then k2 (which pops k1 but keeps its value), then
   * k1 again. The last `Put` reports `Overwrite` with the stale value of k1
   * and leaves two keys listed.
   */
  lemma {:induction false} StaleOverwrite<K, V>(k1: K, k2: K, v1: V, v2: V, v3: V)
    requires k1 != k2
    ensures var s0: CacheState<K, V> := CacheState([], map[], 1);
            var s1 := PutState(s0, k1, v1);
            var s2 := PutState(s1, k2, v2);
            && Coherent(s1) && Coherent(s2)
            && PutReport(s1, k2) == (RemoveLast, Some(v1))
            && PutReport(s2, k1) == (Overwrite, Some(v1))
            && PutState(s2, k1, v3).keys == [k1, k2]
  {
    var s0: CacheState<K, V> := CacheState([], map[], 1);
    PutSucceeds(s0, k1, v1);
    PutKeepsCoherent(s0, k1, v1);
    var s1 := PutState(s0, k1, v1);
    assert s1.keys == [k1];
    PutEvictsLeastRecent(s1, k2);
    var s2 := PutState(s1, k2, v2);
    assert s2.keys == [k2];
    PutKeepsCoherent(s1, k2, v2);
    PutOverwrites(s2, k1, v3);
    assert Without([k2], k1) == [k2];
  }

  /** A `Fetch` keeps the cache coherent, and fetching the same key twice is the same as fetching it once. */
  lemma FetchTwice<K, V>(s: CacheState<K, V>, key: K)
    requires Coherent(s)
    ensures Coherent(FetchState(s, key))
    ensures FetchState(FetchState(s, key), key) == FetchState(s, key)
    ensures FetchReport(FetchState(s, key), key) == FetchReport(s, key)
  {
    MoveToFrontFacts(s.keys, key);
    MoveToFrontRest(s.keys, key);
    if key in s.keys {
      var t := FetchState(s, key);
      forall i | 0 <= i < |t.keys| ensures t.keys[i] in t.values {
        if i > 0 {
          ListedHasValue(s, t.keys[i]);
        }
      }
      assert t.keys[0] == key;
    }
  }

  class LruCache<K(==), V> {
    const keyCache: HashList<K>
    var valueCache: map<K, V>
    var capacity: int

    ghost var Repr: set<object>

    /** The abstract state. */
    ghost function State(): CacheState<K, V>
      reads this, keyCache
    {
      CacheState(keyCache.Keys, valueCache, capacity)
    }

    ghost predicate Valid()
      reads this, Repr
    {
      && this in Repr && keyCache in Repr && keyCache.Repr <= Repr && this !in keyCache.Repr
      && keyCache.Valid()
      && Coherent(State())
    }

    /** A capacity below one would let `Put` pop the key it just pushed, which the source asserts cannot happen. */
    constructor (capacity: int)
      requires capacity >= 1
      ensures Valid() && fresh(Repr)
      ensures State() == CacheState([], map[], capacity)
    {
      keyCache := new HashList();
      valueCache := map[];
      this.capacity := capacity;
      new;
      Repr := {this} + keyCache.Repr;
    }

    /**
     * Pushes the key to the front, then: a key with a value gets
     * `Overwrite`; otherwise a list longer than the capacity loses its back
     * key, with `RemoveLast`. The new value is stored in every case.
     */
    method Put(key: K, value: V) returns (res: CachePutResult, output: Option<V>)
      requires Valid()
      modifies Repr
      ensures Valid() && fresh(Repr - old(Repr))
      ensures State() == PutState(old(State()), key, value)
      ensures (res, output) == PutReport(old(State()), key)
    {
      ghost var s := State();
      res := Success;
      output := None;
      keyCache.PushFront(key);
      Repr := Repr + keyCache.Repr;
      if key in valueCache {
        output := Some(valueCache[key]);
        res := Overwrite;
      } else if keyCache.Size() > capacity {
        PutEvictsLeastRecent(s, key);
        var last := keyCache.PopBack();
        output := Some(valueCache[last.value]);
        res := RemoveLast;
      }
      valueCache := valueCache[key := value];
      PutKeepsCoherent(s, key, value);
    }

    /** The two-argument `Put`: the same update, with the result and the output discarded. */
    method PutDiscard(key: K, value: V)
      requires Valid()
      modifies Repr
      ensures Valid() && fresh(Repr - old(Repr))
      ensures State() == PutState(old(State()), key, value)
    {
      var _, _ := Put(key, value);
    }

    /** On a listed key: moves it to the front and outputs its value. Otherwise changes nothing. */
    method Fetch(key: K) returns (output: Option<V>)
      requires Valid()
      modifies Repr
      ensures Valid() && fresh(Repr - old(Repr))
      ensures State() == FetchState(old(State()), key)
      ensures output == FetchReport(old(State()), key)
    {
      ghost var s := State();
      FetchTwice(s, key);
      if keyCache.Contains(key) {
        ghost var i :| 0 <= i < |s.keys| && s.keys[i] == key;
        keyCache.PushFront(key);
        Repr := Repr + keyCache.Repr;
        output := Some(valueCache[key]);
      } else {
        output := None;
      }
    }

    /** Membership in the recency list; a function, so it reorders nothing. */
    function Has(key: K): (r: bool)
      reads Repr
      requires Valid()
      ensures r <==> key in State().keys
    {
      keyCache.Contains(key)
    }

    /** Raises the capacity to `newCapacity`; never lowers it. */
    method Reserve(newCapacity: int)
      requires Valid()
      modifies this`capacity
      ensures Valid()
      ensures capacity >= old(capacity) && capacity >= newCapacity
      ensures capacity == old(capacity) || capacity == newCapacity
      ensures State() == old(State()).(capacity := capacity)
    {
      if capacity < newCapacity {
        capacity := newCapacity;
      }
    }

    function Capacity(): (c: int)
      reads this, Repr
      requires Valid()
      ensures c == State().capacity && c >= 1
    {
      capacity
    }
  }

  /**
   * The same three puts on a cache object, as the class runs them: the third
   * `Put` reports `Overwrite` with the value of a key that was popped, and
   * the list ends longer than the capacity.
   */
  method StaleOverwriteOnCache() returns (res: CachePutResult, output: Option<int>, listed: nat, capacity: int)
    ensures res == Overwrite && output == Some(10) && listed == 2 && capacity == 1
  {
    var k1, k2, v1, v2, v3 := 1, 2, 10, 20, 30;
    var cache := new LruCache<int, int>(1);
    StaleOverwrite(k1, k2, v1, v2, v3);
    ghost var s0 := cache.State();
    var _, _ := cache.Put(k1, v1);
    ghost var s1 := cache.State();
    assert s1 == PutState(s0, k1, v1);
    var _, _ := cache.Put(k2, v2);
    ghost var s2 := cache.State();
    assert s2 == PutState(s1, k2, v2);
    res, output := cache.Put(k1, v3);
    assert cache.State() == PutState(s2, k1, v3);
    listed := cache.keyCache.Size();
    capacity := cache.Capacity();
  }

}
