/**
 * The iterator over the chunk cache (include/util/impl/LRUCacheIterator.hpp):
 * a key iterator over the recency list, the value map it reads through, a
 * bound `max` and a step count `ind`, both `size_t`. An iterator that has
 * taken `max` steps is exhausted, and any two exhausted iterators compare
 * equal; the default-constructed one (`max` 0, `ind` SIZE_MAX) is always
 * exhausted and serves as `end()`.
 */
module LruCacheIterators {
  import opened Ints
  import opened Options
  import opened ListNodes
  import opened HashListIterators
  import opened HashLists
  import opened LruCaches

  class LruCacheIterator<K(==), V> {
    /** The iterator's own key iterator: a copy, never shared with another iterator. */
    const keyItr: HashListIterator<K>
    /** The cache whose value map `Deref` reads; null for the default-constructed iterator. */
    var cache: LruCache?<K, V>
    var max: SizeT
    var ind: SizeT

    /** The bounded constructor: at most `length` steps before the iterator is exhausted. */
    constructor Bounded(itr: HashListIterator<K>, cache: LruCache?<K, V>, length: SizeT)
      ensures fresh(keyItr) && keyItr.node == itr.node
      ensures this.cache == cache && max == length && ind == 0
    {
      keyItr := new HashListIterator(itr.node);
      this.cache := cache;
      max := length;
      ind := 0;
    }

    /** The unbounded constructor: the bound is SIZE_MAX. */
    constructor (itr: HashListIterator<K>, cache: LruCache?<K, V>)
      ensures fresh(keyItr) && keyItr.node == itr.node
      ensures this.cache == cache && max == SIZE_MAX && ind == 0
    {
      keyItr := new HashListIterator(itr.node);
      this.cache := cache;
      max := SIZE_MAX;
      ind := 0;
    }

    /** The copy constructor. */
    constructor Copy(other: LruCacheIterator<K, V>)
      ensures fresh(keyItr) && keyItr.node == other.keyItr.node
      ensures cache == other.cache && max == other.max && ind == other.ind
    {
      keyItr := new HashListIterator(other.keyItr.node);
      cache := other.cache;
      max := other.max;
      ind := other.ind;
    }

    /** The default constructor: no cache, the end position, and exhausted from the start. */
    constructor Default()
      ensures fresh(keyItr) && keyItr.node == null
      ensures cache == null && max == 0 && ind == SIZE_MAX
    {
      keyItr := new HashListIterator.Default();
      cache := null;
      max := 0;
      ind := SIZE_MAX;
    }

    /** Copy assignment: takes over every field of `other`. */
    method Assign(other: LruCacheIterator<K, V>)
      modifies this, keyItr
      ensures keyItr.node == old(other.keyItr.node)
      ensures cache == old(other.cache) && max == old(other.max) && ind == old(other.ind)
    {
      keyItr.node := other.keyItr.node;
      cache := other.cache;
      max := other.max;
      ind := other.ind;
    }

    /** The iterator has taken as many steps as its bound allows. */
    predicate Exhausted()
      reads this
    {
      ind >= max
    }

    /** Prefix `++`: steps the key iterator and counts the step, wrapping as `size_t` does. */
    method Increment()
      modifies this, keyItr
      ensures keyItr.node == if old(keyItr.node) == null then null else old(keyItr.node.next)
      ensures ind == (old(ind) + 1) % SIZE_RANGE
      ensures cache == old(cache) && max == old(max)
    {
      keyItr.Increment();
      ind := (ind + 1) % SIZE_RANGE;
    }

    /** Postfix `++`: moves like prefix `++` and returns a copy of the prior position. */
    method PostIncrement() returns (prior: LruCacheIterator<K, V>)
      modifies this, keyItr
      ensures fresh(prior) && fresh(prior.keyItr)
      ensures prior.keyItr.node == old(keyItr.node) && prior.cache == old(cache)
      ensures prior.max == old(max) && prior.ind == old(ind)
      ensures keyItr.node == if old(keyItr.node) == null then null else old(keyItr.node.next)
      ensures ind == (old(ind) + 1) % SIZE_RANGE
      ensures cache == old(cache) && max == old(max)
    {
      prior := new LruCacheIterator.Copy(this);
      keyItr.Increment();
      ind := (ind + 1) % SIZE_RANGE;
    }

    /** Prefix `--`: steps the key iterator back and uncounts the step, wrapping below zero as `size_t` does. */
    method Decrement()
      modifies this, keyItr
      ensures keyItr.node == if old(keyItr.node) == null then null else old(keyItr.node.prev)
      ensures ind == ToSize(old(ind) - 1)
      ensures old(ind) == 0 ==> ind == SIZE_MAX
      ensures cache == old(cache) && max == old(max)
    {
      keyItr.Decrement();
      ind := ToSize(ind - 1);
    }

    /** Postfix `--`: moves like prefix `--` and returns a copy of the prior position. */
    method PostDecrement() returns (prior: LruCacheIterator<K, V>)
      modifies this, keyItr
      ensures fresh(prior) && fresh(prior.keyItr)
      ensures prior.keyItr.node == old(keyItr.node) && prior.cache == old(cache)
      ensures prior.max == old(max) && prior.ind == old(ind)
      ensures keyItr.node == if old(keyItr.node) == null then null else old(keyItr.node.prev)
      ensures ind == ToSize(old(ind) - 1)
      ensures cache == old(cache) && max == old(max)
    {
      prior := new LruCacheIterator.Copy(this);
      keyItr.Decrement();
      ind := ToSize(ind - 1);
    }

    /** `*it`: the value the map holds for the current key; the recency order is not touched. */
    function Deref(): (v: V)
      reads this, keyItr, cache
      requires cache != null && keyItr.node != null && keyItr.node.value in cache.valueCache
      ensures v == cache.valueCache[keyItr.node.value]
    {
      cache.valueCache[keyItr.node.value]
    }

    /** `==`: equal when both are exhausted, otherwise when the key iterators stand on the same node. */
    function Equals(other: LruCacheIterator<K, V>): (r: bool)
      reads this, other, keyItr, other.keyItr
      ensures r <==> (Exhausted() && other.Exhausted()) || keyItr.node == other.keyItr.node
    {
      if ind >= max && other.ind >= other.max then true else keyItr.Equals(other.keyItr)
    }
  }

  /** `begin()`: an unbounded iterator on the most recent key. */
  method Begin<K, V>(cache: LruCache<K, V>) returns (it: LruCacheIterator<K, V>)
    requires cache.Valid()
    ensures fresh(it) && fresh(it.keyItr)
    ensures it.keyItr.node == cache.keyCache.front && it.cache == cache && it.max == SIZE_MAX && it.ind == 0
  {
    var keys := cache.keyCache.Begin();
    it := new LruCacheIterator(keys, cache);
  }

  /** `begin_bounded(length)`: an iterator on the most recent key that stops after `length` steps. */
  method BeginBounded<K, V>(cache: LruCache<K, V>, length: SizeT) returns (it: LruCacheIterator<K, V>)
    requires cache.Valid()
    ensures fresh(it) && fresh(it.keyItr)
    ensures it.keyItr.node == cache.keyCache.front && it.cache == cache && it.max == length && it.ind == 0
  {
    var keys := cache.keyCache.Begin();
    it := new LruCacheIterator.Bounded(keys, cache, length);
  }

  /** `end()`: the default-constructed iterator. */
  method End<K, V>() returns (it: LruCacheIterator<K, V>)
    ensures fresh(it) && it.Exhausted() && it.keyItr.node == null && it.cache == null
  {
    it := new LruCacheIterator.Default();
  }

  /**
   * The loop of the iterator test: read and `++` from `begin()` until the
   * iterator equals `end()`. It yields the values of every listed key, most
   * recent first.
   */
  method CollectAll<K, V>(cache: LruCache<K, V>) returns (values: seq<V>)
    requires cache.Valid()
    ensures |values| == if |cache.keyCache.Keys| <= SIZE_MAX then |cache.keyCache.Keys| else SIZE_MAX
    ensures forall i :: 0 <= i < |values| ==> values[i] == cache.valueCache[cache.keyCache.Keys[i]]
  {
    var it := Begin(cache);
    values := Walk(cache, it);
  }

  /**
   * The bounded loop of the iterator test: from `begin_bounded(length)` to
   * `end()`. It yields the values of the `length` most recent keys (all of
   * them when fewer are listed), most recent first.
   */
  method CollectRecent<K, V>(cache: LruCache<K, V>, length: SizeT) returns (values: seq<V>)
    requires cache.Valid()
    ensures |values| == if length < |cache.keyCache.Keys| then length else |cache.keyCache.Keys|
    ensures forall i :: 0 <= i < |values| ==> values[i] == cache.valueCache[cache.keyCache.Keys[i]]
  {
    var it := BeginBounded(cache, length);
    values := Walk(cache, it);
  }

  /** Reads and advances a fresh iterator from the most recent key until it equals `end()`. */
  method Walk<K, V>(cache: LruCache<K, V>, it: LruCacheIterator<K, V>) returns (values: seq<V>)
    requires cache.Valid() && it !in cache.Repr && it.keyItr !in cache.Repr
    requires it.keyItr.node == cache.keyCache.front && it.cache == cache && it.ind == 0
    modifies it, it.keyItr
    ensures |values| == if old(it.max) < |cache.keyCache.Keys| then old(it.max) else |cache.keyCache.Keys|
    ensures forall i :: 0 <= i < |values| ==> values[i] == cache.valueCache[cache.keyCache.Keys[i]]
  {
    ghost var keys := cache.keyCache.Keys;
    ghost var nodes := cache.keyCache.Nodes;
    var stop := End<K, V>();
    values := [];
    while !it.Equals(stop)
      invariant it.cache == cache && it.max == old(it.max)
      invariant stop.Exhausted() && stop.keyItr.node == null
      invariant it.ind == |values| <= |keys| && |values| <= it.max
      invariant it.keyItr.node == if |values| < |keys| then nodes[|values|] else null
      invariant forall i :: 0 <= i < |values| ==> values[i] == cache.valueCache[keys[i]]
      decreases |keys| - |values|
    {
      ghost var n := |values|;
      assert nodes[n].value == keys[n] && keys[n] in cache.valueCache;
      values := values + [it.Deref()];
      it.Increment();
    }
  }
}
