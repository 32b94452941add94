/** The single-key LRU cache of modules/lru_cache.py, repeated verbatim as
    the `LRUCache` class of hot_cold_simulation.py: a `get` hit moves the key
    to the most-recent end; `put(key)` evicts the oldest entry whenever the
    cache already holds `capacity` entries, then stores the key without
    moving it if it is still resident. */
module RecencyLru {
  import opened Common
  import opened OrderedDict

  datatype Cache<K> = Cache(capacity: int, entries: seq<Entry<K, K>>)

  /** `LRUCache(capacity)`. */
  function Empty<K>(capacity: int): Cache<K> {
    Cache(capacity, [])
  }

  /** `current_state()`: resident keys, least recently used first. */
  function State<K(!new)>(c: Cache<K>): seq<K> {
    Keys(c.entries)
  }

  predicate Valid<K(==,!new)>(c: Cache<K>) {
    OrderedDict.Valid(c.entries) && SelfValued(c.entries)
  }

  /** The keys still resident after `put`'s capacity check. */
  function Survivors<K(!new)>(c: Cache<K>): seq<K> {
    AfterBoundCheck(c.entries, c.capacity)
  }

  /** `get(key)`: None stands for Python's -1. A hit moves the key to the
      back; the returned cache is the object's state afterwards. */
  function Get<K(==,!new)>(c: Cache<K>, k: K): (r: (Option<K>, Cache<K>))
    ensures r.0.None? <==> k !in State(c)
    ensures r.0.None? ==> r.1 == c
    ensures r.0.Some? ==> State(r.1) == Without(State(c), k) + [k]
    ensures Valid(c) && r.0.Some? ==> r.0.value == k
    ensures Valid(c) ==> Valid(r.1)
    ensures r.1.capacity == c.capacity
  {
    var v := Find(c.entries, k);
    if v.None? then (None, c)
    else
      var moved := MoveToEnd(c.entries, k);
      (if Valid(c) then MoveToEndSelfValued(c.entries, k); (v, Cache(c.capacity, moved))
       else (v, Cache(c.capacity, moved)))
  }

  /** `put(key)`: returns the key. With capacity <= 0 the first `put` into
      an empty cache pops from an empty dict and raises KeyError. */
  function Put<K(==,!new)>(c: Cache<K>, k: K): (r: Result<(Cache<K>, K)>)
    ensures r.Err? <==> c.entries == [] && c.capacity <= 0
    ensures r.Ok? ==> r.value.1 == k && r.value.0.capacity == c.capacity
    ensures r.Ok? ==> k in State(r.value.0)
    ensures r.Ok? ==> State(r.value.0) == if k in Survivors(c) then Survivors(c) else Survivors(c) + [k]
    ensures c.capacity >= 1 && |State(c)| <= c.capacity ==> r.Ok? && |State(r.value.0)| <= c.capacity
    ensures r.Ok? && Valid(c) ==> Valid(r.value.0)
  {
    var stored := StoreBounded(c.entries, c.capacity, k);
    if stored.Err? then Err(stored.error)
    else
      (if Valid(c) then StoreBoundedValid(c.entries, c.capacity, k); Ok((Cache(c.capacity, stored.value), k))
       else Ok((Cache(c.capacity, stored.value), k)))
  }

  /** A `get` hit protects the key from the very next eviction: it is now
      the most recent entry, so a `put` of another key pops something else. */
  lemma HitSurvivesNextPut<K(!new)>(c: Cache<K>, k: K, x: K)
    requires Valid(c) && c.capacity >= 2 && |State(c)| <= c.capacity
    requires k in State(c) && x != k
    ensures Put(Get(c, k).1, x).Ok?
    ensures k in State(Put(Get(c, k).1, x).value.0)
  {
    var c1 := Get(c, k).1;
    WithoutFacts(State(c), k);
    assert Last(State(c1)) == k;
    if |c1.entries| >= c1.capacity {
      assert State(c1)[0] != k by {
        assert State(c1)[0] != State(c1)[|State(c1)| - 1];
      }
      assert k in State(c1)[1..] by {
        assert State(c1)[1..][|State(c1)| - 2] == k;
      }
    }
  }

  /** The operations a caller can apply to one cache object. */
  datatype Op<K> = Lookup(key: K) | Store(key: K)

  /** The cache after a sequence of calls (results discarded). */
  function Apply<K(==,!new)>(c: Cache<K>, ops: seq<Op<K>>): Result<Cache<K>>
    decreases |ops|
  {
    if ops == [] then Ok(c)
    else match ops[0]
      case Lookup(k) => Apply(Get(c, k).1, ops[1..])
      case Store(k) =>
        var r := Put(c, k);
        if r.Err? then Err(r.error) else Apply(r.value.0, ops[1..])
  }

  /** From a cache within its capacity (for instance a new one) no sequence
      of `get` and `put` calls fails or exceeds the capacity. */
  lemma {:induction false} ApplyStaysBounded<K(!new)>(c: Cache<K>, ops: seq<Op<K>>)
    requires c.capacity >= 1 && |State(c)| <= c.capacity && Valid(c)
    ensures Apply(c, ops).Ok?
    ensures |State(Apply(c, ops).value)| <= c.capacity
    ensures Valid(Apply(c, ops).value)
    decreases |ops|
  {
    if ops != [] {
      match ops[0]
      case Lookup(k) =>
        var c1 := Get(c, k).1;
        if k in State(c) {
          WithoutFacts(State(c), k);
        }
        ApplyStaysBounded(c1, ops[1..]);
      case Store(k) =>
        ApplyStaysBounded(Put(c, k).value.0, ops[1..]);
    }
  }
}
