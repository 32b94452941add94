/** The list-taking LRU cache of hot_cold_simulation/modules/lru_cache.py.
    `get` is a pure lookup; `put(keys)` stores the keys of the list one by
    one, and before each one removes the oldest entry whenever the cache
    already holds `capacity` entries (even when the key is resident). */
module BatchLru {
  import opened Common
  import opened OrderedDict

  datatype Cache<K> = Cache(capacity: int, entries: seq<Entry<K, K>>)

  /** `LRUCache(capacity)`. */
  function Empty<K>(capacity: int): Cache<K> {
    Cache(capacity, [])
  }

  /** `current_state()`: resident keys, oldest first. */
  function State<K(!new)>(c: Cache<K>): seq<K> {
    Keys(c.entries)
  }

  /** No key twice, and every stored value is its own key. */
  predicate Valid<K(==,!new)>(c: Cache<K>) {
    OrderedDict.Valid(c.entries) && SelfValued(c.entries)
  }

  /** The keys still resident after the capacity check made before a key
      is stored. */
  function Survivors<K(!new)>(c: Cache<K>): seq<K> {
    AfterBoundCheck(c.entries, c.capacity)
  }

  /** `get(key)`: the stored value, or None for Python's -1. */
  function Get<K(==,!new)>(c: Cache<K>, k: K): (r: Option<K>)
    ensures r.None? <==> k !in State(c)
    ensures Valid(c) && r.Some? ==> r.value == k
  {
    Find(c.entries, k)
  }

  /** One iteration of the loop in `put`: evict when full, then
      `cache[key] = key` and `move_to_end(key)`. Popping from an empty
      dict (capacity <= 0) raises KeyError. */
  function PutKey<K(==,!new)>(c: Cache<K>, k: K): (r: Result<Cache<K>>)
    ensures r.Err? <==> c.entries == [] && c.capacity <= 0
    ensures r.Ok? ==> r.value.capacity == c.capacity
    ensures r.Ok? ==> State(r.value) == Without(Survivors(c), k) + [k]
    ensures r.Ok? ==> forall x :: x in State(r.value) ==> x in State(c) || x == k
    ensures c.capacity >= 1 && |State(c)| <= c.capacity ==> r.Ok? && |State(r.value)| <= c.capacity
  {
    var stored := StoreAtEnd(c.entries, c.capacity, k, k);
    if stored.Err? then Err(stored.error) else Ok(Cache(c.capacity, stored.value))
  }

  lemma PutKeyValid<K(!new)>(c: Cache<K>, k: K)
    requires Valid(c) && PutKey(c, k).Ok?
    ensures Valid(PutKey(c, k).value)
  {
    var d := PutKey(c, k).value.entries;
    StoreAtEndValid(c.entries, c.capacity, k, k);
    forall x | x in Keys(d) ensures Find(d, x) == Some(x) {
      if x != k {
        assert x in Survivors(c);
        StoreAtEndOthers(c.entries, c.capacity, k, k, x);
      }
    }
  }

  /** `put(keys)`. */
  function Put<K(==,!new)>(c: Cache<K>, keys: seq<K>): (r: Result<Cache<K>>)
    ensures keys == [] ==> r == Ok(c)
    ensures c.capacity >= 1 ==> r.Ok?
    ensures r.Ok? ==> r.value.capacity == c.capacity
    ensures r.Ok? && keys != [] ==> |State(r.value)| > 0 && Last(State(r.value)) == Last(keys)
    ensures r.Ok? ==> forall x :: x in State(r.value) ==> x in State(c) || x in keys
    ensures c.capacity >= 1 && |State(c)| <= c.capacity ==> r.Ok? && |State(r.value)| <= c.capacity
    decreases |keys|
  {
    if keys == [] then Ok(c)
    else
      var step := PutKey(c, keys[0]);
      if step.Err? then Err(step.error)
      else
        assert |keys| > 1 ==> Last(keys[1..]) == Last(keys);
        assert forall x :: x in keys[1..] ==> x in keys;
        Put(step.value, keys[1..])
  }

  /** Neither `get` nor `put` breaks the dict: no duplicate keys, every
      value equal to its key. */
  lemma {:induction false} PutValid<K(!new)>(c: Cache<K>, keys: seq<K>)
    requires Valid(c) && Put(c, keys).Ok?
    ensures Valid(Put(c, keys).value)
    decreases |keys|
  {
    if keys != [] {
      PutKeyValid(c, keys[0]);
      PutValid(PutKey(c, keys[0]).value, keys[1..]);
    }
  }

  /** Re-putting a resident key (other than the oldest) into a full cache
      still evicts the oldest entry, so the cache ends one below capacity. */
  lemma RePutShrinks<K(!new)>(c: Cache<K>, k: K)
    requires Valid(c) && |State(c)| == c.capacity && |State(c)| > 0 && k in State(c)[1..]
    ensures Put(c, [k]).Ok?
    ensures |State(Put(c, [k]).value)| == c.capacity - 1
  {
    var r := PutKey(c, k);
    assert Put(c, [k]) == Put(r.value, []);
    DistinctTail(State(c));
    WithoutFacts(State(c)[1..], k);
  }

  lemma NewestOfSuffix<T>(u: seq<T>, t: seq<T>, n: nat)
    requires u == [] || |t| >= n
    ensures Newest(u + t, n) == Newest(t, n)
  {
    if u != [] {
      assert (u + t)[|u + t| - n..] == t[|t| - n..];
    }
  }

  lemma DistinctSuffix<T>(s: seq<T>, i: nat)
    requires Distinct(s) && i <= |s|
    ensures Distinct(s[i..])
  {
    forall a, b | 0 <= a < b < |s[i..]| ensures s[i..][a] != s[i..][b] {
      assert s[i..][a] == s[i + a] && s[i..][b] == s[i + b];
    }
  }

  /** Storing one new key into a cache within capacity keeps the newest
      `capacity` keys. */
  lemma PutKeyNew<K(!new)>(c: Cache<K>, k: K)
    requires c.capacity >= 1 && |State(c)| <= c.capacity && k !in State(c)
    ensures PutKey(c, k).Ok?
    ensures State(PutKey(c, k).value) == Newest(State(c) + [k], c.capacity)
  {
    var p := State(c);
    if |p| >= c.capacity {
      PutKeyNewFull(c, k);
      assert Newest(p + [k], c.capacity) == (p + [k])[1..];
    } else {
      PutKeyNewRoom(c, k);
      assert Newest(p + [k], c.capacity) == p + [k];
    }
  }

  /** A new key put into a full cache: the oldest goes, the new one is last. */
  lemma PutKeyNewFull<K(!new)>(c: Cache<K>, k: K)
    requires c.capacity >= 1 && |State(c)| == c.capacity && k !in State(c)
    ensures PutKey(c, k).Ok? && State(PutKey(c, k).value) == (State(c) + [k])[1..]
  {
    var p := State(c);
    assert Survivors(c) == p[1..];
    assert k !in p[1..];
    WithoutAbsent(p[1..], k);
    assert (p + [k])[1..] == p[1..] + [k];
  }

  /** A new key put into a cache with room is appended. */
  lemma PutKeyNewRoom<K(!new)>(c: Cache<K>, k: K)
    requires c.capacity >= 1 && |State(c)| < c.capacity && k !in State(c)
    ensures PutKey(c, k).Ok? && State(PutKey(c, k).value) == State(c) + [k]
  {
    assert Survivors(c) == State(c);
    WithoutAbsent(State(c), k);
  }

  /** Sequence bookkeeping for one step of `PutDistinctKeepsNewest`. */
  lemma NewestStep<T>(p: seq<T>, keys: seq<T>, p1: seq<T>, n: nat)
    requires |keys| > 0 && |p| <= n && Distinct(p + keys)
    requires p1 == Newest(p + [keys[0]], n)
    ensures Distinct(p1 + keys[1..])
    ensures Newest(p1 + keys[1..], n) == Newest(p + keys, n)
  {
    var k, rest := keys[0], keys[1..];
    assert p + keys == (p + [k]) + rest;
    var dropped := |p + [k]| - |p1|;
    assert p1 == (p + [k])[dropped..];
    DropConcat(p + [k], rest, dropped);
    DistinctSuffix(p + keys, dropped);
    var u := (p + keys)[..dropped];
    assert p + keys == u + (p + keys)[dropped..];
    NewestOfSuffix(u, p1 + rest, n);
  }

  /** Storing distinct new keys keeps exactly the newest `capacity` of the
      resident keys followed by the stored ones. */
  lemma {:induction false} PutDistinctKeepsNewest<K(!new)>(c: Cache<K>, keys: seq<K>)
    requires c.capacity >= 1 && |State(c)| <= c.capacity
    requires Distinct(State(c) + keys)
    ensures Put(c, keys).Ok?
    ensures State(Put(c, keys).value) == Newest(State(c) + keys, c.capacity)
    decreases |keys|
  {
    var p := State(c);
    if keys == [] {
      assert p + keys == p;
    } else {
      DistinctSplit(p, keys);
      assert keys[0] in keys;
      PutKeyNew(c, keys[0]);
      var c1 := PutKey(c, keys[0]).value;
      NewestStep(p, keys, State(c1), c.capacity);
      PutDistinctKeepsNewest(c1, keys[1..]);
      assert Put(c, keys) == Put(c1, keys[1..]);
    }
  }

  /** Filling an empty cache of capacity C with C + 1 distinct keys evicts
      exactly the first one. */
  lemma OverfillEvictsFirst<K(!new)>(capacity: int, keys: seq<K>)
    requires capacity >= 1 && Distinct(keys) && |keys| == capacity + 1
    ensures Put(Empty(capacity), keys).Ok?
    ensures State(Put(Empty(capacity), keys).value) == keys[1..]
  {
    var c: Cache<K> := Empty(capacity);
    assert State(c) + keys == keys;
    PutDistinctKeepsNewest(c, keys);
  }
}
