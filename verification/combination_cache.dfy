/** `CombinationCache` of hot_cold_simulation/modules/combination_cache.py:
    every entry carries a counter. Each `put(keys)` first ages the whole
    cache (entries whose counter is at most 1 leave, the others count down),
    then stores each key at the most-recent end with a fresh counter of
    `expiration_time`, evicting the oldest entry whenever the cache already
    holds `capacity` entries. */
module CombinationCache {
  import opened Common
  import opened OrderedDict

  /** The stored tuple `(value, count)`. */
  datatype Slot<K> = Slot(value: K, count: int)

  datatype Cache<K> = Cache(capacity: int, expirationTime: int, entries: seq<Entry<K, Slot<K>>>)

  /** The size of the sample `random.sample(range(886), capacity)` draws from. */
  const Population: int := 886

  /** `CombinationCache(capacity, expiration_time)` without prepopulation. */
  function Empty<K>(capacity: int, expirationTime: int): Cache<K> {
    Cache(capacity, expirationTime, [])
  }

  function State<K(!new)>(c: Cache<K>): seq<K> {
    Keys(c.entries)
  }

  /** No key twice, and every slot holds its own key as value. */
  predicate Valid<K(==,!new)>(c: Cache<K>) {
    OrderedDict.Valid(c.entries) && SlotsSelfValued(c.entries)
  }

  predicate SlotsSelfValued<K(==,!new)>(d: seq<Entry<K, Slot<K>>>) {
    forall k :: k in Keys(d) ==> Find(d, k).value.value == k
  }

  /** Every counter lies in `lo..hi`. */
  predicate CountsWithin<K(==,!new)>(d: seq<Entry<K, Slot<K>>>, lo: int, hi: int) {
    forall k :: k in Keys(d) ==> lo <= Find(d, k).value.count <= hi
  }

  /** `get(key)`: the stored value, or None for Python's -1. No counter moves. */
  function Get<K(==,!new)>(c: Cache<K>, k: K): (r: Option<K>)
    ensures r.None? <==> k !in State(c)
    ensures Valid(c) && r.Some? ==> r.value == k
  {
    var s := Find(c.entries, k);
    if s.None? then None else Some(s.value.value)
  }

  // ----- Aging, as the code does it: collect, count down, delete. -----

  /** `keys_to_delete`: keys whose counter is at most 1, in dict order. */
  function Expired<K(!new)>(d: seq<Entry<K, Slot<K>>>): (ks: seq<K>)
    ensures forall k :: k in ks ==> k in Keys(d)
  {
    if d == [] then []
    else (if d[0].value.count <= 1 then [d[0].key] else []) + Expired(d[1..])
  }

  /** `self.cache[k] = (value, count - 1)` for every entry not collected. */
  function CountDown<K(!new)>(d: seq<Entry<K, Slot<K>>>): (r: seq<Entry<K, Slot<K>>>)
    ensures Keys(r) == Keys(d)
  {
    if d == [] then []
    else
      var e := d[0];
      [if e.value.count <= 1 then e else Entry(e.key, Slot(e.value.value, e.value.count - 1))] + CountDown(d[1..])
  }

  /** `for k in keys_to_delete: del self.cache[k]`. */
  function DeleteAll<K(==,!new), V>(d: seq<Entry<K, V>>, ks: seq<K>): (r: seq<Entry<K, V>>)
    ensures forall k :: k in Keys(r) <==> k in Keys(d) && k !in ks
    ensures |r| <= |d|
    decreases |ks|
  {
    if ks == [] then d else DeleteAll(Delete(d, ks[0]), ks[1..])
  }

  /** The aging phase of `put`, step by step as the code performs it. */
  function Age<K(==,!new)>(d: seq<Entry<K, Slot<K>>>): seq<Entry<K, Slot<K>>> {
    DeleteAll(CountDown(d), Expired(d))
  }

  /** What aging means: keep, in order, exactly the entries whose counter
      exceeds 1, each with its counter one lower. */
  function Aged<K>(d: seq<Entry<K, Slot<K>>>): (r: seq<Entry<K, Slot<K>>>)
    ensures |r| <= |d|
  {
    if d == [] then []
    else if d[0].value.count <= 1 then Aged(d[1..])
    else [Entry(d[0].key, Slot(d[0].value.value, d[0].value.count - 1))] + Aged(d[1..])
  }

  lemma {:induction false} DeleteAllPassesOver<K(!new), V>(e: Entry<K, V>, d: seq<Entry<K, V>>, ks: seq<K>)
    requires e.key !in ks
    ensures DeleteAll([e] + d, ks) == [e] + DeleteAll(d, ks)
    decreases |ks|
  {
    if ks != [] {
      assert ([e] + d)[1..] == d;
      assert Delete([e] + d, ks[0]) == [e] + Delete(d, ks[0]);
      DeleteAllPassesOver(e, Delete(d, ks[0]), ks[1..]);
    }
  }

  /** The collect / count-down / delete loops of `put` compute `Aged`. */
  lemma {:induction false} AgeIsAged<K(!new)>(d: seq<Entry<K, Slot<K>>>)
    requires OrderedDict.Valid(d)
    ensures Age(d) == Aged(d)
  {
    if d != [] {
      var e, rest := d[0], d[1..];
      DistinctTail(Keys(d));
      DistinctHeadNotInTail(Keys(d));
      assert Keys(rest) == Keys(d)[1..];
      AgeIsAged(rest);
      assert CountDown(d)[1..] == CountDown(rest);
      if e.value.count <= 1 {
        assert Expired(d) == [e.key] + Expired(rest);
        assert Delete(CountDown(d), e.key) == Delete(CountDown(rest), e.key);
        DeleteAbsent(CountDown(rest), e.key);
      } else {
        assert Expired(d) == Expired(rest);
        assert CountDown(d) == [Entry(e.key, Slot(e.value.value, e.value.count - 1))] + CountDown(rest);
        DeleteAllPassesOver(Entry(e.key, Slot(e.value.value, e.value.count - 1)), CountDown(rest), Expired(rest));
      }
    }
  }

  /** Aging seen one key at a time: a counter of at most 1 leaves, a larger
      one counts down, the value stays. */
  /** What aging does to one key. */
  function AgeSlot<K>(s: Option<Slot<K>>): Option<Slot<K>> {
    match s
    case None => None
    case Some(slot) => if slot.count <= 1 then None else Some(Slot(slot.value, slot.count - 1))
  }

  /** Aging seen one key at a time: a counter of at most 1 leaves, a larger
      one counts down, the value stays. */
  lemma {:induction false} AgedFind<K(!new)>(d: seq<Entry<K, Slot<K>>>, k: K)
    requires OrderedDict.Valid(d)
    ensures Find(Aged(d), k) == AgeSlot(Find(d, k))
  {
    if d != [] {
      var e, rest := d[0], d[1..];
      DistinctTail(Keys(d));
      assert Keys(rest) == Keys(d)[1..];
      AgedFind(rest, k);
      if e.key == k {
        DistinctHeadNotInTail(Keys(d));
        assert Find(rest, k).None?;
        if e.value.count > 1 {
          assert Aged(d) == [Entry(k, Slot(e.value.value, e.value.count - 1))] + Aged(rest);
        }
      } else if e.value.count > 1 {
        var e1 := Entry(e.key, Slot(e.value.value, e.value.count - 1));
        assert Aged(d) == [e1] + Aged(rest);
        assert ([e1] + Aged(rest))[1..] == Aged(rest);
      }
    }
  }

  lemma {:induction false} AgedKeys<K(!new)>(d: seq<Entry<K, Slot<K>>>)
    ensures forall k :: k in Keys(Aged(d)) ==> k in Keys(d)
    ensures OrderedDict.Valid(d) ==> OrderedDict.Valid(Aged(d))
  {
    if d != [] {
      AgedKeys(d[1..]);
      assert Keys(d[1..]) == Keys(d)[1..];
      if OrderedDict.Valid(d) {
        DistinctTail(Keys(d));
        DistinctHeadNotInTail(Keys(d));
        if d[0].value.count > 1 {
          var e := Entry(d[0].key, Slot(d[0].value.value, d[0].value.count - 1));
          assert Keys(Aged(d)) == [e.key] + Keys(Aged(d[1..]));
        }
      }
    }
  }

  lemma AgedValid<K(!new)>(c: Cache<K>)
    requires Valid(c)
    ensures Valid(Cache(c.capacity, c.expirationTime, Aged(c.entries)))
  {
    var a := Aged(c.entries);
    AgedKeys(c.entries);
    forall k | k in Keys(a) ensures Find(a, k).value.value == k {
      AgedFind(c.entries, k);
    }
  }

  // ----- Storing keys. -----

  /** One iteration of the key loop of `put`: evict when full, then
      `self.cache[key] = (key, expiration_time)` and `move_to_end(key)`. */
  function InsertKey<K(==,!new)>(c: Cache<K>, k: K): (r: Result<Cache<K>>)
    ensures r.Err? <==> c.entries == [] && c.capacity <= 0
    ensures r.Ok? ==> r.value.capacity == c.capacity && r.value.expirationTime == c.expirationTime
    ensures r.Ok? ==> State(r.value) == Without(AfterBoundCheck(c.entries, c.capacity), k) + [k]
    ensures r.Ok? ==> Find(r.value.entries, k) == Some(Slot(k, c.expirationTime))
    ensures c.capacity >= 1 && |State(c)| <= c.capacity ==> r.Ok? && |State(r.value)| <= c.capacity
  {
    var stored := StoreAtEnd(c.entries, c.capacity, k, Slot(k, c.expirationTime));
    if stored.Err? then Err(stored.error) else Ok(Cache(c.capacity, c.expirationTime, stored.value))
  }

  /** Other keys that survive the eviction keep their slots. */
  lemma InsertKeyOthers<K(!new)>(c: Cache<K>, k: K, x: K)
    requires OrderedDict.Valid(c.entries) && InsertKey(c, k).Ok?
    requires x != k && x in State(InsertKey(c, k).value)
    ensures Find(InsertKey(c, k).value.entries, x) == Find(c.entries, x)
    ensures OrderedDict.Valid(InsertKey(c, k).value.entries)
  {
    StoreAtEndOthers(c.entries, c.capacity, k, Slot(k, c.expirationTime), x);
    StoreAtEndValid(c.entries, c.capacity, k, Slot(k, c.expirationTime));
  }

  lemma InsertKeyValid<K(!new)>(c: Cache<K>, k: K)
    requires Valid(c) && InsertKey(c, k).Ok?
    ensures Valid(InsertKey(c, k).value)
  {
    var d := InsertKey(c, k).value.entries;
    StoreAtEndValid(c.entries, c.capacity, k, Slot(k, c.expirationTime));
    forall x | x in Keys(d) ensures Find(d, x).value.value == x {
      if x != k {
        InsertKeyOthers(c, k, x);
      }
    }
  }

  /** The whole key loop of `put`. */
  function InsertAll<K(==,!new)>(c: Cache<K>, keys: seq<K>): (r: Result<Cache<K>>)
    ensures keys == [] ==> r == Ok(c)
    ensures c.capacity >= 1 ==> r.Ok?
    ensures r.Err? ==> r.error == KeyError
    ensures r.Ok? ==> r.value.capacity == c.capacity && r.value.expirationTime == c.expirationTime
    ensures r.Ok? && keys != [] ==> |State(r.value)| > 0 && Last(State(r.value)) == Last(keys)
    ensures r.Ok? && keys != [] ==> Find(r.value.entries, Last(keys)) == Some(Slot(Last(keys), c.expirationTime))
    ensures r.Ok? ==> forall x :: x in State(r.value) ==> x in State(c) || x in keys
    ensures c.capacity >= 1 && |State(c)| <= c.capacity ==> r.Ok? && |State(r.value)| <= c.capacity
    decreases |keys|
  {
    if keys == [] then Ok(c)
    else
      var step := InsertKey(c, keys[0]);
      if step.Err? then Err(step.error)
      else
        assert |keys| > 1 ==> Last(keys[1..]) == Last(keys);
        assert forall x :: x in keys[1..] ==> x in keys;
        InsertAll(step.value, keys[1..])
  }

  /** A key the loop does not store keeps its slot, if it stays at all. */
  lemma {:induction false} InsertAllOthers<K(!new)>(c: Cache<K>, keys: seq<K>, x: K)
    requires OrderedDict.Valid(c.entries) && InsertAll(c, keys).Ok?
    requires x !in keys && x in State(InsertAll(c, keys).value)
    ensures Find(InsertAll(c, keys).value.entries, x) == Find(c.entries, x)
    decreases |keys|
  {
    if keys != [] {
      var step := InsertKey(c, keys[0]).value;
      assert x in State(step) by {
        assert x !in keys[1..];
      }
      InsertKeyOthers(c, keys[0], x);
      assert x !in keys[1..];
      InsertAllOthers(step, keys[1..], x);
    }
  }

  lemma {:induction false} InsertAllValid<K(!new)>(c: Cache<K>, keys: seq<K>)
    requires Valid(c) && InsertAll(c, keys).Ok?
    ensures Valid(InsertAll(c, keys).value)
    decreases |keys|
  {
    if keys != [] {
      InsertKeyValid(c, keys[0]);
      InsertAllValid(InsertKey(c, keys[0]).value, keys[1..]);
    }
  }

  /** `put(keys)`: aging, then the key loop. Popping from an empty dict
      (capacity <= 0) raises KeyError. */
  function Put<K(==,!new)>(c: Cache<K>, keys: seq<K>): (r: Result<Cache<K>>)
    ensures c.capacity >= 1 ==> r.Ok?
    ensures r.Err? ==> r.error == KeyError
    ensures r.Ok? ==> r.value.capacity == c.capacity && r.value.expirationTime == c.expirationTime
    ensures keys == [] && OrderedDict.Valid(c.entries) ==> r == Ok(Cache(c.capacity, c.expirationTime, Aged(c.entries)))
    ensures r.Ok? && keys != [] ==> |State(r.value)| > 0 && Last(State(r.value)) == Last(keys)
    ensures r.Ok? && keys != [] ==> Get(r.value, Last(keys)) == Some(Last(keys))
    ensures r.Ok? ==> forall x :: x in State(r.value) ==> x in State(c) || x in keys
    ensures c.capacity >= 1 && |State(c)| <= c.capacity ==> r.Ok? && |State(r.value)| <= c.capacity
  {
    var aged := Cache(c.capacity, c.expirationTime, Age(c.entries));
    if OrderedDict.Valid(c.entries) then AgeIsAged(c.entries); InsertAll(aged, keys)
    else InsertAll(aged, keys)
  }

  lemma PutValid<K(!new)>(c: Cache<K>, keys: seq<K>)
    requires Valid(c) && Put(c, keys).Ok?
    ensures Valid(Put(c, keys).value)
  {
    AgeIsAged(c.entries);
    AgedValid(c);
    InsertAllValid(Cache(c.capacity, c.expirationTime, Aged(c.entries)), keys);
  }

  /** With `expiration_time >= 1`, every counter stays between 1 and
      `expiration_time` from one `put` to the next. */
  lemma PutKeepsCounts<K(!new)>(c: Cache<K>, keys: seq<K>)
    requires Valid(c) && c.expirationTime >= 1 && CountsWithin(c.entries, 1, c.expirationTime)
    requires Put(c, keys).Ok?
    ensures CountsWithin(Put(c, keys).value.entries, 1, c.expirationTime)
  {
    AgeIsAged(c.entries);
    var a := Cache(c.capacity, c.expirationTime, Aged(c.entries));
    AgedKeys(c.entries);
    var r := Put(c, keys).value;
    forall x | x in Keys(r.entries) ensures 1 <= Find(r.entries, x).value.count <= c.expirationTime {
      if x in keys {
        InsertAllSlot(a, keys, x);
      } else {
        InsertAllOthers(a, keys, x);
        AgedFind(c.entries, x);
      }
    }
  }

  /** A key the loop stores ends with a fresh counter, or was evicted. */
  lemma {:induction false} InsertAllSlot<K(!new)>(c: Cache<K>, keys: seq<K>, x: K)
    requires OrderedDict.Valid(c.entries) && InsertAll(c, keys).Ok?
    requires x in keys && x in State(InsertAll(c, keys).value)
    ensures Find(InsertAll(c, keys).value.entries, x) == Some(Slot(x, c.expirationTime))
    decreases |keys|
  {
    var step := InsertKey(c, keys[0]).value;
    StoreAtEndValid(c.entries, c.capacity, keys[0], Slot(keys[0], c.expirationTime));
    if x in keys[1..] {
      InsertAllSlot(step, keys[1..], x);
    } else {
      InsertAllOthers(step, keys[1..], x);
    }
  }

  // ----- Expiry. -----

  /** How many more `put` calls that do not store `k` it can stay for. */
  function Life<K(==,!new)>(c: Cache<K>, k: K): nat {
    match Find(c.entries, k)
    case None => 0
    case Some(s) => if s.count <= 1 then 1 else s.count
  }

  /** A `put` that does not store `k` shortens its remaining life by one
      (or evicts it); with no keys stored, by exactly one. */
  lemma PutShortensLife<K(!new)>(c: Cache<K>, keys: seq<K>, k: K)
    requires Valid(c) && k !in keys && Put(c, keys).Ok?
    ensures Life(Put(c, keys).value, k) <= if Life(c, k) == 0 then 0 else Life(c, k) - 1
    ensures keys == [] ==> Life(Put(c, keys).value, k) == if Life(c, k) == 0 then 0 else Life(c, k) - 1
  {
    AgeIsAged(c.entries);
    AgedKeys(c.entries);
    AgedFind(c.entries, k);
    var a := Cache(c.capacity, c.expirationTime, Aged(c.entries));
    var r := Put(c, keys).value;
    if k in State(r) {
      InsertAllOthers(a, keys, k);
    }
  }

  /** Successive `put(keys)` calls. */
  function PutMany<K(==,!new)>(c: Cache<K>, batches: seq<seq<K>>): (r: Result<Cache<K>>)
    ensures c.capacity >= 1 ==> r.Ok? && r.value.capacity == c.capacity
    decreases |batches|
  {
    if batches == [] then Ok(c)
    else
      var step := Put(c, batches[0]);
      if step.Err? then Err(step.error) else PutMany(step.value, batches[1..])
  }

  /** An entry is gone once it has seen as many `put` calls not storing it
      as its remaining life. */
  lemma {:induction false} OutlivedKeyIsGone<K(!new)>(c: Cache<K>, batches: seq<seq<K>>, k: K)
    requires Valid(c) && c.capacity >= 1
    requires forall i :: 0 <= i < |batches| ==> k !in batches[i]
    requires |batches| >= Life(c, k)
    ensures k !in State(PutMany(c, batches).value)
    decreases |batches|
  {
    if batches == [] {
      assert Find(c.entries, k).None?;
    } else {
      PutValid(c, batches[0]);
      PutShortensLife(c, batches[0], k);
      OutlivedKeyIsGone(Put(c, batches[0]).value, batches[1..], k);
    }
  }

  /** The point of the counter: a key stored by `put` has left the cache
      after `expiration_time` further calls that do not store it again. */
  lemma StoredKeyExpires<K(!new)>(c: Cache<K>, keys: seq<K>, batches: seq<seq<K>>)
    requires Valid(c) && c.capacity >= 1 && keys != []
    requires forall i :: 0 <= i < |batches| ==> Last(keys) !in batches[i]
    requires |batches| >= c.expirationTime && |batches| >= 1
    ensures Last(keys) !in State(PutMany(Put(c, keys).value, batches).value)
  {
    var c1 := Put(c, keys).value;
    PutValid(c, keys);
    AgeIsAged(c.entries);
    OutlivedKeyIsGone(c1, batches, Last(keys));
  }

  // ----- Prepopulation. -----

  /** What `random.sample(range(886), n)` can return. */
  predicate IsSample(draw: seq<int>, n: int) {
    |draw| == n && Distinct(draw) && forall i :: 0 <= i < |draw| ==> 0 <= draw[i] < Population
  }

  /** Storing the first of distinct fresh keys leaves the rest fresh. */
  lemma StoreFreshStep<K(!new)>(d: seq<Entry<K, Slot<K>>>, keys: seq<K>, exp: int)
    requires keys != []
    ensures forall k :: k in keys && k != keys[0] ==> k in keys[1..]
    ensures Distinct(Keys(d) + keys) ==>
              Keys(Assign(d, keys[0], Slot(keys[0], exp))) + keys[1..] == Keys(d) + keys
  {
    assert keys == [keys[0]] + keys[1..];
    if Distinct(Keys(d) + keys) {
      DistinctSplit(Keys(d), keys);
      assert keys[0] in keys;
      assert Keys(d) + keys == (Keys(d) + [keys[0]]) + keys[1..];
    }
  }

  /** `self.cache[key] = (key, expiration_time)` for each key, in order. */
  function StoreFresh<K(==,!new)>(d: seq<Entry<K, Slot<K>>>, keys: seq<K>, exp: int): (r: seq<Entry<K, Slot<K>>>)
    ensures forall k :: k in keys ==> Find(r, k) == Some(Slot(k, exp))
    ensures forall k :: k !in keys ==> Find(r, k) == Find(d, k)
    ensures Distinct(Keys(d) + keys) ==> Keys(r) == Keys(d) + keys
    decreases |keys|
  {
    if keys == [] then d
    else
      StoreFreshStep(d, keys, exp);
      StoreFresh(Assign(d, keys[0], Slot(keys[0], exp)), keys[1..], exp)
  }

  /** `prepopulate_cache()` on a new cache; `draw` is the sample the random
      source returned. `random.sample` raises ValueError for a sample size
      below 0 or above the population. */
  function Prepopulate(capacity: int, expirationTime: int, draw: seq<int>): (r: Result<Cache<int>>)
    requires 0 <= capacity <= Population ==> IsSample(draw, capacity)
    ensures r.Err? <==> capacity < 0 || capacity > Population
    ensures r.Err? ==> r.error == ValueError
    ensures r.Ok? ==> r.value.capacity == capacity && r.value.expirationTime == expirationTime
    ensures r.Ok? ==> State(r.value) == draw && |State(r.value)| == capacity
    ensures r.Ok? ==> Valid(r.value) && CountsWithin(r.value.entries, expirationTime, expirationTime)
  {
    if capacity < 0 || capacity > Population then Err(ValueError)
    else
      var d := StoreFresh([], draw, expirationTime);
      assert Keys<int, Slot<int>>([]) + draw == draw;
      Ok(Cache(capacity, expirationTime, d))
  }

  /** `CombinationCache(capacity, expiration_time, prepopulate)`. */
  function New(capacity: int, expirationTime: int, prepopulate: bool, draw: seq<int>): (r: Result<Cache<int>>)
    requires prepopulate && 0 <= capacity <= Population ==> IsSample(draw, capacity)
    ensures !prepopulate ==> r == Ok(Empty(capacity, expirationTime))
    ensures r.Err? <==> prepopulate && (capacity < 0 || capacity > Population)
    ensures r.Ok? ==> Valid(r.value) && r.value.capacity == capacity
  {
    if prepopulate then Prepopulate(capacity, expirationTime, draw) else Ok(Empty(capacity, expirationTime))
  }
}
