/** `TimeCache` of hot_cold_simulation/modules/time_cache.py. Despite its
    name it keeps no per-entry clock: it is a first-in first-out cache
    bounded by `expiration_time` entries. `get` changes nothing, and `put`
    evicts the oldest entry whenever `expiration_time` entries are held. */
module TimeCache {
  import opened Common
  import opened OrderedDict

  datatype Cache<K> = Cache(expirationTime: int, entries: seq<Entry<K, K>>)

  /** `TimeCache(expiration_time)`. */
  function Empty<K>(expirationTime: int): Cache<K> {
    Cache(expirationTime, [])
  }

  /** `current_state()`: resident keys in first-insertion order. */
  function State<K(!new)>(c: Cache<K>): seq<K> {
    Keys(c.entries)
  }

  predicate Valid<K(==,!new)>(c: Cache<K>) {
    OrderedDict.Valid(c.entries) && SelfValued(c.entries)
  }

  /** `get(key)`: None stands for Python's -1; the cache is untouched. */
  function Get<K(==,!new)>(c: Cache<K>, k: K): (r: Option<K>)
    ensures r.None? <==> k !in State(c)
    ensures Valid(c) && r.Some? ==> r.value == k
  {
    Find(c.entries, k)
  }

  /** `put(key)`: returns the key. Resident keys never move: the oldest one
      may leave, and a key not resident afterwards joins at the back. */
  function Put<K(==,!new)>(c: Cache<K>, k: K): (r: Result<(Cache<K>, K)>)
    ensures r.Err? <==> c.entries == [] && c.expirationTime <= 0
    ensures r.Ok? ==> r.value.1 == k && r.value.0.expirationTime == c.expirationTime
    ensures r.Ok? ==> k in State(r.value.0)
    ensures r.Ok? ==> var kept := AfterBoundCheck(c.entries, c.expirationTime);
                      State(r.value.0) == if k in kept then kept else kept + [k]
    ensures c.expirationTime >= 1 && |State(c)| <= c.expirationTime ==> r.Ok? && |State(r.value.0)| <= c.expirationTime
    ensures r.Ok? && Valid(c) ==> Valid(r.value.0)
  {
    var stored := StoreBounded(c.entries, c.expirationTime, k);
    if stored.Err? then Err(stored.error)
    else
      (if Valid(c) then StoreBoundedValid(c.entries, c.expirationTime, k); Ok((Cache(c.expirationTime, stored.value), k))
       else Ok((Cache(c.expirationTime, stored.value), k)))
  }

  /** First-in first-out: a `put` keeps the surviving keys in their order,
      as a prefix of the new state; only the oldest can have left. */
  lemma PutIsFifo<K(!new)>(c: Cache<K>, k: K)
    requires Put(c, k).Ok?
    ensures var after := State(Put(c, k).value.0);
            (State(c) <= after) || (|State(c)| > 0 && State(c)[1..] <= after)
    ensures forall x :: x in State(c) && x != State(c)[0] ==> x in State(Put(c, k).value.0)
  {
  }

  datatype Op<K> = Lookup(key: K) | Store(key: K)

  /** A sequence of calls on one cache: the cache afterwards and what each
      `get` returned, in order. */
  function Apply<K(==,!new)>(c: Cache<K>, ops: seq<Op<K>>): Result<(Cache<K>, seq<Option<K>>)>
    decreases |ops|
  {
    if ops == [] then Ok((c, []))
    else match ops[0]
      case Lookup(k) =>
        var rest := Apply(c, ops[1..]);
        if rest.Err? then rest else Ok((rest.value.0, [Get(c, k)] + rest.value.1))
      case Store(k) =>
        var r := Put(c, k);
        if r.Err? then Err(r.error) else Apply(r.value.0, ops[1..])
  }

  /** The `put` calls of a sequence of calls, in order. */
  function Stores<K>(ops: seq<Op<K>>): seq<K> {
    if ops == [] then [] else (if ops[0].Store? then [ops[0].key] else []) + Stores(ops[1..])
  }

  /** The number of `get` calls. */
  function Lookups<K>(ops: seq<Op<K>>): nat {
    if ops == [] then 0 else (if ops[0].Lookup? then 1 else 0) + Lookups(ops[1..])
  }

  /** Storing keys one `put` at a time. */
  function PutAll<K(==,!new)>(c: Cache<K>, keys: seq<K>): Result<Cache<K>>
    decreases |keys|
  {
    if keys == [] then Ok(c)
    else
      var r := Put(c, keys[0]);
      if r.Err? then Err(r.error) else PutAll(r.value.0, keys[1..])
  }

  /** Unlike the recency LRU, reading the cache never affects it: however
      the `get` calls are interleaved, and whatever they return, the cache
      ends as the `put` calls alone leave it, and every `get` answered. */
  lemma {:induction false} LookupsAreInvisible<K(!new)>(c: Cache<K>, ops: seq<Op<K>>)
    ensures Apply(c, ops).Ok? <==> PutAll(c, Stores(ops)).Ok?
    ensures Apply(c, ops).Ok? ==> Apply(c, ops).value.0 == PutAll(c, Stores(ops)).value
    ensures Apply(c, ops).Ok? ==> |Apply(c, ops).value.1| == Lookups(ops)
    decreases |ops|
  {
    if ops != [] {
      if ops[0].Store? {
        var r := Put(c, ops[0].key);
        assert Stores(ops) == [ops[0].key] + Stores(ops[1..]);
        if r.Ok? {
          LookupsAreInvisible(r.value.0, ops[1..]);
        }
      } else {
        LookupsAreInvisible(c, ops[1..]);
        assert Stores(ops) == Stores(ops[1..]);
      }
    }
  }

  /** A hit does not protect the oldest entry: with room for two, reading
      key 1 and then storing key 3 still evicts key 1. */
  lemma HitDoesNotProtect()
    ensures var c := Cache(2, [Entry(1, 1), Entry(2, 2)]);
            Get(c, 1) == Some(1) &&
            Apply(c, [Lookup(1), Store(3)]) == Ok((Cache(2, [Entry(2, 2), Entry(3, 3)]), [Some(1)]))
  {
    var c := Cache(2, [Entry(1, 1), Entry(2, 2)]);
    assert [Lookup(1), Store(3)][1..] == [Store(3)];
    assert c.entries[1..] == [Entry(2, 2)];
    assert Assign([Entry(2, 2)], 3, 3) == [Entry(2, 2), Entry(3, 3)];
    assert StoreBounded(c.entries, 2, 3) == Ok([Entry(2, 2), Entry(3, 3)]);
    assert Put(c, 3) == Ok((Cache(2, [Entry(2, 2), Entry(3, 3)]), 3));
    assert [Store(3)][1..] == [];
    assert Apply(c, [Store(3)]) == Ok((Cache(2, [Entry(2, 2), Entry(3, 3)]), []));
    assert Get(c, 1) == Some(1);
    assert [Get(c, 1)] + [] == [Some(1)];
  }
}
