/** Python's `collections.OrderedDict` (and the insertion-ordered `dict`) as
    a sequence of entries. Every cache variant is built from these operations,
    so each behaves as the Python calls it makes. */
module OrderedDict {
  import opened Common

  datatype Entry<K, V> = Entry(key: K, value: V)

  /** `list(d.keys())`: the keys in order. */
  function Keys<K(!new), V>(d: seq<Entry<K, V>>): (ks: seq<K>)
    ensures |ks| == |d|
    ensures forall i :: 0 <= i < |d| ==> ks[i] == d[i].key
  {
    if d == [] then [] else [d[0].key] + Keys(d[1..])
  }

  /** A real dict never holds a key twice. */
  predicate Valid<K(==,!new), V>(d: seq<Entry<K, V>>) {
    Distinct(Keys(d))
  }

  /** `d.get(k)`: the value stored under `k`, if any. */
  function Find<K(==,!new), V>(d: seq<Entry<K, V>>, k: K): (r: Option<V>)
    ensures r.None? <==> k !in Keys(d)
  {
    if d == [] then None
    else if d[0].key == k then Some(d[0].value)
    else Find(d[1..], k)
  }

  /** `d[k] = v`: overwrites in place when `k` is present (no reordering),
      appends otherwise. */
  function Assign<K(==,!new), V>(d: seq<Entry<K, V>>, k: K, v: V): (r: seq<Entry<K, V>>)
    ensures k in Keys(d) ==> Keys(r) == Keys(d)
    ensures k !in Keys(d) ==> Keys(r) == Keys(d) + [k]
    ensures Find(r, k) == Some(v)
    ensures forall k' :: k' != k ==> Find(r, k') == Find(d, k')
  {
    if d == [] then [Entry(k, v)]
    else if d[0].key == k then [Entry(k, v)] + d[1..]
    else [d[0]] + Assign(d[1..], k, v)
  }

  /** `del d[k]` (for a present key; a dict holds it once). */
  function Delete<K(==,!new), V>(d: seq<Entry<K, V>>, k: K): (r: seq<Entry<K, V>>)
    ensures Keys(r) == Without(Keys(d), k)
    ensures forall k' :: k' != k ==> Find(r, k') == Find(d, k')
  {
    if d == [] then []
    else if d[0].key == k then Delete(d[1..], k)
    else [d[0]] + Delete(d[1..], k)
  }

  lemma FindAppendOther<K(!new), V>(d: seq<Entry<K, V>>, e: Entry<K, V>, k: K)
    requires k != e.key
    ensures Find(d + [e], k) == Find(d, k)
  {
    if d != [] {
      assert (d + [e])[1..] == d[1..] + [e];
      FindAppendOther(d[1..], e, k);
    }
  }

  lemma FindAppendNew<K(!new), V>(d: seq<Entry<K, V>>, e: Entry<K, V>)
    requires e.key !in Keys(d)
    ensures Find(d + [e], e.key) == Some(e.value)
  {
    if d != [] {
      assert (d + [e])[1..] == d[1..] + [e];
      FindAppendNew(d[1..], e);
    }
  }

  /** `d.move_to_end(k)` for a present key: the entry goes to the back with
      its value unchanged. Python raises KeyError for an absent key; every
      modelled caller moves a key it has just found or stored. */
  function MoveToEnd<K(==,!new), V>(d: seq<Entry<K, V>>, k: K): (r: seq<Entry<K, V>>)
    requires k in Keys(d)
    ensures Keys(r) == Without(Keys(d), k) + [k]
    ensures forall k' :: Find(r, k') == Find(d, k')
  {
    var v := Find(d, k).value;
    var r := Delete(d, k) + [Entry(k, v)];
    forall k' ensures Find(r, k') == Find(d, k') {
      if k' == k {
        FindAppendNew(Delete(d, k), Entry(k, v));
      } else {
        FindAppendOther(Delete(d, k), Entry(k, v), k');
      }
    }
    r
  }

  /** `d.popitem(last=False)`: drops the oldest entry; KeyError when empty. */
  function PopFirst<K(!new), V>(d: seq<Entry<K, V>>): (r: Result<seq<Entry<K, V>>>)
    ensures r.Err? <==> d == []
    ensures r.Err? ==> r.error == KeyError
    ensures r.Ok? ==> Keys(r.value) == Keys(d)[1..]
  {
    if d == [] then Err(KeyError) else Ok(d[1..])
  }

  lemma FindTail<K(!new), V>(d: seq<Entry<K, V>>, k: K)
    requires Valid(d) && |d| > 0 && k != d[0].key
    ensures Find(d[1..], k) == Find(d, k)
  {
  }

  /** Removing the oldest entry of a real dict leaves the other values alone. */
  lemma PopFirstValues<K(!new), V>(d: seq<Entry<K, V>>)
    requires Valid(d) && |d| > 0
    ensures Valid(d[1..])
    ensures forall k :: k != d[0].key ==> Find(d[1..], k) == Find(d, k)
  {
    DistinctTail(Keys(d));
    assert Keys(d[1..]) == Keys(d)[1..];
  }

  lemma AssignValid<K(!new), V>(d: seq<Entry<K, V>>, k: K, v: V)
    requires Valid(d)
    ensures Valid(Assign(d, k, v))
  {
    if k !in Keys(d) {
      DistinctAppend(Keys(d), k);
    }
  }

  lemma MoveToEndValid<K(!new), V>(d: seq<Entry<K, V>>, k: K)
    requires Valid(d) && k in Keys(d)
    ensures Valid(MoveToEnd(d, k))
    ensures |MoveToEnd(d, k)| == |d|
  {
    WithoutFacts(Keys(d), k);
    DistinctAppend(Without(Keys(d), k), k);
  }

  /** Every stored value equals its key (the LRU and FIFO caches store
      `cache[key] = key`). */
  predicate SelfValued<K(==,!new)>(d: seq<Entry<K, K>>) {
    forall k :: k in Keys(d) ==> Find(d, k) == Some(k)
  }

  lemma SelfValuedAssign<K(!new)>(d: seq<Entry<K, K>>, k: K)
    requires SelfValued(d)
    ensures SelfValued(Assign(d, k, k))
  {
    var r := Assign(d, k, k);
    forall x | x in Keys(r) ensures Find(r, x) == Some(x) {
      if x != k {
        assert x in Keys(d);
      }
    }
  }

  lemma SelfValuedMoveToEnd<K(!new)>(d: seq<Entry<K, K>>, k: K)
    requires SelfValued(d) && k in Keys(d)
    ensures SelfValued(MoveToEnd(d, k))
  {
    var r := MoveToEnd(d, k);
    forall x | x in Keys(r) ensures Find(r, x) == Some(x) {
      assert x in Keys(d);
    }
  }

  lemma SelfValuedPopFirst<K(!new)>(d: seq<Entry<K, K>>)
    requires Valid(d) && SelfValued(d) && |d| > 0
    ensures Valid(d[1..]) && SelfValued(d[1..])
  {
    PopFirstValues(d);
    forall x | x in Keys(d[1..]) ensures Find(d[1..], x) == Some(x) {
      assert Keys(d[1..]) == Keys(d)[1..];
      assert x != d[0].key by {
        assert Keys(d)[0] == d[0].key;
      }
    }
  }

  /** The first `n` entries, `dict(list(d.items())[:n])`, with Python's
      slice rule for a negative bound. */
  function Prefix<K(!new), V>(d: seq<Entry<K, V>>, n: int): (r: seq<Entry<K, V>>)
    ensures |r| == if n >= 0 then (if n < |d| then n else |d|) else (if |d| + n > 0 then |d| + n else 0)
    ensures r <= d
  {
    if n >= 0 then (if n < |d| then d[..n] else d)
    else if |d| + n > 0 then d[..|d| + n]
    else []
  }

  lemma PrefixValid<K(!new), V>(d: seq<Entry<K, V>>, n: int)
    requires Valid(d)
    ensures Valid(Prefix(d, n))
    ensures forall k :: k in Keys(Prefix(d, n)) ==> Find(Prefix(d, n), k) == Find(d, k)
  {
    var p := Prefix(d, n);
    assert Keys(p) == Keys(d)[..|p|];
    forall k | k in Keys(p) ensures Find(p, k) == Find(d, k) {
      PrefixFind(d, p, k);
    }
  }

  lemma PrefixFind<K(!new), V>(d: seq<Entry<K, V>>, p: seq<Entry<K, V>>, k: K)
    requires p <= d && k in Keys(p)
    ensures Find(p, k) == Find(d, k)
  {
    if p[0].key != k {
      assert p[1..] <= d[1..];
      PrefixFind(d[1..], p[1..], k);
    }
  }

  /** The keys still present after `if len(d) >= bound: d.popitem(last=False)`. */
  function AfterBoundCheck<K(!new), V>(d: seq<Entry<K, V>>, bound: int): seq<K> {
    if |d| >= bound && d != [] then Keys(d)[1..] else Keys(d)
  }

  /** The body shared by the single-key `put` of modules/lru_cache.py,
      hot_cold_simulation.py and time_cache.py: drop the oldest entry when
      `len(d) >= bound` (KeyError on an empty dict), then `d[key] = key`,
      which leaves a still-resident key where it was. */
  function StoreBounded<K(==,!new)>(d: seq<Entry<K, K>>, bound: int, k: K): (r: Result<seq<Entry<K, K>>>)
    ensures r.Err? <==> d == [] && bound <= 0
    ensures r.Err? ==> r.error == KeyError
    ensures r.Ok? ==> Keys(r.value) == if k in AfterBoundCheck(d, bound) then AfterBoundCheck(d, bound) else AfterBoundCheck(d, bound) + [k]
    ensures r.Ok? ==> k in Keys(r.value)
    ensures bound >= 1 && |d| <= bound ==> r.Ok? && |r.value| <= bound
  {
    var kept := if |d| >= bound then PopFirst(d) else Ok(d);
    if kept.Err? then Err(kept.error)
    else
      assert Keys(kept.value) == AfterBoundCheck(d, bound);
      Ok(Assign(kept.value, k, k))
  }

  lemma StoreBoundedValid<K(!new)>(d: seq<Entry<K, K>>, bound: int, k: K)
    requires Valid(d) && SelfValued(d) && StoreBounded(d, bound, k).Ok?
    ensures Valid(StoreBounded(d, bound, k).value) && SelfValued(StoreBounded(d, bound, k).value)
  {
    var kept := if |d| >= bound then d[1..] else d;
    if |d| >= bound {
      SelfValuedPopFirst(d);
    }
    AssignValid(kept, k, k);
    SelfValuedAssign(kept, k);
    assert StoreBounded(d, bound, k).value == Assign(kept, k, k);
  }

  lemma MoveToEndSelfValued<K(!new)>(d: seq<Entry<K, K>>, k: K)
    requires Valid(d) && SelfValued(d) && k in Keys(d)
    ensures Valid(MoveToEnd(d, k)) && SelfValued(MoveToEnd(d, k))
  {
    MoveToEndValid(d, k);
    SelfValuedMoveToEnd(d, k);
  }

  /** `d[k]` for an absent key is a no-op for `del`: deleting it changes nothing. */
  lemma DeleteAbsent<K(!new), V>(d: seq<Entry<K, V>>, k: K)
    requires k !in Keys(d)
    ensures Delete(d, k) == d
  {
    if d != [] {
      DeleteAbsent(d[1..], k);
      assert d == [d[0]] + d[1..];
    }
  }

  /** The body shared by the list `put` of the LRU and combination caches
      for one key: drop the oldest entry when `len(d) >= bound` (KeyError
      on an empty dict), then `d[k] = v` and `d.move_to_end(k)`. */
  function StoreAtEnd<K(==,!new), V>(d: seq<Entry<K, V>>, bound: int, k: K, v: V): (r: Result<seq<Entry<K, V>>>)
    ensures r.Err? <==> d == [] && bound <= 0
    ensures r.Err? ==> r.error == KeyError
    ensures r.Ok? ==> Keys(r.value) == Without(AfterBoundCheck(d, bound), k) + [k]
    ensures r.Ok? ==> Find(r.value, k) == Some(v)
    ensures bound >= 1 && |d| <= bound ==> r.Ok? && |r.value| <= bound
  {
    var kept := if |d| >= bound then PopFirst(d) else Ok(d);
    if kept.Err? then Err(kept.error)
    else
      var stored := Assign(kept.value, k, v);
      assert Keys(kept.value) == AfterBoundCheck(d, bound);
      assert Without(Keys(stored), k) == Without(AfterBoundCheck(d, bound), k) by {
        if k !in Keys(kept.value) {
          WithoutAppendSame(Keys(kept.value), k);
        }
      }
      Ok(MoveToEnd(stored, k))
  }

  /** In a real dict, `StoreAtEnd` leaves the value of every other surviving
      key alone. */
  lemma StoreAtEndOthers<K(!new), V>(d: seq<Entry<K, V>>, bound: int, k: K, v: V, x: K)
    requires Valid(d) && StoreAtEnd(d, bound, k, v).Ok?
    requires x != k && x in AfterBoundCheck(d, bound)
    ensures Find(StoreAtEnd(d, bound, k, v).value, x) == Find(d, x)
  {
    var kept := if |d| >= bound then d[1..] else d;
    if |d| >= bound {
      PopFirstValues(d);
      DistinctHeadNotInTail(Keys(d));
    }
    assert StoreAtEnd(d, bound, k, v).value == MoveToEnd(Assign(kept, k, v), k);
  }

  lemma StoreAtEndValid<K(!new), V>(d: seq<Entry<K, V>>, bound: int, k: K, v: V)
    requires Valid(d) && StoreAtEnd(d, bound, k, v).Ok?
    ensures Valid(StoreAtEnd(d, bound, k, v).value)
  {
    var kept := AfterBoundCheck(d, bound);
    if |d| >= bound && d != [] {
      DistinctTail(Keys(d));
    }
    WithoutFacts(kept, k);
    DistinctAppend(Without(kept, k), k);
  }

  /** In a real dict, looking up the key at a position yields the value
      stored there. */
  lemma {:induction false} FindAt<K(!new), V>(d: seq<Entry<K, V>>, i: nat)
    requires Valid(d) && i < |d|
    ensures Find(d, d[i].key) == Some(d[i].value)
    decreases i
  {
    if i > 0 {
      assert Keys(d)[0] != Keys(d)[i];
      DistinctTail(Keys(d));
      assert Keys(d[1..]) == Keys(d)[1..];
      assert d[1..][i - 1] == d[i];
      FindAt(d[1..], i - 1);
    }
  }
}
