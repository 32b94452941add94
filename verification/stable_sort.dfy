/** Python's `sorted(lines, key=...)` on strings: a stable sort by a string
    key compared code point by code point. */
module StableSort {
  import opened Text

  /** `a` may come before `b`. */
  predicate LeBy(key: string -> string, a: string, b: string) {
    LexLe(key(a), key(b))
  }

  predicate SortedBy(key: string -> string, s: seq<string>) {
    forall p, q :: 0 <= p < q < |s| ==> LeBy(key, s[p], s[q])
  }

  /** The lines of `s` whose key is `k`, in order. */
  function WithKey(key: string -> string, s: seq<string>, k: string): (r: seq<string>)
    ensures |r| <= |s|
  {
    if s == [] then []
    else (if key(s[0]) == k then [s[0]] else []) + WithKey(key, s[1..], k)
  }

  /** Inserting `x` after every line whose key is at most its own. */
  function Insert(key: string -> string, x: string, s: seq<string>): (r: seq<string>)
    ensures |r| == |s| + 1
  {
    if s == [] then [x]
    else if !LeBy(key, s[0], x) then [x] + s
    else [s[0]] + Insert(key, x, s[1..])
  }

  /** Insertion of `rest`, line by line, into the already sorted `acc`. */
  function SortInto(key: string -> string, acc: seq<string>, rest: seq<string>): (r: seq<string>)
    ensures |r| == |acc| + |rest|
    decreases |rest|
  {
    if rest == [] then acc else SortInto(key, Insert(key, rest[0], acc), rest[1..])
  }

  function SortBy(key: string -> string, lines: seq<string>): (r: seq<string>)
    ensures |r| == |lines|
  {
    SortInto(key, [], lines)
  }

  /** The identity key of a plain `sorted`. */
  function Ordinal(s: string): string {
    s
  }

  /** No line of `s` has key `k`. */
  lemma {:induction false} WithKeyNone(key: string -> string, s: seq<string>, k: string)
    requires forall j :: 0 <= j < |s| ==> key(s[j]) != k
    ensures WithKey(key, s, k) == []
    decreases |s|
  {
    if s != [] {
      WithKeyNone(key, s[1..], k);
    }
  }

  /** A sorted run with a head at least `x` is still sorted with `x` in
      front. */
  lemma ConsSorted(key: string -> string, x: string, s: seq<string>)
    requires SortedBy(key, s)
    requires forall j :: 0 <= j < |s| ==> LeBy(key, x, s[j])
    ensures SortedBy(key, [x] + s)
  {
    var c := [x] + s;
    forall p, q | 0 <= p < q < |c| ensures LeBy(key, c[p], c[q]) {
      assert c[q] == s[q - 1];
      if p > 0 {
        assert c[p] == s[p - 1];
      }
    }
  }

  /** Insertion adds one `x` and nothing else. */
  lemma {:induction false} InsertMultiset(key: string -> string, x: string, s: seq<string>)
    ensures multiset(Insert(key, x, s)) == multiset(s) + multiset{x}
    decreases |s|
  {
    if s != [] && LeBy(key, s[0], x) {
      InsertMultiset(key, x, s[1..]);
      assert s == [s[0]] + s[1..];
    }
  }

  /** The tail of a sorted run is sorted. */
  lemma SortedTail(key: string -> string, s: seq<string>)
    requires SortedBy(key, s) && s != []
    ensures SortedBy(key, s[1..])
  {
    var t := s[1..];
    forall p, q | 0 <= p < q < |t| ensures LeBy(key, t[p], t[q]) {
      assert t[p] == s[p + 1] && t[q] == s[q + 1];
    }
  }

  /** Insertion into a sorted run keeps it sorted. */
  lemma {:induction false} InsertSorted(key: string -> string, x: string, s: seq<string>)
    requires SortedBy(key, s)
    ensures SortedBy(key, Insert(key, x, s))
    decreases |s|
  {
    if s == [] {
    } else if !LeBy(key, s[0], x) {
      LexLeTotal(key(s[0]), key(x));
      forall j | 0 <= j < |s| ensures LeBy(key, x, s[j]) {
        if j > 0 {
          LexLeTransitive(key(x), key(s[0]), key(s[j]));
        }
      }
      ConsSorted(key, x, s);
    } else {
      var t := s[1..];
      SortedTail(key, s);
      InsertSorted(key, x, t);
      InsertMultiset(key, x, t);
      var it := Insert(key, x, t);
      forall j | 0 <= j < |it| ensures LeBy(key, s[0], it[j]) {
        assert it[j] in multiset(it);
        if it[j] != x {
          assert it[j] in multiset(t);
          var q :| 0 <= q < |t| && t[q] == it[j];
          assert t[q] == s[q + 1];
        }
      }
      ConsSorted(key, s[0], it);
    }
  }

  /** When `x` goes in front of a sorted run, no line of the run shares its
      key. */
  lemma NoneWithKeyAhead(key: string -> string, x: string, s: seq<string>)
    requires SortedBy(key, s) && s != [] && !LeBy(key, s[0], x)
    ensures forall j :: 0 <= j < |s| ==> key(s[j]) != key(x)
  {
    LexLeTotal(key(x), key(x));
    forall j | 0 < j < |s| ensures key(s[j]) != key(x) {
      assert LeBy(key, s[0], s[j]);
    }
  }

  /** `x` inserted in front of a sorted run comes after every line of its
      key, there being none. */
  lemma InsertWithKeyFront(key: string -> string, x: string, s: seq<string>, k: string)
    requires SortedBy(key, s) && s != [] && !LeBy(key, s[0], x)
    ensures WithKey(key, [x] + s, k) == WithKey(key, s, k) + (if key(x) == k then [x] else [])
  {
    if key(x) == k {
      NoneWithKeyAhead(key, x, s);
      WithKeyNone(key, s, k);
    }
    assert ([x] + s)[0] == x && ([x] + s)[1..] == s;
  }

  /** Among the lines with any one key, an inserted `x` comes last. */
  lemma {:induction false} InsertWithKey(key: string -> string, x: string, s: seq<string>, k: string)
    requires SortedBy(key, s)
    ensures WithKey(key, Insert(key, x, s), k) == WithKey(key, s, k) + (if key(x) == k then [x] else [])
    decreases |s|
  {
    if s == [] {
    } else if !LeBy(key, s[0], x) {
      InsertWithKeyFront(key, x, s, k);
    } else {
      SortedTail(key, s);
      InsertWithKey(key, x, s[1..], k);
      var t := Insert(key, x, s[1..]);
      assert Insert(key, x, s) == [s[0]] + t;
      assert ([s[0]] + t)[0] == s[0] && ([s[0]] + t)[1..] == t;
    }
  }

  /** Inserting `rest` into a sorted `acc`: sorted, the same lines, and the
      lines of each key in the order of `acc` then `rest`. */
  lemma {:induction false} SortIntoFacts(key: string -> string, acc: seq<string>, rest: seq<string>, k: string)
    requires SortedBy(key, acc)
    ensures SortedBy(key, SortInto(key, acc, rest))
    ensures multiset(SortInto(key, acc, rest)) == multiset(acc) + multiset(rest)
    ensures WithKey(key, SortInto(key, acc, rest), k) == WithKey(key, acc, k) + WithKey(key, rest, k)
    decreases |rest|
  {
    if rest != [] {
      InsertSorted(key, rest[0], acc);
      InsertMultiset(key, rest[0], acc);
      InsertWithKey(key, rest[0], acc, k);
      SortIntoFacts(key, Insert(key, rest[0], acc), rest[1..], k);
      assert rest == [rest[0]] + rest[1..];
    }
  }

  /** `sorted(lines, key=key)`: ordered by key, a permutation of the lines,
      and stable: the lines sharing a key keep their relative order. */
  lemma SortByFacts(key: string -> string, lines: seq<string>, k: string)
    ensures SortedBy(key, SortBy(key, lines))
    ensures multiset(SortBy(key, lines)) == multiset(lines)
    ensures WithKey(key, SortBy(key, lines), k) == WithKey(key, lines, k)
  {
    SortIntoFacts(key, [], lines, k);
  }

  /** A plain `sorted` puts every capital before every small letter; the
      casefolded key orders by letter alone. */
  lemma OrdinalPutsCapitalsFirst()
    ensures SortBy(Ordinal, ["a=1\n", "B=2\n"]) == ["B=2\n", "a=1\n"]
    ensures SortBy(Casefold, ["a=1\n", "B=2\n"]) == ["a=1\n", "B=2\n"]
  {
    assert !LexLe("a=1\n", "B=2\n");
    assert LowerChar('B') == 'b';
    assert Casefold("a=1\n") == "a=1\n";
    assert Casefold("B=2\n") == "b=2\n";
    assert LexLe("a=1\n", "b=2\n");
    assert LeBy(Casefold, "a=1\n", "B=2\n");
    assert Insert(Casefold, "B=2\n", ["a=1\n"]) == ["a=1\n"] + Insert(Casefold, "B=2\n", []);
  }
}
