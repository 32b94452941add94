/** The weight grid: every (region, state, county) weight triple on a step
    grid whose components add up to one.  Weights are kept in exact
    hundredths, the precision the enumerator rounds to, so the rounding and
    the float equality test become integer arithmetic. */
module WeightGrid {

  /** A weight triple in hundredths. */
  datatype Weights = Weights(region: int, state: int, county: int)

  /** One, in hundredths. */
  const Whole := 100

  /** The filter applied to each candidate triple: the third weight lies in
      [0, 1] and the three add up to one. */
  predicate Keep(i: int, j: int, k: int) {
    0 <= k <= Whole && i + j + k == Whole
  }

  /** The inner loop for region weight `i`, from state weight `j` on: `j`
      runs in steps of `s` while it is below `1 - i + s`. */
  function Inner(s: nat, i: int, j: int): seq<Weights>
    requires s >= 1
    decreases Whole - i + s - j
  {
    if j >= Whole - i + s then []
    else
      var k := Whole - i - j;
      (if Keep(i, j, k) then [Weights(i, j, k)] else []) + Inner(s, i, j + s)
  }

  /** The outer loop, from region weight `i` on: `i` runs in steps of `s`
      while it is below `1 + s`. */
  function Outer(s: nat, i: int): seq<Weights>
    requires s >= 1
    decreases Whole + s - i
  {
    if i >= Whole + s then [] else Inner(s, i, 0) + Outer(s, i + s)
  }

  /** Everything the enumerator emits for step `s` (in hundredths). */
  function Grid(s: nat): seq<Weights>
    requires s >= 1
  {
    Outer(s, 0)
  }

  /** One step of the inner loop: the candidate at `j`, if kept, then the
      rest of the row. */
  lemma InnerStep(s: nat, i: int, j: int, row: seq<Weights>)
    requires s >= 1 && j < Whole - i + s
    ensures row + Inner(s, i, j)
              == (if Keep(i, j, Whole - i - j) then row + [Weights(i, j, Whole - i - j)] else row)
                 + Inner(s, i, j + s)
  {
    var k := Whole - i - j;
    if Keep(i, j, k) {
      assert row + ([Weights(i, j, k)] + Inner(s, i, j + s)) == (row + [Weights(i, j, k)]) + Inner(s, i, j + s);
    } else {
      assert [] + Inner(s, i, j + s) == Inner(s, i, j + s);
    }
  }

  /** The inner loop of `linear_combinations` for region weight `i`. */
  method InnerRow(step: nat, i: int) returns (row: seq<Weights>)
    requires step >= 1
    ensures row == Inner(step, i, 0)
  {
    row := [];
    var j := 0;
    while j < Whole - i + step
      invariant row + Inner(step, i, j) == Inner(step, i, 0)
      decreases Whole - i + step - j
    {
      InnerStep(step, i, j, row);
      var k := Whole - i - j;
      if Keep(i, j, k) {
        row := row + [Weights(i, j, k)];
      }
      j := j + step;
    }
    assert row + [] == row;
  }

  /** `linear_combinations(step)`: the outer loop over the region weights. */
  method LinearCombinations(step: nat) returns (combos: seq<Weights>)
    requires step >= 1
    ensures combos == Grid(step)
  {
    combos := [];
    var i := 0;
    while i < Whole + step
      invariant combos + Outer(step, i) == Grid(step)
      decreases Whole + step - i
    {
      var row := InnerRow(step, i);
      assert Outer(step, i) == row + Outer(step, i + step);
      combos := combos + row;
      i := i + step;
    }
  }

  /** A triple on the grid of step `s`: the first two weights are
      non-negative multiples of the step adding up to at most one, and the
      third makes up the rest. */
  predicate OnGrid(s: nat, w: Weights)
    requires s >= 1
  {
    0 <= w.region && w.region % s == 0
    && 0 <= w.state && w.state % s == 0
    && w.region + w.state <= Whole
    && w.county == Whole - w.region - w.state
  }

  /** Two multiples of `s`, the first above the second, are at least a step
      apart. */
  lemma {:induction false} StepApart(s: nat, a: int, b: int)
    requires s >= 1 && a % s == 0 && b % s == 0 && a > b
    ensures a >= b + s
  {
    var p, q := a / s, b / s;
    assert a == s * p && b == s * q;
    MulCancel(s, p, q);
    MulMonotone(s, q + 1, p);
  }

  lemma MulMonotone(s: nat, p: int, q: int)
    requires p <= q
    ensures s * p <= s * q
  {
  }

  /** A positive factor keeps a strict order. */
  lemma MulCancel(s: nat, p: int, q: int)
    requires s >= 1 && s * p > s * q
    ensures p > q
  {
    if p <= q {
      MulMonotone(s, p, q);
    }
  }

  /** Adding a step keeps a multiple of the step. */
  lemma {:induction false} StepMultiple(s: nat, a: int)
    requires s >= 1 && a % s == 0
    ensures (a + s) % s == 0
  {
    var p, d, r := a / s, (a + s) / s, (a + s) % s;
    assert a == s * p;
    assert a + s == s * d + r && 0 <= r < s;
    assert s * (p + 1) == s * d + r;
    if p + 1 > d {
      MulMonotone(s, d + 1, p + 1);
    } else if p + 1 < d {
      MulMonotone(s, p + 1, d - 1);
    }
  }

  /** What the inner loop emits, from a state weight on the grid. */
  lemma {:induction false} InnerMembers(s: nat, i: int, j: int, w: Weights)
    requires s >= 1 && i >= 0 && j >= 0 && j % s == 0
    ensures w in Inner(s, i, j) <==>
              w.region == i && j <= w.state && w.state % s == 0
              && i + w.state <= Whole && w.county == Whole - i - w.state
    decreases Whole - i + s - j
  {
    if j < Whole - i + s {
      StepMultiple(s, j);
      InnerMembers(s, i, j + s, w);
      if w.region == i && j < w.state && w.state % s == 0 {
        StepApart(s, w.state, j);
      }
    }
  }

  /** What the outer loop emits, from a region weight on the grid. */
  lemma {:induction false} OuterMembers(s: nat, i: int, w: Weights)
    requires s >= 1 && i >= 0 && i % s == 0
    ensures w in Outer(s, i) <==> OnGrid(s, w) && i <= w.region
    decreases Whole + s - i
  {
    if i < Whole + s {
      StepMultiple(s, i);
      InnerMembers(s, i, 0, w);
      OuterMembers(s, i + s, w);
      if OnGrid(s, w) && i < w.region {
        StepApart(s, w.region, i);
      }
    }
  }

  /** The enumerator emits exactly the grid triples. */
  lemma GridMembers(s: nat, w: Weights)
    requires s >= 1
    ensures w in Grid(s) <==> OnGrid(s, w)
  {
    OuterMembers(s, 0, w);
  }

  /** Every emitted triple has its third weight in [0, 1], its first two
      weights non-negative, and adds up to one. */
  lemma GridInRange(s: nat, w: Weights)
    requires s >= 1 && w in Grid(s)
    ensures 0 <= w.region && 0 <= w.state && 0 <= w.county <= Whole
    ensures w.region + w.state + w.county == Whole
  {
    GridMembers(s, w);
  }

  /** Ascending region weight, then ascending state weight. */
  predicate Before(a: Weights, b: Weights) {
    a.region < b.region || (a.region == b.region && a.state < b.state)
  }

  predicate Ascending(ws: seq<Weights>) {
    forall p, q :: 0 <= p < q < |ws| ==> Before(ws[p], ws[q])
  }

  /** Two ascending runs, every element of the first before every element of
      the second, make an ascending run. */
  lemma ConcatAscending(a: seq<Weights>, b: seq<Weights>)
    requires Ascending(a) && Ascending(b)
    requires forall p, q :: 0 <= p < |a| && 0 <= q < |b| ==> Before(a[p], b[q])
    ensures Ascending(a + b)
  {
    var c := a + b;
    forall p, q | 0 <= p < q < |c| ensures Before(c[p], c[q]) {
      if q < |a| {
        assert c[p] == a[p] && c[q] == a[q];
      } else if p >= |a| {
        assert c[p] == b[p - |a|] && c[q] == b[q - |a|];
      } else {
        assert c[p] == a[p] && c[q] == b[q - |a|];
      }
    }
  }

  /** The inner loop emits ascending state weights from `j` on, all with
      region weight `i`. */
  lemma {:induction false} InnerAscending(s: nat, i: int, j: int)
    requires s >= 1
    ensures Ascending(Inner(s, i, j))
    ensures forall w :: w in Inner(s, i, j) ==> w.region == i && w.state >= j
    decreases Whole - i + s - j
  {
    if j < Whole - i + s {
      InnerAscending(s, i, j + s);
      var k := Whole - i - j;
      var head: seq<Weights> := if Keep(i, j, k) then [Weights(i, j, k)] else [];
      var rest := Inner(s, i, j + s);
      forall p, q | 0 <= p < |head| && 0 <= q < |rest| ensures Before(head[p], rest[q]) {
        assert rest[q] in rest;
      }
      ConcatAscending(head, rest);
    }
  }

  /** The outer loop emits ascending triples from region weight `i` on. */
  lemma {:induction false} OuterAscending(s: nat, i: int)
    requires s >= 1
    ensures Ascending(Outer(s, i))
    ensures forall w :: w in Outer(s, i) ==> w.region >= i
    decreases Whole + s - i
  {
    if i < Whole + s {
      InnerAscending(s, i, 0);
      OuterAscending(s, i + s);
      var row := Inner(s, i, 0);
      var rest := Outer(s, i + s);
      forall p, q | 0 <= p < |row| && 0 <= q < |rest| ensures Before(row[p], rest[q]) {
        assert row[p] in row && rest[q] in rest;
      }
      ConcatAscending(row, rest);
    }
  }

  /** The list is ordered by region weight, then by state weight, with no
      triple twice. */
  lemma GridAscending(s: nat)
    requires s >= 1
    ensures Ascending(Grid(s))
  {
    OuterAscending(s, 0);
  }

  /** With `1 - i` equal to `t` steps, the inner loop from the `q`-th step
      emits the `t - q + 1` remaining state weights. */
  lemma {:induction false} InnerCount(s: nat, i: int, t: int, q: int)
    requires s >= 1 && i >= 0 && t * s == Whole - i && 0 <= q <= t + 1
    ensures |Inner(s, i, q * s)| == t - q + 1
    decreases t + 1 - q
  {
    if q <= t {
      assert q * s < Whole - i + s by { MulMonotone(s, q, t); }
      assert (q + 1) * s == q * s + s;
      assert Keep(i, q * s, Whole - i - q * s) by {
        MulMonotone(s, q, t);
        assert 0 <= q * s;
      }
      InnerCount(s, i, t, q + 1);
    } else {
      assert q * s == t * s + s;
    }
  }

  /** With the step a whole fraction `1 / m`, the outer loop from region
      weight `(m - t)` steps emits `(t + 1)(t + 2) / 2` triples. */
  lemma {:induction false} OuterCount(s: nat, m: nat, t: int)
    requires s >= 1 && m * s == Whole && -1 <= t <= m
    ensures |Outer(s, (m - t) * s)| == (t + 1) * (t + 2) / 2
    decreases t + 1
  {
    var i := (m - t) * s;
    assert i == m * s - t * s;
    if t >= 0 {
      assert i < Whole + s;
      assert i >= 0 by { MulMonotone(s, 0, m - t); }
      assert 0 * s == 0;
      InnerCount(s, i, t, 0);
      assert i + s == (m - (t - 1)) * s;
      OuterCount(s, m, t - 1);
      assert (t + 1) + t * (t + 1) / 2 == (t + 1) * (t + 2) / 2 by {
        assert (t + 1) * (t + 2) == t * (t + 1) + 2 * (t + 1);
      }
    } else {
      assert i == Whole + s;
    }
  }

  /** With step `1 / m`, each grid pair yields one triple:
      `(m + 1)(m + 2) / 2` triples in all. */
  lemma GridCount(s: nat, m: nat)
    requires s >= 1 && m * s == Whole
    ensures |Grid(s)| == (m + 1) * (m + 2) / 2
  {
    OuterCount(s, m, m);
    assert (m - m) * s == 0;
  }
}
