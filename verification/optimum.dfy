/** Picking the best weight triple from the Monte Carlo results: the results
    dict (weights to average free requests, in insertion order) is split
    into columns and the first index of the largest average is taken. */
module Optimum {
  import opened Common
  import opened OrderedDict
  import opened WeightGrid

  /** The four columns `order_results` builds: region, state and county
      weights, and the averages. */
  datatype Columns = Columns(x: seq<int>, y: seq<int>, z: seq<int>, values: seq<real>)

  predicate SameLength(c: Columns) {
    |c.x| == |c.y| == |c.z| == |c.values|
  }

  /** Putting the columns back together row by row. */
  function Zip(c: Columns): (rows: seq<Entry<Weights, real>>)
    requires SameLength(c)
    ensures |rows| == |c.x|
    decreases |c.x|
  {
    if c.x == [] then []
    else
      [Entry(Weights(c.x[0], c.y[0], c.z[0]), c.values[0])]
        + Zip(Columns(c.x[1..], c.y[1..], c.z[1..], c.values[1..]))
  }

  /** `order_results`: one pass over the results in dict order, each column
      getting one element per entry. */
  method OrderResults(results: seq<Entry<Weights, real>>) returns (c: Columns)
    ensures SameLength(c) && |c.x| == |results|
    ensures forall n :: 0 <= n < |results| ==>
              results[n].key == Weights(c.x[n], c.y[n], c.z[n]) && results[n].value == c.values[n]
  {
    var x, y, z, values := [], [], [], [];
    var n := 0;
    while n < |results|
      invariant 0 <= n <= |results|
      invariant |x| == |y| == |z| == |values| == n
      invariant forall p :: 0 <= p < n ==>
                  results[p].key == Weights(x[p], y[p], z[p]) && results[p].value == values[p]
    {
      var e := results[n];
      x := x + [e.key.region];
      y := y + [e.key.state];
      z := z + [e.key.county];
      values := values + [e.value];
      n := n + 1;
    }
    c := Columns(x, y, z, values);
  }

  /** Columns that agree with the results entry by entry zip back into the
      results. */
  lemma {:induction false} ZipColumns(results: seq<Entry<Weights, real>>, c: Columns)
    requires SameLength(c) && |c.x| == |results|
    requires forall n :: 0 <= n < |results| ==>
               results[n].key == Weights(c.x[n], c.y[n], c.z[n]) && results[n].value == c.values[n]
    ensures Zip(c) == results
    decreases |results|
  {
    if results != [] {
      var rest := Columns(c.x[1..], c.y[1..], c.z[1..], c.values[1..]);
      forall n | 0 <= n < |results| - 1
        ensures results[1..][n].key == Weights(rest.x[n], rest.y[n], rest.z[n])
        ensures results[1..][n].value == rest.values[n]
      {
        assert results[1..][n] == results[n + 1];
      }
      ZipColumns(results[1..], rest);
      assert results == [results[0]] + results[1..];
    }
  }

  /** `order_results` loses nothing: its columns zip back into the results. */
  method OrderResultsRoundTrip(results: seq<Entry<Weights, real>>) returns (c: Columns)
    ensures SameLength(c) && Zip(c) == results
  {
    c := OrderResults(results);
    ZipColumns(results, c);
  }

  /** `m` is the first index holding the largest value, `np.argmax`'s
      answer. */
  predicate FirstMax(values: seq<real>, m: int) {
    0 <= m < |values|
    && (forall n :: 0 <= n < |values| ==> values[n] <= values[m])
    && (forall n :: 0 <= n < m ==> values[n] < values[m])
  }

  /** There is only one first maximum. */
  lemma FirstMaxUnique(values: seq<real>, a: int, b: int)
    requires FirstMax(values, a) && FirstMax(values, b)
    ensures a == b
  {
    assert values[a] <= values[b] && values[b] <= values[a];
  }

  /** `np.argmax`: `ValueError` on an empty list, otherwise the first index of
      the maximum. */
  method ArgMax(values: seq<real>) returns (r: Result<nat>)
    ensures r.Err? <==> values == []
    ensures r.Err? ==> r.error == ValueError
    ensures r.Ok? ==> FirstMax(values, r.value)
  {
    if values == [] {
      return Err(ValueError);
    }
    var best := 0;
    var n := 1;
    while n < |values|
      invariant 0 <= best < n <= |values|
      invariant forall p :: 0 <= p < n ==> values[p] <= values[best]
      invariant forall p :: 0 <= p < best ==> values[p] < values[best]
    {
      if values[n] > values[best] {
        best := n;
      }
      n := n + 1;
    }
    r := Ok(best);
  }

  /** The answer of `calculate_results`: the best weights and their average. */
  datatype Best = Best(weights: Weights, average: real)

  function Averages(results: seq<Entry<Weights, real>>): (vs: seq<real>)
    ensures |vs| == |results|
    ensures forall n :: 0 <= n < |results| ==> vs[n] == results[n].value
  {
    seq(|results|, n requires 0 <= n < |results| => results[n].value)
  }

  /** `calculate_results`: the weights at the first index of the largest
      average, with that average; `ValueError` for no results. */
  method CalculateResults(results: seq<Entry<Weights, real>>) returns (r: Result<Best>)
    ensures r.Err? <==> results == []
    ensures r.Err? ==> r.error == ValueError
    ensures r.Ok? ==> exists m :: FirstMax(Averages(results), m)
                        && results[m] == Entry(r.value.weights, r.value.average)
  {
    var c := OrderResults(results);
    var index := ArgMax(c.values);
    if index.Err? {
      return Err(index.error);
    }
    var m := index.value;
    assert c.values == Averages(results);
    r := Ok(Best(Weights(c.x[m], c.y[m], c.z[m]), c.values[m]));
  }

  /** The reported average is at least every average, and in a dict (distinct
      keys) it is the value stored under the reported weights. */
  lemma BestIsStored(results: seq<Entry<Weights, real>>, b: Best, m: int)
    requires FirstMax(Averages(results), m) && results[m] == Entry(b.weights, b.average)
    ensures forall n :: 0 <= n < |results| ==> results[n].value <= b.average
    ensures Valid(results) ==> Find(results, b.weights) == Some(b.average)
  {
    var vs := Averages(results);
    assert vs[m] == b.average;
    forall n | 0 <= n < |results| ensures results[n].value <= b.average {
      assert vs[n] == results[n].value;
    }
    if Valid(results) {
      FindAt(results, m);
    }
  }
}
