/** `monte_carlo_simulation`: run the simulation `num_runs` times on the same
    simulator object and average the free-request counts. The threaded
    variants collect the counts in completion order, which the average
    does not depend on. */
module MonteCarlo {
  import opened Common
  import opened HotLayer
  import opened RequestLoop

  function Sum(xs: seq<int>): int {
    if xs == [] then 0 else xs[0] + Sum(xs[1..])
  }

  lemma {:induction false} SumConcat(a: seq<int>, b: seq<int>)
    ensures Sum(a + b) == Sum(a) + Sum(b)
    decreases |a|
  {
    if a == [] {
      assert a + b == b;
    } else {
      assert (a + b)[0] == a[0];
      assert (a + b)[1..] == a[1..] + b;
      SumConcat(a[1..], b);
    }
  }

  /** Taking one element out of the sum. */
  lemma SumRemove(xs: seq<int>, j: nat)
    requires j < |xs|
    ensures Sum(xs) == xs[j] + Sum(xs[..j] + xs[j + 1..])
  {
    assert xs == xs[..j] + ([xs[j]] + xs[j + 1..]);
    SumConcat(xs[..j], [xs[j]] + xs[j + 1..]);
    SumConcat(xs[..j], xs[j + 1..]);
  }

  /** Taking out the element at `j` takes one copy of it out of the
      multiset. */
  lemma RemoveAt(b: seq<int>, j: int)
    requires 0 <= j < |b|
    ensures multiset(b[..j] + b[j + 1..]) == multiset(b) - multiset{b[j]}
  {
    assert b == b[..j] + [b[j]] + b[j + 1..];
  }

  /** The total does not depend on the order the counts arrive in. */
  lemma {:induction false} SumPermutation(a: seq<int>, b: seq<int>)
    requires multiset(a) == multiset(b)
    ensures Sum(a) == Sum(b)
    decreases |a|
  {
    if a != [] {
      assert a[0] in multiset(b);
      var j :| 0 <= j < |b| && b[j] == a[0];
      var b' := b[..j] + b[j + 1..];
      RemoveAt(b, j);
      assert a == [a[0]] + a[1..];
      assert multiset(a[1..]) == multiset(b') by {
        assert multiset(a) == multiset{a[0]} + multiset(a[1..]);
      }
      SumPermutation(a[1..], b');
      SumRemove(b, j);
    } else {
      assert |multiset(b)| == 0;
    }
  }

  /** `total / num_runs`: ZeroDivisionError for zero runs. */
  function Average(counts: seq<int>, numRuns: int): (r: Result<real>)
    ensures r.Err? <==> numRuns == 0
    ensures r.Err? ==> r.error == ZeroDivisionError
    ensures r.Ok? ==> r.value * numRuns as real == Sum(counts) as real
  {
    if numRuns == 0 then Err(ZeroDivisionError) else Ok(Sum(counts) as real / numRuns as real)
  }

  /** Counts between 0 and `bound` add up to at most `bound` per count. */
  lemma {:induction false} SumWithin(counts: seq<int>, bound: int)
    requires forall i :: 0 <= i < |counts| ==> 0 <= counts[i] <= bound
    ensures 0 <= Sum(counts) <= bound * |counts|
    decreases |counts|
  {
    if counts != [] {
      SumWithin(counts[1..], bound);
      assert bound * |counts| == bound + bound * |counts[1..]|;
    }
  }

  /** The average of counts between 0 and `bound` lies between 0 and `bound`. */
  lemma AverageWithin(counts: seq<int>, numRuns: int, bound: int)
    requires numRuns > 0 && |counts| == numRuns
    requires forall i :: 0 <= i < |counts| ==> 0 <= counts[i] <= bound
    ensures Average(counts, numRuns).Ok?
    ensures 0.0 <= Average(counts, numRuns).value <= bound as real
  {
    SumWithin(counts, bound);
    var v := Average(counts, numRuns).value;
    var n := numRuns as real;
    assert v == Sum(counts) as real / n;
    assert (bound * numRuns) as real == bound as real * n;
    assert Sum(counts) as real <= bound as real * n;
    DivideWithin(Sum(counts) as real, bound as real, n);
  }

  lemma DivideWithin(s: real, b: real, n: real)
    requires n > 0.0 && 0.0 <= s <= b * n
    ensures 0.0 <= s / n <= b
  {
    assert s / n * n == s;
  }

  /** The threaded average: any arrival order gives the same result. */
  lemma AverageAnyOrder(counts: seq<int>, arrived: seq<int>, numRuns: int)
    requires multiset(arrived) == multiset(counts)
    ensures Average(arrived, numRuns) == Average(counts, numRuns)
  {
    SumPermutation(arrived, counts);
  }

  /** How many times `for _ in range(num_runs)` iterates. */
  function Iterations(numRuns: int): nat {
    if numRuns < 0 then 0 else numRuns
  }

  /** The runs one after the other on the same object; each starts with an
      empty history and a zero count. Returns the object afterwards and the
      free count of each run. */
  function Runs(rule: HistoryRule, hot: Hot, traces: seq<seq<Request>>): (r: Result<(Hot, seq<int>)>)
    ensures r.Ok? ==> |r.value.1| == |traces| && SameKind(hot, r.value.0)
    ensures !hot.BareBatch? && Capacity(hot) >= 1 ==> r.Ok?
    decreases |traces|
  {
    if traces == [] then Ok((hot, []))
    else
      var first := Simulate(rule, Run(hot, [], 0), traces[0]);
      if first.Err? then Err(first.error)
      else
        var rest := Runs(rule, first.value.hot, traces[1..]);
        if rest.Err? then Err(rest.error) else Ok((rest.value.0, [first.value.free as int] + rest.value.1))
  }

  /** All traces back to back. */
  function Flatten(traces: seq<seq<Request>>): seq<Request> {
    if traces == [] then [] else traces[0] + Flatten(traces[1..])
  }

  /** Since the cache is never reset, the runs together count exactly the
      free requests of one long run over all the traces. */
  lemma {:induction false} RunsShareOneCache(rule: HistoryRule, hot: Hot, traces: seq<seq<Request>>, history: seq<seq<Scene>>, free: nat)
    requires Runs(rule, hot, traces).Ok?
    ensures Simulate(rule, Run(hot, history, free), Flatten(traces)).Ok?
    ensures Simulate(rule, Run(hot, history, free), Flatten(traces)).value.hot == Runs(rule, hot, traces).value.0
    ensures Simulate(rule, Run(hot, history, free), Flatten(traces)).value.free == free + Sum(Runs(rule, hot, traces).value.1)
    decreases |traces|
  {
    if traces != [] {
      SimulateConcat(rule, Run(hot, history, free), traces[0], Flatten(traces[1..]));
      FreshStart(rule, hot, history, free, traces[0]);
      var first := Simulate(rule, Run(hot, [], 0), traces[0]).value;
      var long := Simulate(rule, Run(hot, history, free), traces[0]).value;
      RunsShareOneCache(rule, first.hot, traces[1..], long.history, long.free);
    }
  }

  /** A run's cache and count do not depend on the history and count it
      starts from, apart from the offset in the count. */
  lemma {:induction false} FreshStart(rule: HistoryRule, hot: Hot, history: seq<seq<Scene>>, free: nat, reqs: seq<Request>)
    ensures Simulate(rule, Run(hot, [], 0), reqs).Ok? <==> Simulate(rule, Run(hot, history, free), reqs).Ok?
    ensures Simulate(rule, Run(hot, [], 0), reqs).Ok? ==>
              Simulate(rule, Run(hot, history, free), reqs).value.hot == Simulate(rule, Run(hot, [], 0), reqs).value.hot &&
              Simulate(rule, Run(hot, history, free), reqs).value.free == free + Simulate(rule, Run(hot, [], 0), reqs).value.free
    decreases |reqs|
  {
    if reqs != [] {
      var a := Step(rule, Run(hot, [], 0), reqs[0]);
      var b := Step(rule, Run(hot, history, free), reqs[0]);
      if a.Ok? {
        assert b.Ok? && b.value.hot == a.value.hot && b.value.free == free + a.value.free;
        FreshStartFrom(rule, a.value, b.value, free, reqs[1..]);
      }
    }
  }

  lemma {:induction false} FreshStartFrom(rule: HistoryRule, a: Run, b: Run, offset: nat, reqs: seq<Request>)
    requires a.hot == b.hot && b.free == offset + a.free
    ensures Simulate(rule, a, reqs).Ok? <==> Simulate(rule, b, reqs).Ok?
    ensures Simulate(rule, a, reqs).Ok? ==>
              Simulate(rule, b, reqs).value.hot == Simulate(rule, a, reqs).value.hot &&
              Simulate(rule, b, reqs).value.free == offset + Simulate(rule, a, reqs).value.free
    decreases |reqs|
  {
    if reqs != [] {
      var a1 := Step(rule, a, reqs[0]);
      var b1 := Step(rule, b, reqs[0]);
      if a1.Ok? {
        FreshStartFrom(rule, a1.value, b1.value, offset, reqs[1..]);
      }
    }
  }

  /** `monte_carlo_simulation(num_runs)`: the runs on the shared object,
      then the average of their free counts. */
  function Simulation(rule: HistoryRule, hot: Hot, traces: seq<seq<Request>>, numRuns: int): (r: Result<real>)
    requires |traces| == Iterations(numRuns)
    ensures numRuns == 0 ==> r == Err(ZeroDivisionError)
    ensures r.Ok? ==> Runs(rule, hot, traces).Ok? && r == Average(Runs(rule, hot, traces).value.1, numRuns)
    ensures !hot.BareBatch? && Capacity(hot) >= 1 && numRuns != 0 ==> r.Ok?
  {
    var runs := Runs(rule, hot, traces);
    if runs.Err? then Err(runs.error) else Average(runs.value.1, numRuns)
  }

  /** The free counts are per-run counts of a single trace through one
      cache, so the result is the long run's free count over `num_runs`. */
  lemma SimulationIsOneLongRun(rule: HistoryRule, hot: Hot, traces: seq<seq<Request>>, numRuns: int)
    requires |traces| == Iterations(numRuns) && numRuns != 0
    requires Simulation(rule, hot, traces, numRuns).Ok?
    ensures Simulate(rule, Run(hot, [], 0), Flatten(traces)).Ok?
    ensures Simulation(rule, hot, traces, numRuns) ==
            Ok(Simulate(rule, Run(hot, [], 0), Flatten(traces)).value.free as real / numRuns as real)
  {
    var counts := Runs(rule, hot, traces).value.1;
    var long := Simulate(rule, Run(hot, [], 0), Flatten(traces));
    assert long.Ok? && long.value.free == Sum(counts) by {
      RunsShareOneCache(rule, hot, traces, [], 0);
    }
  }

  /** The runs one after the other on the same object for a simulator whose
      `run_simulation` is `run`, each given its own input (the rows or draws
      it would receive). */
  function RunEach<X>(run: (Hot, X) -> Result<Run>, hot: Hot, inputs: seq<X>): (r: Result<(Hot, seq<int>)>)
    ensures r.Ok? ==> |r.value.1| == |inputs|
    ensures r.Ok? ==> forall i :: 0 <= i < |inputs| ==> r.value.1[i] >= 0
    decreases |inputs|
  {
    if inputs == [] then Ok((hot, []))
    else
      var first := run(hot, inputs[0]);
      if first.Err? then Err(first.error)
      else
        var rest := RunEach(run, first.value.hot, inputs[1..]);
        if rest.Err? then rest else Ok((rest.value.0, [first.value.free as int] + rest.value.1))
  }

  /** A simulator whose every run is a trace through the request loop
      averages exactly as `Simulation` does. */
  lemma {:induction false} RunEachIsRuns<X>(run: (Hot, X) -> Result<Run>, rule: HistoryRule, hot: Hot, inputs: seq<X>, traces: seq<seq<Request>>)
    requires |inputs| == |traces|
    requires forall h: Hot, i :: 0 <= i < |inputs| ==> run(h, inputs[i]) == Simulate(rule, Run(h, [], 0), traces[i])
    ensures RunEach(run, hot, inputs) == Runs(rule, hot, traces)
    decreases |inputs|
  {
    if inputs != [] {
      var first := run(hot, inputs[0]);
      if first.Ok? {
        forall h: Hot, i | 0 <= i < |inputs[1..]|
          ensures run(h, inputs[1..][i]) == Simulate(rule, Run(h, [], 0), traces[1..][i])
        {
          assert inputs[1..][i] == inputs[i + 1] && traces[1..][i] == traces[i + 1];
        }
        RunEachIsRuns(run, rule, first.value.hot, inputs[1..], traces[1..]);
      }
    }
  }

  /** `monte_carlo_simulation(num_runs)` of such a simulator. */
  function MonteCarloOf<X>(run: (Hot, X) -> Result<Run>, hot: Hot, inputs: seq<X>, numRuns: int): (r: Result<real>)
    requires |inputs| == Iterations(numRuns)
    ensures numRuns == 0 ==> r == Err(ZeroDivisionError)
    ensures r.Ok? ==> RunEach(run, hot, inputs).Ok? && r == Average(RunEach(run, hot, inputs).value.1, numRuns)
  {
    var runs := RunEach(run, hot, inputs);
    if runs.Err? then Err(runs.error) else Average(runs.value.1, numRuns)
  }

  /** When no run counts more than `bound` free requests, neither does the
      average. */
  lemma {:induction false} RunEachWithin<X>(run: (Hot, X) -> Result<Run>, hot: Hot, inputs: seq<X>, bound: int)
    requires RunEach(run, hot, inputs).Ok?
    requires forall h: Hot, i :: 0 <= i < |inputs| && run(h, inputs[i]).Ok? ==> run(h, inputs[i]).value.free <= bound
    ensures forall i :: 0 <= i < |inputs| ==> RunEach(run, hot, inputs).value.1[i] <= bound
    decreases |inputs|
  {
    if inputs != [] {
      var first := run(hot, inputs[0]).value;
      forall h: Hot, i | 0 <= i < |inputs[1..]| && run(h, inputs[1..][i]).Ok?
        ensures run(h, inputs[1..][i]).value.free <= bound
      {
        assert inputs[1..][i] == inputs[i + 1];
      }
      RunEachWithin(run, first.hot, inputs[1..], bound);
      var counts := RunEach(run, hot, inputs).value.1;
      assert counts == [first.free as int] + RunEach(run, first.hot, inputs[1..]).value.1;
    }
  }

  lemma MonteCarloOfWithin<X>(run: (Hot, X) -> Result<Run>, hot: Hot, inputs: seq<X>, numRuns: int, bound: int)
    requires |inputs| == Iterations(numRuns) && numRuns > 0
    requires MonteCarloOf(run, hot, inputs, numRuns).Ok?
    requires forall h: Hot, i :: 0 <= i < |inputs| && run(h, inputs[i]).Ok? ==> run(h, inputs[i]).value.free <= bound
    ensures 0.0 <= MonteCarloOf(run, hot, inputs, numRuns).value <= bound as real
  {
    RunEachWithin(run, hot, inputs, bound);
    AverageWithin(RunEach(run, hot, inputs).value.1, numRuns, bound);
  }
}
