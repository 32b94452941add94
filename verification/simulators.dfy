/** The `run_simulation` and `monte_carlo_simulation` methods of the
    individual simulators, each the request loop fed from its own source
    of scene lists:
    - the `QuerySimulator` family (hot_cold_simulation.py, QuerySimulator.py,
      hot_cold_simulation/modules/query_simulator.py,
      modules/animation_simulation.py) fetches one row per request and
      skips missing or empty rows; history on a miss;
    - quicksim.py fetches one row per request and crashes on a missing
      row; no history;
    - the preloading `quicksim` modules draw from dicts loaded once; no
      history;
    - hot_cold_simulation/modules/simulator.py draws from prefixes of
      pickled dicts; history on every request.
    Which cache each one holds is the `Hot` value it is given. */
module Simulators {
  import opened Common
  import opened OrderedDict
  import opened HotLayer
  import opened RequestLoop
  import opened Fetch
  import MonteCarlo

  /** `QuerySimulator.run_simulation`: the returned history and count, and
      the shared cache afterwards. */
  function QueryRun(hot: Hot, rows: seq<Row>): (r: Result<Run>)
    ensures !hot.BareBatch? && Capacity(hot) >= 1 ==> r.Ok?
    ensures r.Ok? ==> SameKind(hot, r.value.hot)
    ensures r.Ok? ==> |r.value.history| + r.value.free == Served(SkippingRequests(rows)) <= |rows|
  {
    Simulate(OnMiss, Run(hot, [], 0), SkippingRequests(rows))
  }

  lemma SkippingRequestsConcat(a: seq<Row>, b: seq<Row>)
    ensures SkippingRequests(a + b) == SkippingRequests(a) + SkippingRequests(b)
  {
    assert forall i :: 0 <= i < |a + b| ==> (a + b)[i] == if i < |a| then a[i] else b[i - |a|];
  }

  /** A missing row or an empty column leaves no trace: neither the count,
      nor the history, nor the cache sees it. */
  lemma SkippedRowIsInvisible(hot: Hot, before: seq<Row>, row: Row, after: seq<Row>)
    requires SkippingRequest(row).Skipped?
    ensures QueryRun(hot, before + [row] + after) == QueryRun(hot, before + after)
  {
    var start := Run(hot, [], 0);
    SkippingRequestsConcat(before + [row], after);
    SkippingRequestsConcat(before, [row]);
    SkippingRequestsConcat(before, after);
    var a, b := SkippingRequests(before), SkippingRequests(after);
    assert SkippingRequests([row]) == [Skipped];
    SimulateConcat(OnMiss, start, a + [Skipped], b);
    SimulateConcat(OnMiss, start, a, [Skipped]);
    SimulateConcat(OnMiss, start, a, b);
    var first := Simulate(OnMiss, start, a);
    if first.Ok? {
      assert Simulate(OnMiss, first.value, [Skipped]) == Ok(first.value);
    }
  }

  function QueryTraces(rowsPerRun: seq<seq<Row>>): (r: seq<seq<Request>>)
    ensures |r| == |rowsPerRun|
    ensures forall i :: 0 <= i < |rowsPerRun| ==> r[i] == SkippingRequests(rowsPerRun[i])
  {
    if rowsPerRun == [] then [] else [SkippingRequests(rowsPerRun[0])] + QueryTraces(rowsPerRun[1..])
  }

  /** `monte_carlo_simulation(num_runs)` of the `QuerySimulator` family
      (sequential in hot_cold_simulation.py, threaded in QuerySimulator.py). */
  function QueryMonteCarlo(hot: Hot, rowsPerRun: seq<seq<Row>>, numRuns: int): (r: Result<real>)
    requires |rowsPerRun| == MonteCarlo.Iterations(numRuns)
    ensures numRuns == 0 ==> r == Err(ZeroDivisionError)
  {
    MonteCarlo.MonteCarloOf(QueryRun, hot, rowsPerRun, numRuns)
  }

  /** The runs share one cache: the average is `Simulation` over the rows'
      requests, so it is defined whenever the cache can store, and it is the
      free count of one long run over all the rows divided by `num_runs`. */
  lemma QueryMonteCarloIsSimulation(hot: Hot, rowsPerRun: seq<seq<Row>>, numRuns: int)
    requires |rowsPerRun| == MonteCarlo.Iterations(numRuns)
    ensures QueryMonteCarlo(hot, rowsPerRun, numRuns) == MonteCarlo.Simulation(OnMiss, hot, QueryTraces(rowsPerRun), numRuns)
    ensures !hot.BareBatch? && Capacity(hot) >= 1 && numRuns != 0 ==> QueryMonteCarlo(hot, rowsPerRun, numRuns).Ok?
  {
    var traces := QueryTraces(rowsPerRun);
    MonteCarlo.RunEachIsRuns(QueryRun, OnMiss, hot, rowsPerRun, traces);
  }

  /** With at most `num` rows per run, the average lies in [0, num]. */
  lemma QueryMonteCarloWithin(hot: Hot, rowsPerRun: seq<seq<Row>>, numRuns: int, num: nat)
    requires |rowsPerRun| == MonteCarlo.Iterations(numRuns) && numRuns > 0
    requires forall i :: 0 <= i < |rowsPerRun| ==> |rowsPerRun[i]| <= num
    requires QueryMonteCarlo(hot, rowsPerRun, numRuns).Ok?
    ensures 0.0 <= QueryMonteCarlo(hot, rowsPerRun, numRuns).value <= num as real
  {
    MonteCarlo.MonteCarloOfWithin(QueryRun, hot, rowsPerRun, numRuns, num);
  }

  /** The loop of quicksim.py's `run_simulation`: each row must be there
      and non-NULL, every iteration is a request, no history is kept. */
  function StrictLoop(run: Run, rows: seq<Row>): (r: Result<Run>)
    ensures rows == [] ==> r == Ok(run)
    ensures r.Ok? ==> r.value.history == run.history && SameKind(run.hot, r.value.hot)
    ensures r.Ok? ==> run.free <= r.value.free <= run.free + |rows|
    decreases |rows|
  {
    if rows == [] then Ok(run)
    else
      var req := StrictRequest(rows[0]);
      if req.Err? then Err(req.error)
      else
        var next := Step(NoHistory, run, req.value);
        if next.Err? then Err(next.error) else StrictLoop(next.value, rows[1..])
  }

  /** With a cache that can store, quicksim.py fails exactly when some
      row is missing or NULL. */
  lemma {:induction false} StrictLoopFails(run: Run, rows: seq<Row>)
    requires !run.hot.BareBatch? && Capacity(run.hot) >= 1
    ensures StrictLoop(run, rows).Err? <==> exists i :: 0 <= i < |rows| && StrictRequest(rows[i]).Err?
    decreases |rows|
  {
    if rows != [] && StrictRequest(rows[0]).Ok? {
      var next := Step(NoHistory, run, StrictRequest(rows[0]).value);
      assert next.Ok?;
      assert StrictLoop(run, rows) == StrictLoop(next.value, rows[1..]);
      StrictLoopFails(next.value, rows[1..]);
      BadRowInTail(rows);
    }
  }

  /** Past a good first row, a bad one is in the rest. */
  lemma BadRowInTail(rows: seq<Row>)
    requires rows != [] && StrictRequest(rows[0]).Ok?
    ensures (exists i :: 0 <= i < |rows| && StrictRequest(rows[i]).Err?) <==>
            (exists i :: 0 <= i < |rows[1..]| && StrictRequest(rows[1..][i]).Err?)
  {
    if exists i :: 0 <= i < |rows| && StrictRequest(rows[i]).Err? {
      var i :| 0 <= i < |rows| && StrictRequest(rows[i]).Err?;
      assert rows[1..][i - 1] == rows[i];
    }
    if exists i :: 0 <= i < |rows[1..]| && StrictRequest(rows[1..][i]).Err? {
      var i :| 0 <= i < |rows[1..]| && StrictRequest(rows[1..][i]).Err?;
      assert rows[1..][i] == rows[i + 1];
    }
  }

  /** The requests of rows that are all present and non-NULL. */
  function StrictTrace(rows: seq<Row>): (r: seq<Request>)
    requires forall i :: 0 <= i < |rows| ==> StrictRequest(rows[i]).Ok?
    ensures |r| == |rows|
    ensures forall i :: 0 <= i < |rows| ==> r[i] == StrictRequest(rows[i]).value && r[i].Scenes?
  {
    if rows == [] then [] else [StrictRequest(rows[0]).value] + StrictTrace(rows[1..])
  }

  /** On good rows quicksim.py is the request loop with every iteration
      served. */
  lemma {:induction false} StrictLoopIsSimulate(run: Run, rows: seq<Row>)
    requires forall i :: 0 <= i < |rows| ==> StrictRequest(rows[i]).Ok?
    ensures StrictLoop(run, rows) == Simulate(NoHistory, run, StrictTrace(rows))
    ensures Served(StrictTrace(rows)) == |rows|
    decreases |rows|
  {
    if rows != [] {
      assert StrictTrace(rows)[1..] == StrictTrace(rows[1..]);
      var next := Step(NoHistory, run, StrictRequest(rows[0]).value);
      if next.Ok? {
        StrictLoopIsSimulate(next.value, rows[1..]);
      } else {
        StrictLoopIsSimulate(run, rows[1..]);
      }
    }
  }

  /** `simulation.run_simulation()` of quicksim.py. */
  function StrictRun(hot: Hot, rows: seq<Row>): (r: Result<Run>)
    ensures r.Ok? ==> r.value.history == [] && r.value.free <= |rows|
  {
    StrictLoop(Run(hot, [], 0), rows)
  }

  /** `simulation.monte_carlo_simulation(num_runs)` of quicksim.py. */
  function StrictMonteCarlo(hot: Hot, rowsPerRun: seq<seq<Row>>, numRuns: int): (r: Result<real>)
    requires |rowsPerRun| == MonteCarlo.Iterations(numRuns)
    ensures numRuns == 0 ==> r == Err(ZeroDivisionError)
  {
    MonteCarlo.MonteCarloOf(StrictRun, hot, rowsPerRun, numRuns)
  }

  lemma StrictMonteCarloWithin(hot: Hot, rowsPerRun: seq<seq<Row>>, numRuns: int, num: nat)
    requires |rowsPerRun| == MonteCarlo.Iterations(numRuns) && numRuns > 0
    requires forall i :: 0 <= i < |rowsPerRun| ==> |rowsPerRun[i]| <= num
    requires StrictMonteCarlo(hot, rowsPerRun, numRuns).Ok?
    ensures 0.0 <= StrictMonteCarlo(hot, rowsPerRun, numRuns).value <= num as real
  {
    MonteCarlo.MonteCarloOfWithin(StrictRun, hot, rowsPerRun, numRuns, num);
  }

  /** The request loop over draws from loaded tables. */
  function DrawLoop(rule: HistoryRule, run: Run, t: Tables, draws: seq<Draw>): (r: Result<Run>)
    ensures draws == [] ==> r == Ok(run)
    ensures r.Ok? ==> SameKind(run.hot, r.value.hot)
    ensures r.Ok? ==> run.free <= r.value.free <= run.free + |draws|
    ensures r.Ok? && rule == EveryRequest ==> |r.value.history| == |run.history| + |draws|
    ensures r.Ok? && rule == NoHistory ==> r.value.history == run.history
    decreases |draws|
  {
    if draws == [] then Ok(run)
    else
      var req := DrawRequest(t, draws[0]);
      if req.Err? then Err(req.error)
      else
        var next := Step(rule, run, req.value);
        if next.Err? then Err(next.error) else DrawLoop(rule, next.value, t, draws[1..])
  }

  /** With a cache that can store, the loop fails exactly when it draws
      from an empty table. */
  lemma {:induction false} DrawLoopFails(rule: HistoryRule, run: Run, t: Tables, draws: seq<Draw>)
    requires !run.hot.BareBatch? && Capacity(run.hot) >= 1
    ensures DrawLoop(rule, run, t, draws).Err? <==> exists i :: 0 <= i < |draws| && Table(t, draws[i].scale) == []
    decreases |draws|
  {
    if draws != [] && Table(t, draws[0].scale) != [] {
      var next := Step(rule, run, DrawRequest(t, draws[0]).value);
      assert next.Ok?;
      assert DrawLoop(rule, run, t, draws) == DrawLoop(rule, next.value, t, draws[1..]);
      DrawLoopFails(rule, next.value, t, draws[1..]);
      EmptyTableInTail(t, draws);
    }
  }

  /** Past a non-empty first table, an empty one is drawn from the rest. */
  lemma EmptyTableInTail(t: Tables, draws: seq<Draw>)
    requires draws != [] && Table(t, draws[0].scale) != []
    ensures (exists i :: 0 <= i < |draws| && Table(t, draws[i].scale) == []) <==>
            (exists i :: 0 <= i < |draws[1..]| && Table(t, draws[1..][i].scale) == [])
  {
    if exists i :: 0 <= i < |draws| && Table(t, draws[i].scale) == [] {
      var i :| 0 <= i < |draws| && Table(t, draws[i].scale) == [];
      assert draws[1..][i - 1] == draws[i];
    }
    if exists i :: 0 <= i < |draws[1..]| && Table(t, draws[1..][i].scale) == [] {
      var i :| 0 <= i < |draws[1..]| && Table(t, draws[1..][i].scale) == [];
      assert draws[1..][i] == draws[i + 1];
    }
  }

  /** The requests of draws from non-empty tables. */
  function DrawTrace(t: Tables, draws: seq<Draw>): (r: seq<Request>)
    requires forall i :: 0 <= i < |draws| ==> Table(t, draws[i].scale) != []
    ensures |r| == |draws|
    ensures forall i :: 0 <= i < |draws| ==> r[i] == DrawRequest(t, draws[i]).value && r[i].Scenes?
  {
    seq(|draws|, i requires 0 <= i < |draws| => DrawRequest(t, draws[i]).value)
  }

  lemma {:induction false} DrawLoopIsSimulate(rule: HistoryRule, run: Run, t: Tables, draws: seq<Draw>)
    requires forall i :: 0 <= i < |draws| ==> Table(t, draws[i].scale) != []
    ensures DrawLoop(rule, run, t, draws) == Simulate(rule, run, DrawTrace(t, draws))
    ensures Served(DrawTrace(t, draws)) == |draws|
    decreases |draws|
  {
    if draws != [] {
      assert DrawTrace(t, draws)[1..] == DrawTrace(t, draws[1..]);
      var next := Step(rule, run, DrawRequest(t, draws[0]).value);
      if next.Ok? {
        DrawLoopIsSimulate(rule, next.value, t, draws[1..]);
      } else {
        DrawLoopIsSimulate(rule, run, t, draws[1..]);
      }
    }
  }

  /** `run_simulation()` of the preloading `quicksim` modules. Without
      `preload_data` (`data == None`) the tables were never set and the
      first iteration raises AttributeError. */
  function PreloadedRun(hot: Hot, data: Option<Tables>, draws: seq<Draw>): (r: Result<Run>)
    ensures data.None? && draws != [] ==> r == Err(AttributeError)
    ensures draws == [] ==> r == Ok(Run(hot, [], 0))
    ensures r.Ok? ==> r.value.history == [] && r.value.free <= |draws|
  {
    if data.None? then (if draws == [] then Ok(Run(hot, [], 0)) else Err(AttributeError))
    else DrawLoop(NoHistory, Run(hot, [], 0), data.value, draws)
  }

  function PreloadedMonteCarlo(hot: Hot, data: Option<Tables>, drawsPerRun: seq<seq<Draw>>, numRuns: int): (r: Result<real>)
    requires |drawsPerRun| == MonteCarlo.Iterations(numRuns)
    ensures numRuns == 0 ==> r == Err(ZeroDivisionError)
  {
    MonteCarlo.MonteCarloOf((h: Hot, draws: seq<Draw>) => PreloadedRun(h, data, draws), hot, drawsPerRun, numRuns)
  }

  lemma PreloadedMonteCarloWithin(hot: Hot, data: Option<Tables>, drawsPerRun: seq<seq<Draw>>, numRuns: int, num: nat)
    requires |drawsPerRun| == MonteCarlo.Iterations(numRuns) && numRuns > 0
    requires forall i :: 0 <= i < |drawsPerRun| ==> |drawsPerRun[i]| <= num
    requires PreloadedMonteCarlo(hot, data, drawsPerRun, numRuns).Ok?
    ensures 0.0 <= PreloadedMonteCarlo(hot, data, drawsPerRun, numRuns).value <= num as real
  {
    MonteCarlo.MonteCarloOfWithin((h: Hot, draws: seq<Draw>) => PreloadedRun(h, data, draws), hot, drawsPerRun, numRuns, num);
  }

  /** The feature counts simulator.py keeps of each scale. */
  const RegionsKept := 6
  const StatesKept := 49
  const CountiesKept := 4437

  /** `fetch_data(data, count)` applied to the three pickled dicts. */
  function Subsets(t: Tables): (r: Tables)
    ensures |r.regions| <= RegionsKept && |r.states| <= StatesKept && |r.counties| <= CountiesKept
    ensures r.regions <= t.regions && r.states <= t.states && r.counties <= t.counties
  {
    Tables(Prefix(t.regions, RegionsKept), Prefix(t.states, StatesKept), Prefix(t.counties, CountiesKept))
  }

  /** Each subset is a real dict that agrees with the full one on its keys,
      and keeps all of it when it is small enough. */
  lemma SubsetsAgree(t: Tables, s: Scale)
    requires OrderedDict.Valid(Table(t, s))
    ensures OrderedDict.Valid(Table(Subsets(t), s))
    ensures forall k :: k in Keys(Table(Subsets(t), s)) ==> Find(Table(Subsets(t), s), k) == Find(Table(t, s), k)
    ensures |Table(t, s)| <= |Table(Subsets(t), s)| ==> Table(Subsets(t), s) == Table(t, s)
  {
    match s
    case Regions => PrefixValid(t.regions, RegionsKept);
    case States => PrefixValid(t.states, StatesKept);
    case Counties => PrefixValid(t.counties, CountiesKept);
  }

  /** `run_simulation()` of simulator.py, as `(free_requests_count, history)`:
      the subsets are taken first, so unloaded dicts raise AttributeError
      even for zero iterations; every iteration leaves a snapshot. */
  function PickleRun(hot: Hot, data: Option<Tables>, draws: seq<Draw>): (r: Result<Run>)
    ensures data.None? ==> r == Err(AttributeError)
    ensures r.Ok? ==> |r.value.history| == |draws| && r.value.free <= |draws|
  {
    if data.None? then Err(AttributeError)
    else DrawLoop(EveryRequest, Run(hot, [], 0), Subsets(data.value), draws)
  }

  /** simulator.py hands each drawn scene to the list-taking cache bare
      (`put(scene)`), but its pickled dicts hold integer scene ids: when the
      first draw's list starts with one, the first iteration raises
      TypeError. */
  lemma PickleRunBareFails(c: BatchLru.Cache<Scene>, t: Tables, draws: seq<Draw>)
    requires draws != [] && Table(Subsets(t), draws[0].scale) != []
    requires DrawRequest(Subsets(t), draws[0]).value.scenes != []
    requires DrawRequest(Subsets(t), draws[0]).value.scenes[0].Index?
    ensures PickleRun(BareBatch(c), Some(t), draws) == Err(TypeError)
  {
    var scenes := DrawRequest(Subsets(t), draws[0]).value.scenes;
    var (_, h1) := Lookup(BareBatch(c), scenes[0]);
    assert Store(h1, scenes[0]) == Err(TypeError);
    assert Serve(BareBatch(c), scenes) == Err(TypeError);
  }

  /** With the scene wrapped in a list (`put([scene])`) the same run serves
      every draw from a non-empty dict and snapshots after each. */
  lemma PickleRunBatchServes(c: BatchLru.Cache<Scene>, t: Tables, draws: seq<Draw>)
    requires c.capacity >= 1
    requires forall i :: 0 <= i < |draws| ==> Table(Subsets(t), draws[i].scale) != []
    ensures PickleRun(Batch(c), Some(t), draws).Ok?
    ensures |PickleRun(Batch(c), Some(t), draws).value.history| == |draws|
  {
    DrawLoopFails(EveryRequest, Run(Batch(c), [], 0), Subsets(t), draws);
  }

  /** simulator.py's `monte_carlo_simulation(num_runs)`: only the first
      component of each run's result is averaged. */
  function PickleMonteCarlo(hot: Hot, data: Option<Tables>, drawsPerRun: seq<seq<Draw>>, numRuns: int): (r: Result<real>)
    requires |drawsPerRun| == MonteCarlo.Iterations(numRuns)
    ensures numRuns == 0 ==> r == Err(ZeroDivisionError)
    ensures data.None? && numRuns > 0 ==> r == Err(AttributeError)
  {
    MonteCarlo.MonteCarloOf((h: Hot, draws: seq<Draw>) => PickleRun(h, data, draws), hot, drawsPerRun, numRuns)
  }

  lemma PickleMonteCarloWithin(hot: Hot, data: Option<Tables>, drawsPerRun: seq<seq<Draw>>, numRuns: int, num: nat)
    requires |drawsPerRun| == MonteCarlo.Iterations(numRuns) && numRuns > 0
    requires forall i :: 0 <= i < |drawsPerRun| ==> |drawsPerRun[i]| <= num
    requires PickleMonteCarlo(hot, data, drawsPerRun, numRuns).Ok?
    ensures 0.0 <= PickleMonteCarlo(hot, data, drawsPerRun, numRuns).value <= num as real
  {
    MonteCarlo.MonteCarloOfWithin((h: Hot, draws: seq<Draw>) => PickleRun(h, data, draws), hot, drawsPerRun, numRuns, num);
  }
}
