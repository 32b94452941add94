# Hot-Cold Simulation, modelled in Dafny

The Hot-Cold Simulation estimates how many requests for Landsat scenes a
small "hot layer" cache answers without touching cold storage. A request
names a region, a state or a county. It is served by the scenes that cover
that feature. The request is *free* when every one of its scenes is already
resident in the hot layer. This project models the parts of the repository
that compute something, and proves properties about them:

- **Four caches.** Each is built on one model of Python's `OrderedDict` (module `OrderedDict`):
  - the list-taking LRU cache (`BatchLru`);
  - the single-key LRU cache whose `get` refreshes a key (`RecencyLru`);
  - `TimeCache`, which is a capacity-bounded FIFO (`TimeCache`);
  - the counter-based `CombinationCache` (`CombinationCache`).
- **The hot layer as the simulators hold it (`HotLayer`).** This covers the bare `put(scene)` call on the list-taking cache, which Python answers by iterating the scene.
- **The request loop shared by every `run_simulation` (`RequestLoop`).** The loop is fed from an input trace that stands in for the random draws and the database or pickle lookups.
  - `Fetch` gives each simulator's way of turning rows into scene lists.
  - `Simulators` gives the per-file `run_simulation` / `monte_carlo_simulation` wrappers.
  - `MonteCarlo` gives the averaging over runs that share one cache object.
- **The weight grid of `linear_combinations`, in exact hundredths (`WeightGrid`).**
- **The optimum selection of `order_results` / `calculate_results` (`Optimum`).**
- **The `.env` configuration generator.**
  - `EnvLines` covers the line editing.
  - `EnvConfig` covers the file-level phases, the argument parsing and the driver.
  - `StableSort` covers the stable `sorted(..., key=...)`.
  - `Text` covers `split`/`join`, `readlines`/`writelines`, string order and the ASCII part of `casefold`.

Several files of the repository are copies of one another. They share one model:
- `modules/lru_cache.py` and the `LRUCache` class of `hot_cold_simulation.py` are the same cache.
- The `run_simulation` loops of `hot_cold_simulation.py`, `QuerySimulator.py`, `hot_cold_simulation/modules/query_simulator.py` and `modules/animation_simulation.py` are the same loop.

The classes differ in which cache the simulator holds. That choice is the `HotLayer.Hot` value passed in:
- `Recency` is the single-key LRU.
- `Batch` is the list-taking LRU called as `put([scene])`.
- `BareBatch` is the list-taking LRU called as `put(scene)`, as the packaged simulators do.

`QuerySimulator.py`, `quicksim.py` and `modules/quicksim.py` import an `LRUCache` module that is not part of this model. The model assumes it is the single-key cache of `modules/lru_cache.py`, which sits beside `modules/quicksim.py`. `QuerySimulator.py` and `quicksim.py` sit at the repository root, beside no such file.

Some behaviour of the code is easy to misread from the names:
- Despite its name, `TimeCache` is a plain FIFO bounded by `expiration_time`. No entry expires by age.
- The cache of a simulator is never reset between Monte Carlo runs.
- `hot_cold_simulation/modules/simulator.py` snapshots the cache after every request, free or not.
- `hot_cold_simulation/modules/simulator.py` holds the list-taking cache of `hot_cold_simulation/modules/lru_cache.py` and calls it as `put(scene)` on the integer scene ids of its pickled dicts, which raises TypeError (see "## Findings").
- `update_existing_variables` rewrites every line that merely *contains* a variable name. This includes names that are only a substring of the line's own name, although the help text at `hot_cold_simulation/utils/generate_config.py:152` says only default variables are touched. See `EnvLines.UpdateRewritesLongerNames`.

## Model

| member | source | states |
|---|---|---|
| OrderedDict.Find | hot_cold_simulation/modules/lru_cache.py:12-15 | `d.get(k)` finds a value iff the key is among the keys |
| OrderedDict.Assign | hot_cold_simulation/modules/lru_cache.py:25 | `d[k] = v` overwrites a present key in place without reordering, appends an absent one at the back, and leaves every other key's value alone |
| OrderedDict.MoveToEnd | hot_cold_simulation/modules/lru_cache.py:26 | `move_to_end` of a present key puts it last, keeps the other keys in their order and changes no value |
| OrderedDict.PopFirst | hot_cold_simulation/modules/lru_cache.py:22 | `popitem(last=False)` drops exactly the oldest entry, and raises KeyError on an empty dict |
| OrderedDict.Delete | hot_cold_simulation/modules/combination_cache.py:34-35 | `del d[k]` removes that key and keeps every other entry in order |
| OrderedDict.PopFirstValues | hot_cold_simulation/modules/lru_cache.py:22 | popping the oldest entry of a real dict leaves every other key's value alone |
| OrderedDict.AssignValid | hot_cold_simulation/modules/lru_cache.py:25 | assignment never creates a duplicate key |
| OrderedDict.StoreAtEndOthers | hot_cold_simulation/modules/lru_cache.py:19-26 | one step of the list `put` (evict when full, store at the back) leaves every other surviving key's value alone |
| OrderedDict.Prefix | hot_cold_simulation/modules/simulator.py:58 | `dict(list(d.items())[:n])` is the first min(n, len) entries, with Python's slice clamping of negative n |
| OrderedDict.PrefixValid | hot_cold_simulation/modules/simulator.py:58 | a prefix of a real dict is a real dict that agrees with it on its keys |
| OrderedDict.FindAt | hot_cold_simulation/single_constraint_analysis.py:101-102 | in a real dict the key at a position maps to the value at that position |
| BatchLru.Get | hot_cold_simulation/modules/lru_cache.py:11-15 | -1 (None) iff the key is absent; a hit returns the key itself; the cache is not changed |
| BatchLru.PutKey | hot_cold_simulation/modules/lru_cache.py:19-26 | one key: the oldest entry goes first when full, then the key is last; KeyError only for an empty cache of capacity <= 0; within capacity stays within capacity |
| BatchLru.Put | hot_cold_simulation/modules/lru_cache.py:17-26 | `put([])` changes nothing; the last key of a non-empty list is last in `current_state`; only old or new keys remain; from size <= capacity (capacity >= 1) size stays <= capacity |
| BatchLru.PutValid | hot_cold_simulation/modules/lru_cache.py:18-29 | after any `put` the state has no duplicate key and every value equals its key |
| BatchLru.RePutShrinks | hot_cold_simulation/modules/lru_cache.py:20-26 | re-putting a resident key into a full cache still evicts the head, so the size drops to capacity - 1 |
| BatchLru.PutDistinctKeepsNewest | hot_cold_simulation/modules/lru_cache.py:17-26 | storing keys that are new and distinct leaves exactly the newest `capacity` of old-then-new keys, in order |
| BatchLru.OverfillEvictsFirst | hot_cold_simulation/modules/lru_cache.py:17-26 | capacity + 1 distinct keys into an empty cache evict exactly the first one |
| RecencyLru.Get | modules/lru_cache.py:8-14 | a miss returns -1 and changes nothing; a hit returns the key and moves it to the back, the rest in order |
| RecencyLru.Put | modules/lru_cache.py:16-22 | the head is evicted whenever size >= capacity, even for a resident key; the key is then resident and returned; a surviving key keeps its position; an empty cache of capacity <= 0 raises KeyError |
| RecencyLru.HitSurvivesNextPut | hot_cold_simulation.py:74-88 | a `get` hit protects the key from the very next eviction |
| RecencyLru.ApplyStaysBounded | modules/lru_cache.py:16-22 | from size <= capacity (capacity >= 1) any sequence of `get`/`put` calls succeeds, stays within capacity and keeps the dict valid |
| TimeCache.Get | hot_cold_simulation/modules/time_cache.py:10-14 | -1 iff absent, the key on a hit, no reordering |
| TimeCache.Put | hot_cold_simulation/modules/time_cache.py:16-22 | the oldest entry goes when size >= expiration_time; the key is then resident and returned; size stays <= expiration_time from within it |
| TimeCache.PutIsFifo | hot_cold_simulation/modules/time_cache.py:16-25 | a `put` keeps the resident keys in first-insertion order, dropping at most the oldest |
| TimeCache.LookupsAreInvisible | hot_cold_simulation/modules/time_cache.py:10-22 | whatever the interleaved `get` calls return, the calls fail iff the `put` calls alone fail, leave the cache the puts alone leave, and answer every `get` |
| TimeCache.HitDoesNotProtect | hot_cold_simulation/modules/time_cache.py:10-22 | a concrete run: reading the oldest key does not save it from eviction |
| CombinationCache.Get | hot_cold_simulation/modules/combination_cache.py:17-21 | -1 iff absent, the stored value on a hit, no counter or order change |
| CombinationCache.DeleteAll | hot_cold_simulation/modules/combination_cache.py:34-35 | exactly the listed keys are gone |
| CombinationCache.AgeIsAged | hot_cold_simulation/modules/combination_cache.py:26-35 | the collect, count-down and delete loops keep exactly the entries whose counter exceeds 1, in order, each one lower |
| CombinationCache.AgedFind | hot_cold_simulation/modules/combination_cache.py:26-35 | per key: a counter <= 1 leaves, a larger one counts down by one, the value stays |
| CombinationCache.AgedValid | hot_cold_simulation/modules/combination_cache.py:26-35 | aging keeps the cache a valid dict of self-valued slots |
| CombinationCache.InsertKey | hot_cold_simulation/modules/combination_cache.py:38-45 | one key: head evicted when full, the key last with counter expiration_time; bounded from within capacity |
| CombinationCache.InsertAll | hot_cold_simulation/modules/combination_cache.py:37-45 | the key loop: the last key is last with a fresh counter, only old or new keys remain, bounded; only KeyError can be raised |
| CombinationCache.InsertAllOthers | hot_cold_simulation/modules/combination_cache.py:37-45 | a key not stored keeps its slot if it survives |
| CombinationCache.Put | hot_cold_simulation/modules/combination_cache.py:23-45 | aging happens even for `put([])`; after a non-empty `put` the last key is resident at the back; size stays <= capacity |
| CombinationCache.PutValid | hot_cold_simulation/modules/combination_cache.py:23-45 | `put` keeps the dict valid and self-valued |
| CombinationCache.PutKeepsCounts | hot_cold_simulation/modules/combination_cache.py:29-44 | counters in [1, expiration_time] stay in that range |
| CombinationCache.InsertAllSlot | hot_cold_simulation/modules/combination_cache.py:44 | a stored key that is still resident has counter expiration_time |
| CombinationCache.PutShortensLife | hot_cold_simulation/modules/combination_cache.py:26-35 | a `put` that does not store a key shortens its remaining life by at least one, by exactly one when nothing is stored |
| CombinationCache.OutlivedKeyIsGone | hot_cold_simulation/modules/combination_cache.py:26-44 | after as many `put` calls not storing it as its life, a key is absent |
| CombinationCache.StoredKeyExpires | hot_cold_simulation/modules/combination_cache.py:26-44 | a key stored by `put` and not re-put in the next expiration_time calls is absent after them |
| CombinationCache.StoreFresh | hot_cold_simulation/modules/combination_cache.py:49-50 | every listed key gets (key, expiration_time), other keys keep their slots, distinct keys are appended in order |
| CombinationCache.Prepopulate | hot_cold_simulation/modules/combination_cache.py:47-50 | ValueError iff capacity is outside [0, 886]; otherwise exactly the sampled keys, in draw order, each with counter expiration_time |
| CombinationCache.New | hot_cold_simulation/modules/combination_cache.py:9-15 | without prepopulation an empty cache; with it, an error exactly when the sample cannot be drawn; always valid |
| HotLayer.Lookup | hot_cold_simulation/modules/query_simulator.py:107 | the simulator's `get(scene)`: a miss iff the scene is not resident; never adds or drops a scene |
| HotLayer.Store | hot_cold_simulation/modules/query_simulator.py:109 | the simulator's `put`: the scene becomes resident (intended call); the bare call on the list cache raises TypeError for an integer scene; bounded from within capacity |
| HotLayer.StoreResidentWithRoom | hot_cold_simulation/modules/lru_cache.py:19-26 | storing a resident scene with room to spare keeps the same resident set |
| HotLayer.BareStoreKeepsCharacters | hot_cold_simulation/modules/quicksim.py:119-122 | with the bare call only one-character scenes ever become resident |
| RequestLoop.Serve | hot_cold_simulation.py:217-221 | the inner loop: `moved_to_hot` is set when the first scene misses (the full iff over all scenes is `RequestLoop.ServeFreeIffNoMiss`); never fails with a usable cache; keeps the cache kind |
| RequestLoop.Gets | hot_cold_simulation.py:217-221 | the inner loop's `get` results, one per scene up to the first failing `put`, each against the cache the earlier puts left |
| RequestLoop.ServeFreeIffNoMiss | QuerySimulator.py:93-111 | after a completed inner loop, `moved_to_hot` is set iff some `get` of the request's scenes returned -1 (or a stored -1) |
| RequestLoop.ServeValid | hot_cold_simulation.py:217-221 | serving a request keeps the cache valid |
| RequestLoop.FreeMeansResident | QuerySimulator.py:93-111 | a free request asked only for scenes resident beforehand or asked for earlier in the same request |
| RequestLoop.RoomyResidentIsFree | QuerySimulator.py:93-111 | conversely, with room to spare and every scene resident, the request is free |
| RequestLoop.FullCacheCanMissResidentScene | hot_cold_simulation/modules/lru_cache.py:19-26 | without room to spare the converse fails: a concrete full cache that holds both scenes still misses |
| RequestLoop.SentinelSceneNeverFree | hot_cold_simulation.py:219 | a resident scene whose stored value is -1 reads as a miss |
| RequestLoop.BareLongSceneAlwaysMisses | hot_cold_simulation/modules/query_simulator.py:103-109 | with the bare call a multi-character scene is never a hit, so its request is never free |
| RequestLoop.Step | hot_cold_simulation.py:215-235 | one iteration: a skipped row changes nothing; free grows by one iff the request was free; a snapshot is appended exactly as the history rule says |
| RequestLoop.Simulate | hot_cold_simulation.py:177-235 | the outer loop: free <= requests served; with history on a miss len(history) + free = served; with history every time len(history) = served |
| RequestLoop.SimulateConcat | hot_cold_simulation.py:103-113 | two traces back to back on one object are one trace: nothing is reset in between |
| RequestLoop.ServedConcat | hot_cold_simulation.py:177 | served requests add up over concatenated traces |
| Fetch.SkippingRequest | hot_cold_simulation.py:205-215 | a missing row, a NULL or an empty column is skipped, anything else split at commas into text scenes |
| Fetch.SkippingRequestJoins | QuerySimulator.py:91 | a usable row gives one scene more than it has commas, and joining the names restores the column |
| Fetch.StrictRequest | quicksim.py:57-59 | a missing row raises TypeError, NULL raises AttributeError, an empty column yields the one scene `''` |
| Fetch.StrictAgreesWhereNotSkipped | quicksim.py:57-59 | the strict and skipping handlings agree on every row the skipping one uses; they differ only on the empty column |
| Fetch.Limit | modules/quicksim.py:27-28 | `LIMIT count` keeps the first count rows in index order; a negative count is a database error |
| Fetch.ComprehendFails | modules/quicksim.py:29 | the comprehension fails iff some row has a NULL column |
| Fetch.ComprehendKeys | modules/quicksim.py:29 | a successful comprehension has a key for every row index and no other |
| Fetch.ComprehendValid | modules/quicksim.py:29 | the result is a real dict whose every scene list is non-empty |
| Fetch.ComprehendLastWins | hot_cold_simulation/modules/quicksim.py:69 | a repeated index keeps the split column of its last row |
| Fetch.ComprehendUntouched | hot_cold_simulation/modules/quicksim.py:69 | rows that never mention an index leave its value alone |
| Fetch.ComprehendAscending | modules/quicksim.py:27-29 | rows in ascending index order give the keys in that order |
| Fetch.FetchData | hot_cold_simulation/modules/quicksim.py:56-69 | at most count entries, keyed by exactly the first count rows' indexes; AttributeError iff one of them is NULL |
| Fetch.LoadData | hot_cold_simulation/modules/quicksim.py:41-54 | the three tables load iff each fetch succeeds, and are exactly those fetches |
| Fetch.DrawRequest | hot_cold_simulation/modules/quicksim.py:106-116 | choosing from an empty table raises ValueError; otherwise the scene list stored under the drawn key |
| Fetch.DrawRequestEntry | hot_cold_simulation/modules/simulator.py:106-107 | in a real dict the drawn position yields the entry stored there |
| Simulators.QueryRun | hot_cold_simulation/modules/query_simulator.py:48-128 | len(history) + free equals the requests not skipped, at most num; the cache keeps its kind |
| Simulators.SkippedRowIsInvisible | modules/animation_simulation.py:61-69 | removing a skipped row changes neither the count, the history nor the cache |
| Simulators.QueryMonteCarloIsSimulation | QuerySimulator.py:23-41 | the threaded Monte Carlo of the QuerySimulator family is the shared-cache average over the rows' traces |
| Simulators.QueryMonteCarloWithin | hot_cold_simulation.py:107-117 | with at most num rows per run the average lies in [0, num] |
| Simulators.StrictLoopFails | quicksim.py:55-59 | with a usable cache, over the rows drawn, quicksim.py fails exactly when some row is missing or NULL |
| Simulators.StrictLoopIsSimulate | quicksim.py:39-69 | on good rows every iteration counts, no history is kept, and the loop is the request loop |
| Simulators.StrictRun | quicksim.py:33-72 | no history and free <= num |
| Simulators.StrictMonteCarloWithin | quicksim.py:16-31 | the average lies in [0, num] |
| Simulators.DrawLoopFails | modules/quicksim.py:55-64 | with a usable cache the loop fails exactly when it draws from an empty table |
| Simulators.DrawLoopIsSimulate | hot_cold_simulation/modules/quicksim.py:105-126 | on non-empty tables every draw is served by the request loop |
| Simulators.PreloadedRun | modules/quicksim.py:49-77 | unloaded data raises AttributeError on the first draw; no history; free <= num |
| Simulators.PreloadedMonteCarloWithin | modules/quicksim.py:32-47 | the average lies in [0, num] |
| Simulators.Subsets | hot_cold_simulation/modules/simulator.py:94-96 | each run draws from prefixes of at most 6, 49 and 4437 features |
| Simulators.SubsetsAgree | hot_cold_simulation/modules/simulator.py:46-58 | each prefix is a real dict that agrees with the full dict, and is all of it when short enough |
| Simulators.PickleRun | hot_cold_simulation/modules/simulator.py:84-122 | unloaded data raises AttributeError; history gains one snapshot per iteration, so len(history) == num; free <= num |
| Simulators.PickleRunBareFails | hot_cold_simulation/modules/simulator.py:108-113 | as written, with the list-taking cache called as `put(scene)`, a run whose first drawn list starts with an integer scene raises TypeError |
| Simulators.PickleRunBatchServes | hot_cold_simulation/modules/simulator.py:84-122 | with `put([scene])` and a cache of capacity >= 1, a run over non-empty dicts completes with one snapshot per iteration |
| Simulators.PickleMonteCarlo | hot_cold_simulation/modules/simulator.py:60-82 | zero runs divide by zero; unloaded data raises AttributeError |
| Simulators.PickleMonteCarloWithin | hot_cold_simulation/modules/simulator.py:76-82 | the average of the first tuple components lies in [0, num] |
| MonteCarlo.Average | hot_cold_simulation.py:116 | ZeroDivisionError iff num_runs is 0, otherwise average times num_runs is the sum |
| MonteCarlo.SumPermutation | QuerySimulator.py:32-38 | the total does not depend on the order the counts are listed in |
| MonteCarlo.AverageAnyOrder | QuerySimulator.py:32-38 | the threaded average is the same for any completion order |
| MonteCarlo.AverageWithin | quicksim.py:28-29 | counts in [0, b] average to a value in [0, b] |
| MonteCarlo.Runs | hot_cold_simulation.py:111-113 | one count per run, each run on the object the previous one left |
| MonteCarlo.RunsShareOneCache | hot_cold_simulation.py:103-113 | since the cache is never reset, the runs together count what one long run over all traces counts |
| MonteCarlo.FreshStart | hot_cold_simulation.py:173-174 | a run's cache and count do not depend on the history and count it starts from |
| MonteCarlo.Simulation | hot_cold_simulation.py:107-117 | ZeroDivisionError for zero runs; otherwise the average of the shared-object runs, and it succeeds with a usable cache |
| MonteCarlo.SimulationIsOneLongRun | hot_cold_simulation.py:107-117 | the average is the single long run's free count divided by num_runs |
| MonteCarlo.RunEachIsRuns | modules/quicksim.py:35-45 | a simulator whose runs are request-loop traces averages as the shared-object runs do |
| MonteCarlo.MonteCarloOfWithin | hot_cold_simulation/modules/quicksim.py:81-93 | when no run counts more than b, the average lies in [0, b] |
| WeightGrid.LinearCombinations | modules/linear_combinations.py:3-14 | the nested loops compute the grid enumeration, the same list for the same step |
| WeightGrid.InnerRow | modules/linear_combinations.py:6-12 | the inner loop for one region weight emits exactly the kept triples of the recursive row definition, in increasing state weight |
| WeightGrid.GridMembers | modules/linear_combinations.py:5-12 | a triple is emitted iff its first two weights are non-negative multiples of the step with sum <= 1 and the third is the rest |
| WeightGrid.GridInRange | modules/linear_combinations.py:8-11 | every emitted triple has its third weight in [0, 1], its first two non-negative, and sums to 1 |
| WeightGrid.GridAscending | modules/linear_combinations.py:5-12 | the list is strictly ordered by first weight, then second, so no triple appears twice |
| WeightGrid.GridCount | hot_cold_simulation.py:244-255 | with step 1/m (m dividing 100) there are (m + 1)(m + 2) / 2 triples |
| Optimum.OrderResults | hot_cold_simulation/single_constraint_analysis.py:79-87 | four equal-length columns, entry n holding the n-th key's weights and value, in dict order |
| Optimum.OrderResultsRoundTrip | hot_cold_simulation/single_constraint_analysis.py:79-87 | zipping the columns back gives the results: nothing lost or reordered |
| Optimum.ArgMax | hot_cold_simulation.py:291-292 | ValueError iff the list is empty; otherwise the first index of the maximum |
| Optimum.FirstMaxUnique | hot_cold_simulation/single_constraint_analysis.py:98 | the first index of the maximum is unique |
| Optimum.CalculateResults | hot_cold_simulation/single_constraint_analysis.py:90-103 | ValueError iff there are no results; otherwise the weights and value of the entry at the first maximum |
| Optimum.BestIsStored | hot_cold_simulation/single_constraint_analysis.py:98-102 | the returned maximum is >= every value, and in a dict the returned weights map to it |
| Text.SplitCount | hot_cold_simulation.py:215 | `split(',')` yields one more piece than there are commas |
| Text.JoinSplit | hot_cold_simulation.py:215 | joining the pieces back gives the string |
| Text.SplitJoin | modules/quicksim.py:29 | comma-free pieces come back unchanged from join then split |
| Text.ReadLinesShape | hot_cold_simulation/utils/generate_config.py:58 | `readlines` pieces are non-empty, newline-free but for their end, and all but the last end in a newline |
| Text.WriteReadLines | hot_cold_simulation/utils/generate_config.py:93-105 | for files whose line endings are `\n`, writing what was read gives back the text |
| Text.ReadWriteLines | hot_cold_simulation/utils/generate_config.py:108-116 | terminated lines with `\n` endings survive being written and read back |
| Text.UnterminatedLineMerges | hot_cold_simulation/utils/generate_config.py:108-116 | an unterminated last line runs into whatever is written after it |
| Text.LexLeTotal | hot_cold_simulation/scripts/generate_config.py:117 | string order is total |
| Text.LexLeTransitive | hot_cold_simulation/scripts/generate_config.py:117 | string order is transitive |
| Text.LexLeAntisymmetric | hot_cold_simulation/scripts/generate_config.py:117 | string order is antisymmetric |
| StableSort.SortByFacts | hot_cold_simulation/utils/generate_config.py:116 | `sorted(lines, key=...)` is ordered by key, a permutation of the lines, and stable |
| StableSort.OrdinalPutsCapitalsFirst | hot_cold_simulation/scripts/generate_config.py:117 | the plain sort puts a capital before a small letter, the casefolded one does not |
| EnvLines.Assignment | hot_cold_simulation/utils/generate_config.py:102-104 | the line starts with `name=` and ends in a newline |
| EnvLines.AssignmentDefinesOnlyItsName | hot_cold_simulation/utils/generate_config.py:68 | an assignment line defines no other `=`-free name |
| EnvLines.VariableExists | hot_cold_simulation/utils/generate_config.py:67-68 | true iff some line starts with `name=` |
| EnvLines.AppendVariable | hot_cold_simulation/utils/generate_config.py:71-82 | appends exactly one line, the assignment, with `None` or an empty value written as nothing |
| EnvLines.ScriptsAppendVariable | hot_cold_simulation/scripts/generate_config.py:72-83 | testing only for `None` appends the same line as the utils version |
| EnvLines.CheckForMissing | hot_cold_simulation/utils/generate_config.py:56-64 | the lines read are a prefix of the result |
| EnvLines.CheckForMissingDefinesAll | hot_cold_simulation/utils/generate_config.py:61-63 | afterwards every variable of the configuration is defined |
| EnvLines.CheckForMissingAppends | hot_cold_simulation/scripts/generate_config.py:55-63 | the result is the lines read followed by one assignment per missing name, in dict order |
| EnvLines.UpdateLineLastMatch | hot_cold_simulation/utils/generate_config.py:98-104 | a line becomes the assignment of the last variable whose name it contains |
| EnvLines.UpdateExisting | hot_cold_simulation/utils/generate_config.py:97-104 | the number of lines is kept |
| EnvLines.UpdateExistingKeeps | hot_cold_simulation/scripts/generate_config.py:98-106 | a line containing no variable name is unchanged |
| EnvLines.UpdateExistingRewrites | hot_cold_simulation/utils/generate_config.py:97-104 | a line containing a name becomes the last matching name's assignment |
| EnvLines.UpdateRewritesLongerNames | hot_cold_simulation/utils/generate_config.py:99 | `MY_DB_NAME=x` is rewritten to `DB_NAME=railway`: the match is by substring |
| EnvLines.NonEmpty | hot_cold_simulation/utils/generate_config.py:40 | the soft-reset filter keeps exactly the variables with a truthy default |
| EnvLines.GenerateLines | hot_cold_simulation/utils/generate_config.py:128-133 | one line per variable, in dict order, each starting with `name=` |
| EnvConfig.TerminateReadLines | hot_cold_simulation/utils/generate_config.py:57-58 | after terminating the last line every line read ends in a newline |
| EnvConfig.TerminateWrites | hot_cold_simulation/utils/generate_config.py:57-58 | terminating changes the file text at most by one final newline |
| EnvConfig.PermutationKeeps | hot_cold_simulation/utils/generate_config.py:116 | reordering the lines keeps them terminated and keeps every defined name defined |
| EnvConfig.MissingNewlineLosesVariable | hot_cold_simulation/utils/generate_config.py:57-64 | as written, a file `A=1` without a final newline becomes `A=1B=2\n`, where `B` is no longer defined |
| EnvConfig.CheckedDefinesAll | hot_cold_simulation/utils/generate_config.py:29-34 | the first phase (corrected) leaves terminated lines, sorted when the file existed, with every variable defined |
| EnvConfig.UpdateFileLines | hot_cold_simulation/utils/generate_config.py:85-116 | a reset writes the rewritten lines, sorted by the key and otherwise unchanged |
| EnvConfig.Parse | hot_cold_simulation/utils/generate_config.py:156-165 | every flag's destination is in the namespace and nothing else |
| EnvConfig.CheckConfiguration | hot_cold_simulation/utils/generate_config.py:12-41 | with the source's first phase (`AsWritten`) or the corrected one: AttributeError iff `hard_reset` (or, when false, `reset`) is missing; a hard reset uses every default, a soft reset only the truthy ones, neither only checks |
| EnvConfig.CheckConfigurationLosesVariable | hot_cold_simulation/utils/generate_config.py:57-64 | as written, checking `A=1` (no final newline) against A=1, B=2 with no reset writes `A=1B=2\n`, where `B` is not defined |
| EnvConfig.CorrectedCheckDefinesAll | hot_cold_simulation/utils/generate_config.py:29-34 | with the corrected first phase and no reset, every variable is defined in the written file |
| EnvConfig.UtilsDests | hot_cold_simulation/utils/generate_config.py:156-165 | the utils parser stores `hard_reset` and `reset` |
| EnvConfig.ScriptsDests | hot_cold_simulation/scripts/generate_config.py:141-152 | the scripts parser stores `hard-reset` and `reset` |
| EnvConfig.ScriptsCheckRaises | hot_cold_simulation/scripts/generate_config.py:147-152 | as written, `check_configuration` from `main` always raises AttributeError after the first phase |
| EnvConfig.CorrectedScriptsFlagsWork | hot_cold_simulation/scripts/generate_config.py:147-152 | with destination `hard_reset` the scripts parser matches the utils one and nothing is raised |
| EnvConfig.CheckAllWritesEvery | hot_cold_simulation/utils/generate_config.py:195-197 | when nothing is raised, every configuration's file is written |
| EnvConfig.CheckAllQuiet | hot_cold_simulation/utils/generate_config.py:196-197 | with both reset attributes present the loop raises nothing |
| EnvConfig.Generate | hot_cold_simulation/utils/generate_config.py:182-197 | for either first phase: an unknown name exits with nothing written; a known one writes exactly its file |
| EnvConfig.UtilsGenerateRaisesOnlyOnUnknownName | hot_cold_simulation/utils/generate_config.py:179-197 | the utils driver raises only for an unknown configuration name |
| EnvConfig.ScriptsGenerateStopsAtFirst | hot_cold_simulation/scripts/generate_config.py:177-179 | as written (the source's first phase and parser), `main` writes only the first configuration's checked file before raising |
| EnvConfig.SoftResetSkipsEmptyDefaults | hot_cold_simulation/modules/defaults.py:4-10 | of the database defaults a soft reset rewrites only DB_NAME, DB_USER and DB_PORT |

## Left out

- Database access is replaced by the rows a query would return. This covers `psycopg2`, `connect()`, cursors and the `SELECT` text, and the rows are `Fetch.Row` and `Fetch.DbRow`.
- Pickle files are replaced by the tables they hold.
- Shapefile loading and dataset creation are not part of this model.
- Randomness is taken as parameters:
  - `np.random.choice` of the scale and of the feature become a `Fetch.Draw`, whose pick is reduced modulo the table length.
  - `gdf.sample()` and `randint` are replaced by the row they led to. Their own failures are not represented. `feature_gdf.sample()` on an empty feature frame raises ValueError (`hot_cold_simulation/modules/query_simulator.py:76`, `QuerySimulator.py:68`, `hot_cold_simulation.py:192`, `modules/animation_simulation.py:48`). `np.random.randint(0, count)` raises ValueError when the count given to the constructor is <= 0 (`quicksim.py:45-51`). A trace of rows always holds a drawn row, so neither case can arise in the model.
  - `random.sample(range(886), capacity)` becomes a `draw` argument that must be a sample.
- Simulators.QueryRun: its `r.Ok?` for a usable cache holds only when every feature frame is non-empty. An empty frame raises ValueError at `sample()`, which the model leaves out.
- Simulators.StrictLoopFails: "fails exactly when some row is missing or NULL" covers only failures after a row is drawn. A count <= 0 makes `randint` raise ValueError first, which the model leaves out.
- Simulators.StrictRun: describes only runs whose counts are all >= 1. A count <= 0 raises ValueError at `randint`, which the model leaves out.
- The weights' probabilities are not modelled. Only the draws matter to the counts.
- Threads are modelled sequentially. Results of the threaded Monte Carlo runs arrive in any order (`MonteCarlo.AverageAnyOrder`). Races on the shared cache and `CombinationCache.lock` are out of scope.
- The process-pool Monte Carlo of `hot_cold_simulation.py:119-138` is left out. The source marks it broken. Each task pickles the simulator, so every run starts from its own copy of the cache instead of sharing one as `MonteCarlo` does.
- Floating point:
  - Weights are exact hundredths. A step is a whole number of hundredths (>= 1).
  - `np.arange` accumulating binary floats and the `round(_, 2)` equality test can drop or keep a borderline triple, which the model does not reproduce. This includes steps such as 0.025 that are not whole hundredths.
  - Averages are real numbers, not floats.
- WeightGrid.LinearCombinations: the two-decimal rounding is implicit in the hundredths representation rather than stated separately.
- Logging, `print` and the debug output are left out. This includes the `print(x)` in the scripts version of `variable_exists`.
- The `.env` files are a map from configuration name to file text. `CONFIG_DIR.mkdir` and the paths are not modelled.
- `str.casefold` is modelled as lower-casing of the ASCII capitals.
- Only `\n` line endings are modelled. The `.env` files are opened in text mode, where `readlines` also ends a line at `\r` or `\r\n` and turns each into `\n`. `Text.ReadLines` splits only at `\n` and keeps a `\r` inside the line. Writing in text mode is taken to leave `\n` as it is, as on POSIX.
- Text.WriteReadLines: promises the round trip only in the model's reading. For a file containing `\r`, Python's reading returns the text with its line endings translated to `\n`, not the text itself.
- Text.ReadWriteLines: promises the round trip only in the model's reading. A line containing `\r` would be split or translated by Python's reading. So `EnvConfig.CheckedDefinesAll` and `EnvConfig.UpdateFileLines`, which rely on it, carry over to Python only for files and values without `\r`.
- `str()` of a float is given as its printed text (`Float(repr, zero)`). Only integers are formatted by the model.
- An exception in the middle of an in-place `put` leaves the Python dict partly mutated. The model returns only the error.
- `modules/config.py`, `logger_config.py`, the plotting, animation and analysis drivers, and `single_weight_analysis.py` are not part of this model.
- `LRUCache.py`, imported by `QuerySimulator.py`, `quicksim.py` and `modules/quicksim.py`, is not part of this model. It is assumed to be the single-key cache.
- The `-1` sentinel is a `None` result. A stored `-1` is modelled through `RequestLoop.Missed`.
- The final snapshot of `current_state` is `HotLayer.Contents`. Python returns a fresh list, which the model does not distinguish.

## Findings

| source | as written | input that shows it | evidently intended | confidence | as-written member | corrected member |
|---|---|---|---|---|---|---|
| hot_cold_simulation/scripts/generate_config.py:36 | `args.hard_reset` is read, but `main` (lines 147-152) stores `--hard-reset` under `dest="hard-reset"` | any invocation of `main`, e.g. with no flags | the attribute `hard_reset`, as in the utils version | high, not executed | EnvConfig.ScriptsCheckRaises | EnvConfig.CorrectedScriptsFlagsWork |
| hot_cold_simulation/utils/generate_config.py:57-64 | missing variables are appended after the lines of `readlines`, whose last line may lack its newline, and line 116 writes them back joined | an existing file `A=1` with no final newline and variables A=1, B=2 gives `A=1B=2\n` | every variable on its own line | medium, not executed | EnvConfig.MissingNewlineLosesVariable | EnvConfig.CheckedDefinesAll |
| hot_cold_simulation/modules/query_simulator.py:109 | the list-taking `put` is called with a bare scene, so a string is stored character by character (an integer raises TypeError) | the scene `"LC08"`, requested twice, misses both times | `put([scene])`, storing the scene | medium, not executed | RequestLoop.BareLongSceneAlwaysMisses | RequestLoop.RoomyResidentIsFree |
| hot_cold_simulation/modules/simulator.py:113 | the list-taking cache of `hot_cold_simulation/modules/lru_cache.py`, imported at line 8, is called as `put(scene)`, and the scenes of the pickled dicts are integer ids, which cannot be iterated | any run whose first drawn feature has a non-empty scene list | `put([scene])`, storing the scene | high, not executed | Simulators.PickleRunBareFails | Simulators.PickleRunBatchServes |
