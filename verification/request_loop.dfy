/** The request loop shared by every simulator's `run_simulation`: for
    each requested scene, `get` and then `put`; a request is free when no
    `get` returned -1. The random draws and the database or pickle lookups
    are replaced by the trace of requests they produced. */
module RequestLoop {
  import opened Common
  import opened HotLayer

  /** The loop compares the value `get` returns with -1, so a resident
      integer scene -1 reads as a miss too. */
  predicate Missed(v: Option<Scene>) {
    v.None? || v == Some(Index(-1))
  }

  /** The inner `for scene in landsat_scenes` loop: the object afterwards
      and `moved_to_hot`. */
  function Serve(h: Hot, scenes: seq<Scene>): (r: Result<(Hot, bool)>)
    ensures scenes == [] ==> r == Ok((h, false))
    ensures r.Ok? ==> SameKind(h, r.value.0)
    ensures !h.BareBatch? && Capacity(h) >= 1 ==> r.Ok?
    ensures r.Ok? && scenes != [] && Missed(Lookup(h, scenes[0]).0) ==> r.value.1
    decreases |scenes|
  {
    if scenes == [] then Ok((h, false))
    else
      var (v, h1) := Lookup(h, scenes[0]);
      var stored := Store(h1, scenes[0]);
      if stored.Err? then Err(stored.error)
      else
        var rest := Serve(stored.value, scenes[1..]);
        if rest.Err? then rest else Ok((rest.value.0, Missed(v) || rest.value.1))
  }

  /** What each `get` of the inner loop returned, the cache threaded through
      the `put`s as `Serve` threads it; it stops at a failing `put`. */
  function Gets(h: Hot, scenes: seq<Scene>): (r: seq<Option<Scene>>)
    ensures |r| <= |scenes|
    ensures scenes != [] ==> |r| >= 1
    decreases |scenes|
  {
    if scenes == [] then []
    else
      var (v, h1) := Lookup(h, scenes[0]);
      var stored := Store(h1, scenes[0]);
      if stored.Err? then [v] else [v] + Gets(stored.value, scenes[1..])
  }

  /** `moved_to_hot`: a request is free exactly when no `get` of its scenes
      returned -1. */
  lemma {:induction false} ServeFreeIffNoMiss(h: Hot, scenes: seq<Scene>)
    ensures Serve(h, scenes).Ok? ==> |Gets(h, scenes)| == |scenes|
    ensures Serve(h, scenes).Ok? ==>
              (Serve(h, scenes).value.1 <==> exists i :: 0 <= i < |scenes| && Missed(Gets(h, scenes)[i]))
    decreases |scenes|
  {
    if scenes != [] && Serve(h, scenes).Ok? {
      var (v, h1) := Lookup(h, scenes[0]);
      var h2 := Store(h1, scenes[0]).value;
      var tail := Serve(h2, scenes[1..]);
      assert tail.Ok? && Serve(h, scenes).value.1 == (Missed(v) || tail.value.1);
      ServeFreeIffNoMiss(h2, scenes[1..]);
      assert Gets(h, scenes) == [v] + Gets(h2, scenes[1..]);
      MissedSplit(v, Gets(h2, scenes[1..]));
    }
  }

  /** A miss among `v` and then `rest` is `v`'s or one in `rest`. */
  lemma MissedSplit(v: Option<Scene>, rest: seq<Option<Scene>>)
    ensures (exists i :: 0 <= i < |[v] + rest| && Missed(([v] + rest)[i])) <==>
            Missed(v) || exists i :: 0 <= i < |rest| && Missed(rest[i])
  {
    var g := [v] + rest;
    if exists i :: 0 <= i < |g| && Missed(g[i]) {
      var i :| 0 <= i < |g| && Missed(g[i]);
      if i > 0 {
        assert g[i] == rest[i - 1];
      }
    }
    if exists i :: 0 <= i < |rest| && Missed(rest[i]) {
      var i :| 0 <= i < |rest| && Missed(rest[i]);
      assert g[i + 1] == rest[i];
    }
    assert g[0] == v;
  }

  lemma {:induction false} ServeValid(h: Hot, scenes: seq<Scene>)
    requires Valid(h) && Serve(h, scenes).Ok?
    ensures Valid(Serve(h, scenes).value.0)
    decreases |scenes|
  {
    if scenes != [] {
      var h1 := Lookup(h, scenes[0]).1;
      StoreValid(h1, scenes[0]);
      ServeValid(Store(h1, scenes[0]).value, scenes[1..]);
    }
  }

  /** A free request only asked for scenes that were resident beforehand
      or that it had itself asked for earlier. */
  lemma {:induction false} FreeMeansResident(h: Hot, scenes: seq<Scene>)
    requires !h.BareBatch? && Serve(h, scenes).Ok? && !Serve(h, scenes).value.1
    ensures forall i :: 0 <= i < |scenes| ==> scenes[i] in Contents(h) || scenes[i] in scenes[..i]
    decreases |scenes|
  {
    if scenes != [] {
      var (v, h1) := Lookup(h, scenes[0]);
      var h2 := Store(h1, scenes[0]).value;
      var rest := scenes[1..];
      assert Serve(h, scenes) == Serve(h2, rest);
      FreeMeansResident(h2, rest);
      assert scenes[0] in Contents(h);
      assert forall x :: x in Contents(h2) ==> x in Contents(h) || x == scenes[0];
      ResidentStep(scenes, Contents(h), Contents(h2));
    }
  }

  /** Sequence bookkeeping for one step of `FreeMeansResident`. */
  lemma ResidentStep<T>(s: seq<T>, before: seq<T>, after: seq<T>)
    requires |s| > 0 && s[0] in before
    requires forall x :: x in after ==> x in before || x == s[0]
    requires forall j :: 0 <= j < |s[1..]| ==> s[1..][j] in after || s[1..][j] in s[1..][..j]
    ensures forall i :: 0 <= i < |s| ==> s[i] in before || s[i] in s[..i]
  {
    forall i | 0 < i < |s| ensures s[i] in before || s[i] in s[..i] {
      assert s[1..][i - 1] == s[i];
      assert s[1..][..i - 1] == s[1..i];
      if s[i] in s[1..i] {
        PrefixMember(s, i);
      } else if s[i] == s[0] {
        assert s[..i][0] == s[0];
      }
    }
  }

  lemma PrefixMember<T>(s: seq<T>, i: nat)
    requires 0 < i <= |s|
    ensures forall x :: x in s[1..i] ==> x in s[..i]
  {
    assert s[..i] == [s[0]] + s[1..i];
  }

  /** Conversely, when the cache has room to spare and holds every scene
      asked for (none of them the integer -1), the request is free. */
  lemma {:induction false} RoomyResidentIsFree(h: Hot, scenes: seq<Scene>)
    requires Valid(h) && !h.BareBatch? && |Contents(h)| < Capacity(h)
    requires forall i :: 0 <= i < |scenes| ==> scenes[i] in Contents(h) && scenes[i] != Index(-1)
    ensures Serve(h, scenes).Ok? && !Serve(h, scenes).value.1
    decreases |scenes|
  {
    if scenes != [] {
      var (v, h1) := Lookup(h, scenes[0]);
      StoreResidentWithRoom(h1, scenes[0]);
      var h2 := Store(h1, scenes[0]).value;
      StoreValid(h1, scenes[0]);
      forall i | 0 <= i < |scenes[1..]| ensures scenes[1..][i] in Contents(h2) && scenes[1..][i] != Index(-1) {
        assert scenes[1..][i] == scenes[i + 1];
      }
      RoomyResidentIsFree(h2, scenes[1..]);
    }
  }

  /** Without room to spare the converse fails: a full list-taking cache
      holding both scenes evicts the second while re-storing the first. */
  lemma FullCacheCanMissResidentScene()
    ensures var h := Batch(BatchLru.Cache(2, [OrderedDict.Entry(Index(1), Index(1)), OrderedDict.Entry(Index(2), Index(2))]));
            Serve(h, [Index(2), Index(1)]).Ok? && Serve(h, [Index(2), Index(1)]).value.1
  {
    var h := Batch(BatchLru.Cache(2, [OrderedDict.Entry(Index(1), Index(1)), OrderedDict.Entry(Index(2), Index(2))]));
    var scenes := [Index(2), Index(1)];
    var h2 := Store(h, Index(2)).value;
    assert Contents(h) == [Index(1), Index(2)];
    assert BatchLru.Survivors(h.batch) == [Index(2)];
    assert Contents(h2) == [Index(2)] by {
      assert Without([Index(2)], Index(2)) == [];
    }
    assert scenes[1..] == [Index(1)];
    assert Lookup(h2, Index(1)).0.None?;
  }

  /** A resident integer scene -1 is indistinguishable from a miss. */
  lemma SentinelSceneNeverFree(h: Hot)
    requires Valid(h) && Index(-1) in Contents(h) && Serve(h, [Index(-1)]).Ok?
    ensures Serve(h, [Index(-1)]).value.1
  {
  }

  /** In the bare-call form a scene name longer than one character is never
      resident, so every request for one is a miss. */
  lemma {:induction false} BareLongSceneAlwaysMisses(h: Hot, scenes: seq<Scene>, i: nat)
    requires h.BareBatch? && OnlyCharacters(h) && Serve(h, scenes).Ok?
    requires i < |scenes| && scenes[i].Text? && |scenes[i].name| != 1
    ensures Serve(h, scenes).value.1
    ensures OnlyCharacters(Serve(h, scenes).value.0)
    decreases |scenes|
  {
    var (v, h1) := Lookup(h, scenes[0]);
    BareStoreKeepsCharacters(h1, scenes[0]);
    var h2 := Store(h1, scenes[0]).value;
    if i > 0 {
      assert scenes[1..][i - 1] == scenes[i];
      BareLongSceneAlwaysMisses(h2, scenes[1..], i - 1);
    } else {
      BareKeepsCharacters(h2, scenes[1..]);
    }
  }

  lemma {:induction false} BareKeepsCharacters(h: Hot, scenes: seq<Scene>)
    requires h.BareBatch? && OnlyCharacters(h) && Serve(h, scenes).Ok?
    ensures OnlyCharacters(Serve(h, scenes).value.0)
    decreases |scenes|
  {
    if scenes != [] {
      var h1 := Lookup(h, scenes[0]).1;
      BareStoreKeepsCharacters(h1, scenes[0]);
      BareKeepsCharacters(Store(h1, scenes[0]).value, scenes[1..]);
    }
  }

  /** What one iteration of the outer loop found: nothing usable (the row
      was missing or empty and the loop continued), or a scene list. */
  datatype Request = Skipped | Scenes(scenes: seq<Scene>)

  /** When a snapshot of `current_state()` goes into the history. */
  datatype HistoryRule =
    | OnMiss        // only after a request that was not free
    | EveryRequest  // after every request
    | NoHistory     // the variant keeps no history

  /** The loop's state: the shared cache, `history` and `free_requests_count`. */
  datatype Run = Run(hot: Hot, history: seq<seq<Scene>>, free: nat)

  /** One iteration of the outer loop. */
  function Step(rule: HistoryRule, run: Run, req: Request): (r: Result<Run>)
    ensures req.Skipped? ==> r == Ok(run)
    ensures !run.hot.BareBatch? && Capacity(run.hot) >= 1 ==> r.Ok?
    ensures r.Ok? ==> SameKind(run.hot, r.value.hot)
    ensures r.Ok? && req.Scenes? ==>
              Serve(run.hot, req.scenes).Ok? && r.value.hot == Serve(run.hot, req.scenes).value.0 &&
              (r.value.free == run.free + 1 <==> !Serve(run.hot, req.scenes).value.1) &&
              (r.value.free == run.free || r.value.free == run.free + 1)
    ensures r.Ok? && req.Scenes? ==>
              r.value.history == run.history + (if Recorded(rule, Serve(run.hot, req.scenes).value.1) then [Contents(r.value.hot)] else [])
  {
    match req
    case Skipped => Ok(run)
    case Scenes(scenes) =>
      var served := Serve(run.hot, scenes);
      if served.Err? then Err(served.error)
      else
        var (h, missed) := served.value;
        var history := if Recorded(rule, missed) then run.history + [Contents(h)] else run.history;
        Ok(Run(h, history, if missed then run.free else run.free + 1))
  }

  /** Whether a request with this outcome leaves a snapshot. */
  predicate Recorded(rule: HistoryRule, missed: bool) {
    match rule
    case OnMiss => missed
    case EveryRequest => true
    case NoHistory => false
  }

  /** Number of requests that reached the cache. */
  function Served(reqs: seq<Request>): (n: nat)
    ensures n <= |reqs|
  {
    if reqs == [] then 0 else (if reqs[0].Scenes? then 1 else 0) + Served(reqs[1..])
  }

  /** The outer `for _ in range(self.num)` loop over the requests drawn. */
  function Simulate(rule: HistoryRule, run: Run, reqs: seq<Request>): (r: Result<Run>)
    ensures reqs == [] ==> r == Ok(run)
    ensures !run.hot.BareBatch? && Capacity(run.hot) >= 1 ==> r.Ok?
    ensures r.Ok? ==> SameKind(run.hot, r.value.hot)
    ensures r.Ok? ==> run.history <= r.value.history
    ensures r.Ok? ==> run.free <= r.value.free <= run.free + Served(reqs)
    ensures r.Ok? && rule == OnMiss ==> |r.value.history| + r.value.free == |run.history| + run.free + Served(reqs)
    ensures r.Ok? && rule == EveryRequest ==> |r.value.history| == |run.history| + Served(reqs)
    ensures r.Ok? && rule == NoHistory ==> r.value.history == run.history
    decreases |reqs|
  {
    if reqs == [] then Ok(run)
    else
      var next := Step(rule, run, reqs[0]);
      if next.Err? then Err(next.error) else Simulate(rule, next.value, reqs[1..])
  }

  /** Running two traces one after the other on the same object is running
      their concatenation: nothing is reset in between. */
  lemma {:induction false} SimulateConcat(rule: HistoryRule, run: Run, a: seq<Request>, b: seq<Request>)
    ensures Simulate(rule, run, a + b) ==
            (var first := Simulate(rule, run, a); if first.Err? then first else Simulate(rule, first.value, b))
    decreases |a|
  {
    if a == [] {
      assert a + b == b;
    } else {
      assert (a + b)[0] == a[0];
      assert (a + b)[1..] == a[1..] + b;
      var next := Step(rule, run, a[0]);
      if next.Ok? {
        SimulateConcat(rule, next.value, a[1..], b);
      }
    }
  }

  lemma {:induction false} ServedConcat(a: seq<Request>, b: seq<Request>)
    ensures Served(a + b) == Served(a) + Served(b)
    decreases |a|
  {
    if a == [] {
      assert a + b == b;
    } else {
      assert (a + b)[0] == a[0];
      assert (a + b)[1..] == a[1..] + b;
      ServedConcat(a[1..], b);
    }
  }
}
