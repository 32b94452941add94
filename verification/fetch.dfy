/** Where the simulators' scene lists come from: a row fetched per request
    from a mapping table, or a dict loaded once from the whole table (or
    from a pickle). The database and the files are replaced by the rows
    they would return; the random draws by the positions they picked. */
module Fetch {
  import opened Common
  import opened OrderedDict
  import opened Text
  import opened HotLayer
  import opened RequestLoop

  /** `cursor.fetchone()` for `SELECT landsat_FIDs ... WHERE feature_index=%s`:
      no row at all, or a row whose one column may be NULL. */
  datatype Row = NoRow | Row(fids: Option<string>)

  /** Scene identifiers read from the database are strings. */
  function Texts(names: seq<string>): (r: seq<Scene>)
    ensures |r| == |names|
    ensures forall i :: 0 <= i < |names| ==> r[i] == Text(names[i])
  {
    if names == [] then [] else [Text(names[0])] + Texts(names[1..])
  }

  /** The names of text scenes (an integer scene has none). */
  function Names(scenes: seq<Scene>): (r: seq<string>)
    ensures |r| == |scenes|
    ensures forall i :: 0 <= i < |scenes| ==> r[i] == (if scenes[i].Text? then scenes[i].name else "")
  {
    if scenes == [] then [] else [if scenes[0].Text? then scenes[0].name else ""] + Names(scenes[1..])
  }

  /** The row handling of the `QuerySimulator` family: a missing row and an
      empty or NULL column are skipped (`continue`); anything else is split
      at commas. */
  function SkippingRequest(row: Row): (r: Request)
    ensures r.Skipped? <==> row.NoRow? || row.fids.None? || row.fids.value == ""
    ensures r.Scenes? ==> forall i :: 0 <= i < |r.scenes| ==> r.scenes[i].Text? && ',' !in r.scenes[i].name
  {
    if row.NoRow? || row.fids.None? || row.fids.value == "" then Skipped
    else Scenes(Texts(Split(row.fids.value, ',')))
  }

  /** The scene list of a usable row is exactly its column cut at the commas:
      one more scene than commas, and joining the names gives the column back. */
  lemma SkippingRequestJoins(row: Row)
    requires SkippingRequest(row).Scenes?
    ensures |SkippingRequest(row).scenes| == Occurrences(row.fids.value, ',') + 1
    ensures Join(Names(SkippingRequest(row).scenes), ',') == row.fids.value
  {
    var parts := Split(row.fids.value, ',');
    SplitCount(row.fids.value, ',');
    JoinSplit(row.fids.value, ',');
    assert Names(Texts(parts)) == parts;
  }

  function SkippingRequests(rows: seq<Row>): (r: seq<Request>)
    ensures |r| == |rows|
    ensures forall i :: 0 <= i < |rows| ==> r[i] == SkippingRequest(rows[i])
  {
    if rows == [] then [] else [SkippingRequest(rows[0])] + SkippingRequests(rows[1..])
  }

  /** The row handling of `quicksim.py`: `result[0]` on a missing row raises
      TypeError and `None.split` AttributeError; an empty column is one
      empty scene. */
  function StrictRequest(row: Row): (r: Result<Request>)
    ensures row.NoRow? ==> r == Err(TypeError)
    ensures row.Row? && row.fids.None? ==> r == Err(AttributeError)
    ensures row.Row? && row.fids.Some? ==> r.Ok? && r.value.Scenes? && |r.value.scenes| >= 1
    ensures row == Row(Some("")) ==> r == Ok(Scenes([Text("")]))
  {
    if row.NoRow? then Err(TypeError)
    else if row.fids.None? then Err(AttributeError)
    else
      assert Split("", ',') == [""];
      assert Texts([""]) == [Text("")];
      Ok(Scenes(Texts(Split(row.fids.value, ','))))
  }

  /** The two row handlings agree wherever the tolerant one does not skip. */
  lemma StrictAgreesWhereNotSkipped(row: Row)
    ensures SkippingRequest(row).Scenes? ==> StrictRequest(row) == Ok(SkippingRequest(row))
    ensures StrictRequest(row).Ok? && SkippingRequest(row).Skipped? ==> row == Row(Some(""))
  {
  }

  /** A row of `SELECT feature_index, landsat_FIDs FROM <table>`. */
  datatype DbRow = DbRow(index: int, fids: Option<string>)

  /** `... ORDER BY feature_index LIMIT count` on the rows in index order:
      a negative limit is rejected by the database. */
  function Limit(rows: seq<DbRow>, count: int): (r: Result<seq<DbRow>>)
    ensures r.Err? <==> count < 0
    ensures r.Err? ==> r.error == DatabaseError
    ensures r.Ok? ==> r.value <= rows && |r.value| == (if count < |rows| then count else |rows|)
  {
    if count < 0 then Err(DatabaseError)
    else if count < |rows| then Ok(rows[..count])
    else Ok(rows)
  }

  /** The split column of a row, as `row[1].split(',')` stores it. */
  function Value(row: DbRow): seq<Scene>
    requires row.fids.Some?
  {
    Texts(Split(row.fids.value, ','))
  }

  /** `{row[0]: row[1].split(',') for row in rows}`, built left to right
      into `d`: a repeated index keeps its first position and takes the
      last value; a NULL column raises AttributeError. */
  function ComprehendInto(d: seq<Entry<int, seq<Scene>>>, rows: seq<DbRow>): (r: Result<seq<Entry<int, seq<Scene>>>>)
    ensures r.Err? ==> r.error == AttributeError
    ensures r.Ok? ==> |r.value| <= |d| + |rows|
    decreases |rows|
  {
    if rows == [] then Ok(d)
    else if rows[0].fids.None? then Err(AttributeError)
    else ComprehendInto(Assign(d, rows[0].index, Value(rows[0])), rows[1..])
  }

  function Comprehend(rows: seq<DbRow>): (r: Result<seq<Entry<int, seq<Scene>>>>)
    ensures r.Err? ==> r.error == AttributeError
    ensures r.Ok? ==> |r.value| <= |rows|
  {
    ComprehendInto([], rows)
  }

  function Indexes(rows: seq<DbRow>): (r: seq<int>)
    ensures |r| == |rows|
    ensures forall i :: 0 <= i < |rows| ==> r[i] == rows[i].index
  {
    if rows == [] then [] else [rows[0].index] + Indexes(rows[1..])
  }

  /** The comprehension fails exactly when some row has a NULL column. */
  lemma {:induction false} ComprehendFails(d: seq<Entry<int, seq<Scene>>>, rows: seq<DbRow>)
    ensures ComprehendInto(d, rows).Err? <==> exists i :: 0 <= i < |rows| && rows[i].fids.None?
    decreases |rows|
  {
    if rows != [] && rows[0].fids.Some? {
      ComprehendFails(Assign(d, rows[0].index, Value(rows[0])), rows[1..]);
      if exists i :: 0 <= i < |rows| && rows[i].fids.None? {
        var i :| 0 <= i < |rows| && rows[i].fids.None?;
        assert rows[1..][i - 1] == rows[i];
      }
    }
  }

  /** A successful comprehension has a key for every index and nothing else. */
  lemma {:induction false} ComprehendKeys(d: seq<Entry<int, seq<Scene>>>, rows: seq<DbRow>)
    requires ComprehendInto(d, rows).Ok?
    ensures forall k :: k in Keys(ComprehendInto(d, rows).value) <==> k in Keys(d) || k in Indexes(rows)
    decreases |rows|
  {
    if rows != [] {
      ComprehendKeys(Assign(d, rows[0].index, Value(rows[0])), rows[1..]);
      assert Indexes(rows) == [rows[0].index] + Indexes(rows[1..]);
    }
  }

  /** The comprehension yields a real dict whose every scene list is non-empty. */
  lemma {:induction false} ComprehendValid(d: seq<Entry<int, seq<Scene>>>, rows: seq<DbRow>)
    requires OrderedDict.Valid(d) && (forall k :: k in Keys(d) ==> |Find(d, k).value| >= 1)
    requires ComprehendInto(d, rows).Ok?
    ensures OrderedDict.Valid(ComprehendInto(d, rows).value)
    ensures forall k :: k in Keys(ComprehendInto(d, rows).value) ==> |Find(ComprehendInto(d, rows).value, k).value| >= 1
    decreases |rows|
  {
    if rows != [] {
      var d1 := Assign(d, rows[0].index, Value(rows[0]));
      AssignValid(d, rows[0].index, Value(rows[0]));
      ComprehendValid(d1, rows[1..]);
    }
  }

  /** Rows that never mention an index leave its value alone. */
  lemma {:induction false} ComprehendUntouched(d: seq<Entry<int, seq<Scene>>>, rows: seq<DbRow>, k: int)
    requires ComprehendInto(d, rows).Ok? && k !in Indexes(rows)
    ensures Find(ComprehendInto(d, rows).value, k) == Find(d, k)
    decreases |rows|
  {
    if rows != [] {
      assert Indexes(rows) == [rows[0].index] + Indexes(rows[1..]);
      ComprehendUntouched(Assign(d, rows[0].index, Value(rows[0])), rows[1..], k);
    }
  }

  /** The value stored under an index is the split column of the last row
      carrying that index. */
  lemma {:induction false} ComprehendLastWins(d: seq<Entry<int, seq<Scene>>>, rows: seq<DbRow>, i: nat)
    requires ComprehendInto(d, rows).Ok? && i < |rows|
    requires forall j :: i < j < |rows| ==> rows[j].index != rows[i].index
    ensures rows[i].fids.Some?
    ensures Find(ComprehendInto(d, rows).value, rows[i].index) == Some(Value(rows[i]))
    decreases |rows|
  {
    assert rows[0].fids.Some?;
    var d1 := Assign(d, rows[0].index, Value(rows[0]));
    assert ComprehendInto(d, rows) == ComprehendInto(d1, rows[1..]);
    if i == 0 {
      assert rows[0].index !in Indexes(rows[1..]) by {
        forall j | 0 <= j < |rows[1..]| ensures Indexes(rows[1..])[j] != rows[0].index {
          assert rows[1..][j] == rows[j + 1];
        }
      }
      ComprehendUntouched(d1, rows[1..], rows[0].index);
    } else {
      assert rows[1..][i - 1] == rows[i];
      forall j | i - 1 < j < |rows[1..]| ensures rows[1..][j].index != rows[1..][i - 1].index {
        assert rows[1..][j] == rows[j + 1];
      }
      ComprehendLastWins(d1, rows[1..], i - 1);
    }
  }

  predicate Ascending(xs: seq<int>) {
    forall i, j :: 0 <= i < j < |xs| ==> xs[i] < xs[j]
  }

  /** Rows with strictly ascending indexes (as `ORDER BY` over a key column
      returns them) append their indexes in that order. */
  lemma {:induction false} ComprehendAscending(d: seq<Entry<int, seq<Scene>>>, rows: seq<DbRow>)
    requires ComprehendInto(d, rows).Ok? && Ascending(Indexes(rows))
    requires forall k :: k in Indexes(rows) ==> k !in Keys(d)
    ensures Keys(ComprehendInto(d, rows).value) == Keys(d) + Indexes(rows)
    decreases |rows|
  {
    if rows == [] {
      assert Keys(d) + Indexes(rows) == Keys(d);
    } else {
      var d1 := Assign(d, rows[0].index, Value(rows[0]));
      var rest := Indexes(rows[1..]);
      AscendingRest(rows);
      assert rows[0].index in Indexes(rows);
      assert Keys(d1) == Keys(d) + [rows[0].index];
      assert forall k :: k in rest ==> k in Indexes(rows);
      assert ComprehendInto(d, rows) == ComprehendInto(d1, rows[1..]);
      ComprehendAscending(d1, rows[1..]);
      AppendShift(Keys(d), rows[0].index, rest);
    }
  }

  lemma AppendShift<T>(a: seq<T>, x: T, b: seq<T>)
    ensures (a + [x]) + b == a + ([x] + b)
  {
  }

  lemma AscendingRest(rows: seq<DbRow>)
    requires rows != [] && Ascending(Indexes(rows))
    ensures Indexes(rows) == [rows[0].index] + Indexes(rows[1..])
    ensures Ascending(Indexes(rows[1..]))
    ensures rows[0].index !in Indexes(rows[1..])
  {
    var rest := Indexes(rows[1..]);
    assert Indexes(rows) == [rows[0].index] + rest;
    forall j | 0 <= j < |rest| ensures rest[j] != rows[0].index {
      assert Indexes(rows)[0] < Indexes(rows)[j + 1];
    }
    forall a, b | 0 <= a < b < |rest| ensures rest[a] < rest[b] {
      assert rest[a] == Indexes(rows)[a + 1] && rest[b] == Indexes(rows)[b + 1];
    }
  }

  /** `fetch_data(cursor, table, count)` of the preloading `quicksim` modules. */
  function FetchData(rows: seq<DbRow>, count: int): (r: Result<seq<Entry<int, seq<Scene>>>>)
    ensures count < 0 ==> r == Err(DatabaseError)
    ensures count >= 0 ==> (r.Err? <==> exists i :: 0 <= i < |rows| && i < count && rows[i].fids.None?)
    ensures count >= 0 && r.Err? ==> r.error == AttributeError
    ensures r.Ok? ==> |r.value| <= count
    ensures r.Ok? ==> forall k :: k in Keys(r.value) <==> exists i :: 0 <= i < |rows| && i < count && rows[i].index == k
  {
    var limited := Limit(rows, count);
    if limited.Err? then Err(limited.error)
    else
      var d := Comprehend(limited.value);
      ComprehendFails([], limited.value);
      assert forall i :: 0 <= i < |limited.value| ==> limited.value[i] == rows[i];
      if d.Err? then d
      else
        ComprehendKeys([], limited.value);
        d
  }

  /** The three scales `np.random.choice` picks from. */
  datatype Scale = Regions | States | Counties

  /** `regions_data`, `states_data` and `counties_data`. */
  datatype Tables = Tables(regions: seq<Entry<int, seq<Scene>>>, states: seq<Entry<int, seq<Scene>>>, counties: seq<Entry<int, seq<Scene>>>)

  function Table(t: Tables, s: Scale): seq<Entry<int, seq<Scene>>> {
    match s
    case Regions => t.regions
    case States => t.states
    case Counties => t.counties
  }

  /** `load_data()` of the preloading `quicksim` modules: three fetches in
      order, the first failure raising. */
  function LoadData(regions: seq<DbRow>, states: seq<DbRow>, counties: seq<DbRow>,
                    regionsCount: int, statesCount: int, countiesCount: int): (r: Result<Tables>)
    ensures r.Ok? <==> FetchData(regions, regionsCount).Ok? && FetchData(states, statesCount).Ok? && FetchData(counties, countiesCount).Ok?
    ensures r.Ok? ==> r.value == Tables(FetchData(regions, regionsCount).value, FetchData(states, statesCount).value, FetchData(counties, countiesCount).value)
  {
    var rs := FetchData(regions, regionsCount);
    if rs.Err? then Err(rs.error)
    else
      var ss := FetchData(states, statesCount);
      if ss.Err? then Err(ss.error)
      else
        var cs := FetchData(counties, countiesCount);
        if cs.Err? then Err(cs.error) else Ok(Tables(rs.value, ss.value, cs.value))
  }

  /** One draw of the request loop: the scale, and the random number that
      chose the feature. The position in `list(data.keys())` is that number
      modulo the length of the list, so every draw names some feature and
      every feature can be named. */
  datatype Draw = Draw(scale: Scale, pick: nat)

  /** `data[np.random.choice(list(data.keys()))]`: choosing from an empty
      table raises ValueError. */
  function DrawRequest(t: Tables, d: Draw): (r: Result<Request>)
    ensures r.Err? <==> Table(t, d.scale) == []
    ensures r.Err? ==> r.error == ValueError
    ensures r.Ok? ==>
              r.value.Scenes? &&
              Find(Table(t, d.scale), Keys(Table(t, d.scale))[d.pick % |Table(t, d.scale)|]) == Some(r.value.scenes)
  {
    var table := Table(t, d.scale);
    if table == [] then Err(ValueError)
    else
      var key := Keys(table)[d.pick % |table|];
      Ok(Scenes(Find(table, key).value))
  }

  /** In a real dict the drawn position yields the entry stored there. */
  lemma DrawRequestEntry(t: Tables, d: Draw)
    requires OrderedDict.Valid(Table(t, d.scale)) && Table(t, d.scale) != []
    ensures DrawRequest(t, d) == Ok(Scenes(Table(t, d.scale)[d.pick % |Table(t, d.scale)|].value))
  {
    FindAt(Table(t, d.scale), d.pick % |Table(t, d.scale)|);
  }
}
