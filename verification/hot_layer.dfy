/** The hot-layer object a simulator keeps in `self.lru`, seen through the
    three calls the request loop makes: `get(scene)`, `put(scene)` and
    `current_state()`. Scene identifiers are strings when they come from
    the database and integers when they come from the pickled
    dictionaries. */
module HotLayer {
  import opened Common
  import opened OrderedDict
  import RecencyLru
  import BatchLru

  datatype Scene = Text(name: string) | Index(id: int)

  /** Which cache class the simulator built, and how it calls `put`. */
  datatype Hot =
    | Recency(recency: RecencyLru.Cache<Scene>)  // single-key put; a get hit refreshes
    | Batch(batch: BatchLru.Cache<Scene>)        // list put, called as put([scene])
    | BareBatch(batch: BatchLru.Cache<Scene>)    // list put, called as put(scene)

  function Capacity(h: Hot): int {
    match h
    case Recency(c) => c.capacity
    case Batch(c) => c.capacity
    case BareBatch(c) => c.capacity
  }

  /** `current_state()`. */
  function Contents(h: Hot): seq<Scene> {
    match h
    case Recency(c) => RecencyLru.State(c)
    case Batch(c) => BatchLru.State(c)
    case BareBatch(c) => BatchLru.State(c)
  }

  predicate Valid(h: Hot) {
    match h
    case Recency(c) => RecencyLru.Valid(c)
    case Batch(c) => BatchLru.Valid(c)
    case BareBatch(c) => BatchLru.Valid(c)
  }

  /** Same class and capacity. */
  predicate SameKind(h: Hot, h': Hot) {
    Capacity(h') == Capacity(h) &&
    (h.Recency? <==> h'.Recency?) && (h.Batch? <==> h'.Batch?) && (h.BareBatch? <==> h'.BareBatch?)
  }

  /** `get(scene)`: the stored value (None for Python's -1) and the object
      afterwards. A lookup never adds or drops a scene. */
  function Lookup(h: Hot, s: Scene): (r: (Option<Scene>, Hot))
    ensures r.0.None? <==> s !in Contents(h)
    ensures r.0.None? ==> r.1 == h
    ensures Valid(h) && r.0.Some? ==> r.0.value == s
    ensures Valid(h) ==> Valid(r.1)
    ensures SameKind(h, r.1)
    ensures forall x :: x in Contents(r.1) <==> x in Contents(h)
    ensures Valid(h) ==> |Contents(r.1)| == |Contents(h)|
  {
    match h
    case Recency(c) =>
      var (v, c') := RecencyLru.Get(c, s);
      if v.Some? && Valid(h) then
        WithoutFacts(RecencyLru.State(c), s);
        (v, Recency(c'))
      else (v, Recency(c'))
    case Batch(c) => (BatchLru.Get(c, s), h)
    case BareBatch(c) => (BatchLru.Get(c, s), h)
  }

  /** Iterating a string yields its characters, each a one-character string. */
  function Characters(name: string): (r: seq<Scene>)
    ensures |r| == |name|
    ensures forall i :: 0 <= i < |name| ==> r[i] == Text([name[i]])
  {
    if name == [] then [] else [Text([name[0]])] + Characters(name[1..])
  }

  /** `put(scene)` as the simulator calls it. On the list-taking cache
      called with a bare scene, Python iterates the scene: a string is
      stored character by character, and an integer raises TypeError. */
  function Store(h: Hot, s: Scene): (r: Result<Hot>)
    ensures r.Ok? ==> SameKind(h, r.value)
    ensures !h.BareBatch? ==> (r.Err? <==> Contents(h) == [] && Capacity(h) <= 0)
    ensures !h.BareBatch? && r.Ok? ==> s in Contents(r.value)
    ensures !h.BareBatch? && r.Ok? ==> forall x :: x in Contents(r.value) ==> x in Contents(h) || x == s
    ensures Capacity(h) >= 1 && |Contents(h)| <= Capacity(h) && (h.BareBatch? ==> s.Text?) ==>
              r.Ok? && |Contents(r.value)| <= Capacity(h)
    ensures h.BareBatch? && s.Index? ==> r == Err(TypeError)
  {
    match h
    case Recency(c) =>
      var p := RecencyLru.Put(c, s);
      if p.Err? then Err(p.error) else Ok(Recency(p.value.0))
    case Batch(c) =>
      var p := BatchLru.Put(c, [s]);
      assert BatchLru.Put(c, [s]) == BatchLru.PutKey(c, s) by {
        if BatchLru.PutKey(c, s).Ok? {
          assert [s][1..] == [];
        }
      }
      if p.Err? then Err(p.error) else Ok(Batch(p.value))
    case BareBatch(c) =>
      if s.Index? then Err(TypeError)
      else
        var p := BatchLru.Put(c, Characters(s.name));
        if p.Err? then Err(p.error) else Ok(BareBatch(p.value))
  }

  lemma StoreValid(h: Hot, s: Scene)
    requires Valid(h) && Store(h, s).Ok?
    ensures Valid(Store(h, s).value)
  {
    match h
    case Recency(c) =>
    case Batch(c) =>
      BatchLru.PutValid(c, [s]);
    case BareBatch(c) =>
      BatchLru.PutValid(c, Characters(s.name));
  }

  /** Storing a resident scene into a cache with room to spare changes
      nothing but, for the list-taking cache, its position. */
  lemma StoreResidentWithRoom(h: Hot, s: Scene)
    requires Valid(h) && !h.BareBatch? && s in Contents(h) && |Contents(h)| < Capacity(h)
    ensures Store(h, s).Ok?
    ensures forall x :: x in Contents(Store(h, s).value) <==> x in Contents(h)
    ensures |Contents(Store(h, s).value)| == |Contents(h)|
  {
    match h
    case Recency(c) =>
      assert RecencyLru.Survivors(c) == Contents(h);
    case Batch(c) =>
      assert BatchLru.Survivors(c) == Contents(h);
      WithoutFacts(Contents(h), s);
      assert Contents(Store(h, s).value) == Without(Contents(h), s) + [s];
  }

  /** In the bare-call form only one-character text scenes ever become
      resident. */
  predicate OnlyCharacters(h: Hot) {
    forall x :: x in Contents(h) ==> x.Text? && |x.name| == 1
  }

  lemma BareStoreKeepsCharacters(h: Hot, s: Scene)
    requires h.BareBatch? && OnlyCharacters(h) && Store(h, s).Ok?
    ensures OnlyCharacters(Store(h, s).value)
  {
    var keys := Characters(s.name);
    forall x | x in Contents(Store(h, s).value) ensures x.Text? && |x.name| == 1 {
      if x !in Contents(h) {
        assert x in keys;
      }
    }
  }
}
