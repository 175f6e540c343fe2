// The store a client is meant to see (internal/store/store.go): a map from keys to
// pastes, gone the moment their deadline passes; no rows, ids or filtering.
module EagerMaps {
  import opened Text
  import opened Pastes
  import opened AtomicStore

  // `serial` is the order of creation, which List shows.
  datatype Entry = Entry(body: Body, created: int, deadline: Option<int>, serial: nat)

  datatype Store = Store(entries: map<string, Entry>, next: nat)

  const NOTHING := Store(map[], 1)

  function Expire(st: Store, now: int): Store {
    st.(entries := map k | k in st.entries && (st.entries[k].deadline.None? || now < st.entries[k].deadline.value)
                     :: st.entries[k])
  }

  function MetaOf(key: string, e: Entry): PasteMeta {
    PasteMeta(key, |e.body|, e.created, e.deadline)
  }

  ghost predicate HasSerial(entries: map<string, Entry>, serial: nat) {
    exists k :: k in entries && entries[k].serial == serial
  }

  // All entries, newest first.
  ghost function Newest(entries: map<string, Entry>, next: nat): seq<PasteMeta> {
    if next == 0 then []
    else if HasSerial(entries, next - 1) then
      var k :| k in entries && entries[k].serial == next - 1;
      [MetaOf(k, entries[k])] + Newest(entries, next - 1)
    else Newest(entries, next - 1)
  }

  // One operation; what has expired is gone before it.
  ghost function ExecMap(cfg: Config, before: Store, e: Timed): (Store, Answer) {
    var st := Expire(before, e.now);
    match e.op
    case Read(key, bump) =>
      if key !in st.entries then (st, Document(None))
      else
        var entry := st.entries[key];
        (if bump && cfg.expire > 0 && entry.deadline.Some?
         then st.(entries := st.entries[key := entry.(deadline := Some(e.now + cfg.expire))]) else st,
         Document(Some(entry.body)))
    case Write(key, body) =>
      if key in st.entries then (if cfg.backend.Postgres? then st.(next := st.next + 1) else st, Stored(false))
      else
        var deadline := if cfg.expire > 0 then Some(e.now + cfg.expire) else None;
        (Store(st.entries[key := Entry(body, e.now, deadline, st.next)], st.next + 1), Stored(true))
    case Listing(limit) => (st, Entries(Take(Newest(st.entries, st.next), if limit > 0 then limit else 500)))
    case Statistics => (st, Totals(Stats(|Newest(st.entries, st.next)|, SumSizes(Newest(st.entries, st.next)))))
    case Remove(key) => (st.(entries := st.entries - {key}), Removed(key in st.entries))
    case PurgeExpired => (st, Purged(0))
  }

  ghost function PlayMap(cfg: Config, st: Store, events: seq<Timed>): (Store, seq<Answer>)
    decreases |events|
  {
    if events == [] then (st, [])
    else
      var (next, a) := ExecMap(cfg, st, events[0]);
      var (end, rest) := PlayMap(cfg, next, events[1..]);
      (end, [a] + rest)
  }

  // The table holds one row per entry, its id being the entry's serial.
  ghost predicate Holds(t: Table, st: Store) {
    && Valid(t) && st.next == t.nextId
    && (forall id <- t.rows :: t.rows[id].slug in st.entries && st.entries[t.rows[id].slug].serial == id)
    && (forall k <- st.entries ::
          var e := st.entries[k];
          e.serial in t.rows && t.rows[e.serial] == Row(k, e.body, e.created, e.deadline))
  }

  predicate AllLive(t: Table, now: int) {
    forall id <- t.rows :: Live(t.rows[id], now)
  }

  lemma WriteHolds(cfg: Config, t: Table, st: Store, e: Timed)
    requires Holds(t, st) && AllLive(t, e.now) && e.op.Write? && Expire(st, e.now) == st
    ensures Holds(Exec(cfg, t, e).0, ExecMap(cfg, st, e).0) && Exec(cfg, t, e).1 == ExecMap(cfg, st, e).1
  {
    InsertMeaning(cfg, t, e.op.slug, e.op.body, e.now);
    ExecValid(cfg, t, e);
    if e.op.slug in st.entries {
      assert t.rows[st.entries[e.op.slug].serial].slug == e.op.slug;
    }
  }

  lemma RemoveHolds(cfg: Config, t: Table, st: Store, e: Timed)
    requires Holds(t, st) && e.op.Remove? && Expire(st, e.now) == st
    ensures Holds(Exec(cfg, t, e).0, ExecMap(cfg, st, e).0) && Exec(cfg, t, e).1 == ExecMap(cfg, st, e).1
  {
    ExecValid(cfg, t, e);
    if e.op.slug in st.entries {
      assert t.rows[st.entries[e.op.slug].serial].slug == e.op.slug;
    }
  }

  // Both lists taken one id further.
  lemma ListsStep(t: Table, st: Store, now: int, hi: nat)
    requires Holds(t, st) && AllLive(t, now) && hi > 0
    ensures if hi - 1 in t.rows
            then var key := t.rows[hi - 1].slug;
                 && LiveIds(t.rows, now, hi) == [hi - 1] + LiveIds(t.rows, now, hi - 1)
                 && key in st.entries && MetaOf(key, st.entries[key]) == Meta(t.rows[hi - 1])
                 && Newest(st.entries, hi) == [MetaOf(key, st.entries[key])] + Newest(st.entries, hi - 1)
            else
              && LiveIds(t.rows, now, hi) == LiveIds(t.rows, now, hi - 1)
              && Newest(st.entries, hi) == Newest(st.entries, hi - 1)
  {
    if hi - 1 !in t.rows {
      assert !HasSerial(st.entries, hi - 1);
    }
  }

  lemma ListsEnd(t: Table, st: Store, now: int)
    ensures LiveIds(t.rows, now, 0) == [] && Newest(st.entries, 0) == [] && Metas(t.rows, []) == []
  {
  }

  lemma {:induction false} NewestIsList(t: Table, st: Store, now: int, hi: nat)
    requires Holds(t, st) && AllLive(t, now)
    ensures forall id <- LiveIds(t.rows, now, hi) :: id in t.rows
    ensures Newest(st.entries, hi) == Metas(t.rows, LiveIds(t.rows, now, hi))
  {
    hide Newest, Metas, LiveIds;
    ListsEnd(t, st, now);
    if hi > 0 {
      ListsStep(t, st, now, hi);
      NewestIsList(t, st, now, hi - 1);
    }
  }

  lemma QueriesHold(cfg: Config, t: Table, st: Store, limit: int, now: int)
    requires Holds(t, st) && AllLive(t, now)
    ensures List(t, limit, now) == Take(Newest(st.entries, st.next), Cap(limit))
    ensures StatsOf(t, now) == Stats(|Newest(st.entries, st.next)|, SumSizes(Newest(st.entries, st.next)))
  {
    var ids := LiveIds(t.rows, now, t.nextId);
    NewestIsList(t, st, now, t.nextId);
    StatsByIds(t.rows, now, t.nextId);
    SizesAreBodies(t.rows, ids);
  }

  lemma ExecHolds(cfg: Config, t: Table, st: Store, e: Timed)
    requires Holds(t, st) && AllLive(t, e.now) && Expire(st, e.now) == st
    ensures Holds(Exec(cfg, t, e).0, ExecMap(cfg, st, e).0) && Exec(cfg, t, e).1 == ExecMap(cfg, st, e).1
  {
    match e.op {
      case Read(_, _) =>
      case Write(_, _) => WriteHolds(cfg, t, st, e);
      case Remove(_) => RemoveHolds(cfg, t, st, e);
      case Listing(limit) => QueriesHold(cfg, t, st, limit, e.now);
      case Statistics => QueriesHold(cfg, t, st, 0, e.now);
      case PurgeExpired =>
        assert Purge(t, e.now) == t;
        NothingExpired(t.rows, e.now, t.nextId);
    }
  }

  lemma {:induction false} NothingExpired(rows: map<nat, Row>, now: int, hi: nat)
    requires forall id <- rows :: Live(rows[id], now)
    ensures ExpiredBelow(rows, now, hi) == 0
  {
    if hi > 0 {
      NothingExpired(rows, now, hi - 1);
    }
  }

  lemma ExpireTwice(cfg: Config, st: Store, e: Timed)
    ensures Expire(Expire(st, e.now), e.now) == Expire(st, e.now)
    ensures ExecMap(cfg, Expire(st, e.now), e) == ExecMap(cfg, st, e)
  {
    assert Expire(Expire(st, e.now), e.now).entries == Expire(st, e.now).entries;
  }

  // The table run eagerly answers every operation as the map does.
  lemma {:induction false} EagerIsMap(cfg: Config, t: Table, st: Store, events: seq<Timed>)
    requires Holds(t, st)
    ensures Play(cfg, t, events, true).1 == PlayMap(cfg, st, events).1
    ensures Holds(Play(cfg, t, events, true).0, PlayMap(cfg, st, events).0)
    decreases |events|
  {
    if events != [] {
      var e := events[0];
      ExpireTwice(cfg, st, e);
      ExecHolds(cfg, Purge(t, e.now), Expire(st, e.now), e);
      EagerIsMap(cfg, EagerExec(cfg, t, e).0, ExecMap(cfg, st, e).0, events[1..]);
    }
  }

  // What the map shows a reader of the key at time `at`, after the first k events.
  ghost function MapReadAfter(cfg: Config, st: Store, events: seq<Timed>, k: nat, key: string, at: int): Option<Body>
    requires k <= |events|
  {
    var end := Expire(PlayMap(cfg, st, events[..k]).0, at);
    if key in end.entries then Some(end.entries[key].body) else None
  }

  // No read of any key, after any part of the run, tells the lazy table from the map.
  ghost predicate ReadersSeeMap(cfg: Config, t: Table, st: Store, events: seq<Timed>, now: int) {
    forall k, key, at :: 0 <= k <= |events| && TimeAfter(events, k, now) <= at ==>
      ReadAfter(cfg, t, events, false, k, key, at) == MapReadAfter(cfg, st, events, k, key, at)
  }

  lemma ReadIsEntry(cfg: Config, t: Table, st: Store, key: string, at: int)
    requires Holds(t, st)
    ensures var live := Expire(st, at).entries;
            Get(cfg, t, key, false, at).1 == if key in live then Some(live[key].body) else None
  {
    if key in st.entries {
      var id := st.entries[key].serial;
      SelectMeaning(t, key, at, id);
      if other :| other in t.rows && Select(t, key, at) == Some(other) {
        SelectMeaning(t, key, at, other);
      }
    }
  }

  lemma EagerReads(cfg: Config, t: Table, st: Store, events: seq<Timed>, k: nat, key: string, at: int)
    requires Holds(t, st) && k <= |events|
    ensures ReadAfter(cfg, t, events, true, k, key, at) == MapReadAfter(cfg, st, events, k, key, at)
  {
    EagerIsMap(cfg, t, st, events[..k]);
    ReadIsEntry(cfg, Play(cfg, t, events[..k], true).0, PlayMap(cfg, st, events[..k]).0, key, at);
  }

  // Over every run with a clock that never goes back, the lazily filtered table is
  // to its readers, and in what its writes are answered, the map exactly as long as
  // no write comes upon an expired row; then List and Stats agree as well.
  lemma LazyTableIsMap(cfg: Config, t: Table, st: Store, events: seq<Timed>, now: int)
    requires Holds(t, st) && Nondecreasing(events) && After(events, now)
    ensures ReadersSeeMap(cfg, t, st, events, now) <==> NoStaleWrite(cfg, t, events)
    ensures SameWrites(Play(cfg, t, events, false).1, PlayMap(cfg, st, events).1) <==> NoStaleWrite(cfg, t, events)
    ensures NoStaleWrite(cfg, t, events) ==> SameViews(Play(cfg, t, events, false).1, PlayMap(cfg, st, events).1)
  {
    hide Play, PlayMap, NoStaleWrite, ReadAfter, MapReadAfter;
    EagerIsMap(cfg, t, st, events);
    LazyRefinesEager(cfg, t, events, now);
    forall k, key, at | 0 <= k <= |events|
      ensures ReadAfter(cfg, t, events, true, k, key, at) == MapReadAfter(cfg, st, events, k, key, at)
    {
      EagerReads(cfg, t, st, events, k, key, at);
    }
  }

  function EntryOf(id: nat, row: Row): Entry {
    Entry(row.body, row.created, row.expires, id)
  }

  ghost function IdOf(t: Table, key: string): nat
    requires exists id :: id in t.rows && t.rows[id].slug == key
  {
    var id :| id in t.rows && t.rows[id].slug == key;
    id
  }

  // The map a table holds.
  ghost function MapOf(t: Table): Store {
    var keys := set id | id in t.rows :: t.rows[id].slug;
    Store(map key | key in keys :: EntryOf(IdOf(t, key), t.rows[IdOf(t, key)]), t.nextId)
  }

  // Every table the store can be left with holds a map, the empty one nothing.
  lemma EveryTableIsMap(t: Table)
    requires Valid(t)
    ensures Holds(t, MapOf(t))
    ensures MapOf(EMPTY) == NOTHING
  {
    forall id | id in t.rows
      ensures IdOf(t, t.rows[id].slug) == id
    {
    }
  }
}
