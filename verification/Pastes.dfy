// The `pastes` table of the sqlite and postgres backends and the SQL statements
// run on it, each one atomic (internal/store/sqlite.go, internal/store/postgres.go).
module Pastes {
  import opened Text

  newtype byte = x: int | 0 <= x < 256
  type Body = seq<byte>

  // Ids grow for ever (AUTOINCREMENT, GENERATED ALWAYS AS IDENTITY). Postgres
  // spends an id on an INSERT that violates UNIQUE, sqlite does not.
  datatype Backend = SQLite | Postgres

  // expire is the sliding lifetime in clock ticks; zero or less means no expiry.
  datatype Config = Config(expire: int, backend: Backend)

  datatype Row = Row(slug: string, body: Body, created: int, expires: Option<int>)

  datatype Table = Table(rows: map<nat, Row>, nextId: nat)

  const EMPTY := Table(map[], 1)

  ghost predicate Valid(t: Table) {
    && (forall id <- t.rows :: id < t.nextId)
    && (forall a, b :: a in t.rows && b in t.rows && t.rows[a].slug == t.rows[b].slug ==> a == b)
  }

  // expires_at IS NULL OR expires_at > now
  predicate Live(r: Row, now: int) {
    r.expires.None? || r.expires.value > now
  }

  // The row below hi with this slug, if there is one.
  function Find(rows: map<nat, Row>, slug: string, hi: nat): (r: Option<nat>)
    ensures r.Some? ==> r.value in rows && r.value < hi && rows[r.value].slug == slug
    ensures r.None? ==> forall id <- rows :: id < hi ==> rows[id].slug != slug
  {
    if hi == 0 then None
    else if hi - 1 in rows && rows[hi - 1].slug == slug then Some(hi - 1)
    else Find(rows, slug, hi - 1)
  }

  // Get's SELECT: the live row with this slug.
  function Select(t: Table, slug: string, now: int): Option<nat> {
    match Find(t.rows, slug, t.nextId)
    case Some(id) => if Live(t.rows[id], now) then Some(id) else None
    case None => None
  }

  // Select finds precisely the live row with the slug.
  lemma SelectMeaning(t: Table, slug: string, now: int, id: nat)
    requires Valid(t)
    ensures Select(t, slug, now) == Some(id) <==> id in t.rows && t.rows[id].slug == slug && Live(t.rows[id], now)
  {
  }

  // Get's UPDATE, keyed by id; no row is changed when the id is gone.
  function Bump(t: Table, id: nat, expires: int): Table {
    if id in t.rows then t.(rows := t.rows[id := t.rows[id].(expires := Some(expires))]) else t
  }

  // Both statements of Get with nothing in between.
  function Get(cfg: Config, t: Table, slug: string, bump: bool, now: int): (Table, Option<Body>) {
    match Select(t, slug, now)
    case None => (t, None)
    case Some(id) =>
      (if bump && cfg.expire > 0 && t.rows[id].expires.Some? then Bump(t, id, now + cfg.expire) else t,
       Some(t.rows[id].body))
  }

  // Set's INSERT under the UNIQUE constraint on slug. False is ErrKeyExists.
  function Insert(cfg: Config, t: Table, slug: string, body: Body, now: int): (Table, bool) {
    if Find(t.rows, slug, t.nextId).Some? then
      (if cfg.backend.Postgres? then t.(nextId := t.nextId + 1) else t, false)
    else
      var expires := if cfg.expire > 0 then Some(now + cfg.expire) else None;
      (Table(t.rows[t.nextId := Row(slug, body, now, expires)], t.nextId + 1), true)
  }

  // INSERT succeeds exactly when no row at all has the slug, live or expired.
  lemma InsertMeaning(cfg: Config, t: Table, slug: string, body: Body, now: int)
    requires Valid(t)
    ensures Insert(cfg, t, slug, body, now).1 <==> forall id <- t.rows :: t.rows[id].slug != slug
    ensures Valid(Insert(cfg, t, slug, body, now).0)
  {
  }

  function DeleteSlug(t: Table, slug: string): Table {
    t.(rows := map id | id in t.rows && t.rows[id].slug != slug :: t.rows[id])
  }

  function Purge(t: Table, now: int): Table {
    t.(rows := map id | id in t.rows && Live(t.rows[id], now) :: t.rows[id])
  }

  function SlugIds(t: Table, slug: string): set<nat> {
    set id | id in t.rows && t.rows[id].slug == slug
  }

  function ExpiredIds(t: Table, now: int): set<nat> {
    set id | id in t.rows && !Live(t.rows[id], now)
  }

  // ---------------------------------------------------------------------------
  // The admin console's queries

  datatype PasteMeta = PasteMeta(key: string, size: nat, created: int, expiration: Option<int>)

  datatype Stats = Stats(count: nat, bytes: nat)

  const DEFAULT_LIST_LIMIT := 500

  function Meta(r: Row): PasteMeta {
    PasteMeta(r.slug, |r.body|, r.created, r.expires)
  }

  // Ids of the live rows below hi, newest first (ORDER BY id DESC).
  function LiveIds(rows: map<nat, Row>, now: int, hi: nat): seq<nat> {
    if hi == 0 then []
    else (if hi - 1 in rows && Live(rows[hi - 1], now) then [hi - 1] else []) + LiveIds(rows, now, hi - 1)
  }

  function Metas(rows: map<nat, Row>, ids: seq<nat>): (metas: seq<PasteMeta>)
    requires forall id <- ids :: id in rows
    ensures |metas| == |ids|
    ensures forall i :: 0 <= i < |ids| ==> metas[i] == Meta(rows[ids[i]])
  {
    if ids == [] then [] else [Meta(rows[ids[0]])] + Metas(rows, ids[1..])
  }

  function Take<T>(s: seq<T>, n: int): seq<T> {
    if n <= 0 then [] else if n < |s| then s[..n] else s
  }

  function Cap(limit: int): int {
    if limit <= 0 then DEFAULT_LIST_LIMIT else limit
  }

  function List(t: Table, limit: int, now: int): seq<PasteMeta> {
    LiveIdsMeaning(t.rows, now, t.nextId);
    Metas(t.rows, Take(LiveIds(t.rows, now, t.nextId), Cap(limit)))
  }

  // SELECT count(*), coalesce(sum(length(body)), 0) over the live rows.
  function StatsBelow(rows: map<nat, Row>, now: int, hi: nat): Stats {
    if hi == 0 then Stats(0, 0)
    else
      var st := StatsBelow(rows, now, hi - 1);
      if hi - 1 in rows && Live(rows[hi - 1], now) then Stats(st.count + 1, st.bytes + |rows[hi - 1].body|) else st
  }

  function StatsOf(t: Table, now: int): Stats {
    StatsBelow(t.rows, now, t.nextId)
  }

  // Rows the purging DELETE removes.
  function ExpiredBelow(rows: map<nat, Row>, now: int, hi: nat): nat {
    if hi == 0 then 0
    else ExpiredBelow(rows, now, hi - 1) + if hi - 1 in rows && !Live(rows[hi - 1], now) then 1 else 0
  }

  function SumSizes(metas: seq<PasteMeta>): nat {
    if metas == [] then 0 else metas[0].size + SumSizes(metas[1..])
  }

  // LiveIds lists precisely the live rows, each once, in strictly descending order.
  lemma {:induction false} LiveIdsMeaning(rows: map<nat, Row>, now: int, hi: nat)
    ensures forall id :: id in LiveIds(rows, now, hi) <==> id < hi && id in rows && Live(rows[id], now)
    ensures forall i, j :: 0 <= i < j < |LiveIds(rows, now, hi)| ==>
              LiveIds(rows, now, hi)[i] > LiveIds(rows, now, hi)[j]
  {
    if hi > 0 {
      LiveIdsMeaning(rows, now, hi - 1);
      var rest := LiveIds(rows, now, hi - 1);
      assert forall i :: 0 <= i < |rest| ==> rest[i] in rest;
    }
  }

  lemma LiveCount(t: Table, now: int)
    requires Valid(t)
    ensures |LiveIds(t.rows, now, t.nextId)| == |LiveRows(t, now)|
  {
    StatsByIds(t.rows, now, t.nextId);
    RowsBelow(t.rows, now, t.nextId);
    assert LiveRows(t, now) == LiveBelow(t.rows, now, t.nextId);
  }

  lemma ListLength(t: Table, limit: int, now: int)
    requires Valid(t)
    ensures var live, cap := |LiveRows(t, now)|, if limit > 0 then limit else 500;
            |List(t, limit, now)| == if live < cap then live else cap
  {
    LiveCount(t, now);
    LiveIdsMeaning(t.rows, now, t.nextId);
  }

  lemma LeftOut(all: seq<nat>, n: nat, id: nat)
    requires (forall i, j :: 0 <= i < j < |all| ==> all[i] > all[j]) && n <= |all| && id in all
    ensures id in all[..n] || forall i <- all[..n] :: i > id
  {
    var k :| 0 <= k < |all| && all[k] == id;
    assert k < n ==> all[..n][k] == id;
  }

  // List(limit) is the first live rows, newest first: as many as there are, but no
  // more than the limit, or than 500 when the limit is not positive.
  lemma ListMeaning(t: Table, limit: int, now: int) returns (ids: seq<nat>)
    requires Valid(t)
    ensures |ids| == |List(t, limit, now)|
    ensures var live, cap := |LiveRows(t, now)|, if limit > 0 then limit else 500;
            |ids| == if live < cap then live else cap
    ensures forall i :: 0 <= i < |ids| ==>
              && ids[i] in t.rows && Live(t.rows[ids[i]], now)
              && var row := t.rows[ids[i]];
              List(t, limit, now)[i] == PasteMeta(row.slug, |row.body|, row.created, row.expires)
    ensures forall i, j :: 0 <= i < j < |ids| ==> ids[i] > ids[j]
    ensures forall id <- t.rows :: Live(t.rows[id], now) && id !in ids ==> forall i <- ids :: i > id
  {
    LiveCount(t, now);
    LiveIdsMeaning(t.rows, now, t.nextId);
    var all := LiveIds(t.rows, now, t.nextId);
    ids := Take(all, Cap(limit));
    hide LiveIds, LiveRows;
    forall id | id in t.rows && Live(t.rows[id], now) && id !in ids
      ensures forall i <- ids :: i > id
    {
      LeftOut(all, |ids|, id);
    }
  }

  function SumBodies(rows: map<nat, Row>, ids: seq<nat>): nat
    requires forall id <- ids :: id in rows
  {
    if ids == [] then 0 else |rows[ids[0]].body| + SumBodies(rows, ids[1..])
  }

  lemma {:induction false} SizesAreBodies(rows: map<nat, Row>, ids: seq<nat>)
    requires forall id <- ids :: id in rows
    ensures SumSizes(Metas(rows, ids)) == SumBodies(rows, ids)
  {
    if ids != [] {
      SizesAreBodies(rows, ids[1..]);
      assert Metas(rows, ids)[1..] == Metas(rows, ids[1..]);
    }
  }

  lemma {:induction false} StatsByIds(rows: map<nat, Row>, now: int, hi: nat)
    ensures forall id <- LiveIds(rows, now, hi) :: id in rows
    ensures StatsBelow(rows, now, hi) == Stats(|LiveIds(rows, now, hi)|, SumBodies(rows, LiveIds(rows, now, hi)))
  {
    assert forall id <- LiveIds(rows, now, hi) :: id in rows by {
      LiveIdsMeaning(rows, now, hi);
    }
    if hi > 0 {
      StatsByIds(rows, now, hi - 1);
      var ids, rest := LiveIds(rows, now, hi), LiveIds(rows, now, hi - 1);
      if hi - 1 in rows && Live(rows[hi - 1], now) {
        assert ids[0] == hi - 1 && ids[1..] == rest;
      } else {
        assert ids == rest;
      }
    }
  }

  // Stats counts and sizes what an uncapped List shows.
  lemma StatsMatchList(t: Table, limit: int, now: int)
    requires Valid(t) && limit >= StatsOf(t, now).count && limit > 0
    ensures StatsOf(t, now) == Stats(|List(t, limit, now)|, SumSizes(List(t, limit, now)))
  {
    StatsByIds(t.rows, now, t.nextId);
    SizesAreBodies(t.rows, LiveIds(t.rows, now, t.nextId));
  }

  function IdsBelow(rows: map<nat, Row>, hi: nat): set<nat> {
    set id | id in rows && id < hi
  }

  function LiveBelow(rows: map<nat, Row>, now: int, hi: nat): set<nat> {
    set id | id in rows && id < hi && Live(rows[id], now)
  }

  lemma OneMoreId(rows: map<nat, Row>, hi: nat)
    ensures |IdsBelow(rows, hi + 1)| == |IdsBelow(rows, hi)| + if hi in rows then 1 else 0
  {
    if hi in rows {
      assert IdsBelow(rows, hi + 1) == IdsBelow(rows, hi) + {hi};
    } else {
      assert IdsBelow(rows, hi + 1) == IdsBelow(rows, hi);
    }
  }

  lemma OneMoreLive(rows: map<nat, Row>, now: int, hi: nat)
    ensures |LiveBelow(rows, now, hi + 1)|
            == |LiveBelow(rows, now, hi)| + if hi in rows && Live(rows[hi], now) then 1 else 0
  {
    if hi in rows && Live(rows[hi], now) {
      assert LiveBelow(rows, now, hi + 1) == LiveBelow(rows, now, hi) + {hi};
    } else {
      assert LiveBelow(rows, now, hi + 1) == LiveBelow(rows, now, hi);
    }
  }

  lemma {:induction false} RowsBelow(rows: map<nat, Row>, now: int, hi: nat)
    ensures |IdsBelow(rows, hi)| == StatsBelow(rows, now, hi).count + ExpiredBelow(rows, now, hi)
    ensures |LiveBelow(rows, now, hi)| == StatsBelow(rows, now, hi).count
  {
    if hi == 0 {
      assert IdsBelow(rows, hi) == {} && LiveBelow(rows, now, hi) == {};
    } else {
      RowsBelow(rows, now, hi - 1);
      OneMoreId(rows, hi - 1);
      OneMoreLive(rows, now, hi - 1);
    }
  }

  // Bytes held by these rows.
  ghost function BytesOf(rows: map<nat, Row>, ids: set<nat>): nat
    requires ids <= rows.Keys
  {
    if ids == {} then 0
    else
      var id :| id in ids;
      |rows[id].body| + BytesOf(rows, ids - {id})
  }

  lemma {:induction false} BytesOfAdd(rows: map<nat, Row>, ids: set<nat>, id: nat)
    requires ids <= rows.Keys && id in rows && id !in ids
    ensures BytesOf(rows, ids + {id}) == |rows[id].body| + BytesOf(rows, ids)
    decreases |ids|
  {
    var all := ids + {id};
    var k :| k in all && BytesOf(rows, all) == |rows[k].body| + BytesOf(rows, all - {k});
    if k == id {
      assert all - {k} == ids;
    } else {
      BytesOfAdd(rows, ids - {k}, id);
      BytesOfAdd(rows, ids - {k}, k);
      assert all - {k} == (ids - {k}) + {id} && ids == (ids - {k}) + {k};
    }
  }

  lemma {:induction false} StatsAreBytes(rows: map<nat, Row>, now: int, hi: nat)
    ensures StatsBelow(rows, now, hi) == Stats(|LiveBelow(rows, now, hi)|, BytesOf(rows, LiveBelow(rows, now, hi)))
  {
    if hi == 0 {
      assert LiveBelow(rows, now, hi) == {};
    } else {
      StatsAreBytes(rows, now, hi - 1);
      OneMoreLive(rows, now, hi - 1);
      if hi - 1 in rows && Live(rows[hi - 1], now) {
        assert LiveBelow(rows, now, hi) == LiveBelow(rows, now, hi - 1) + {hi - 1};
        BytesOfAdd(rows, LiveBelow(rows, now, hi - 1), hi - 1);
      } else {
        assert LiveBelow(rows, now, hi) == LiveBelow(rows, now, hi - 1);
      }
    }
  }

  function LiveRows(t: Table, now: int): set<nat> {
    set id | id in t.rows && Live(t.rows[id], now)
  }

  // Stats is the number of live rows and the bytes they hold.
  lemma StatsMeaning(t: Table, now: int)
    requires Valid(t)
    ensures StatsOf(t, now) == Stats(|LiveRows(t, now)|, BytesOf(t.rows, LiveRows(t, now)))
  {
    StatsAreBytes(t.rows, now, t.nextId);
    assert LiveRows(t, now) == LiveBelow(t.rows, now, t.nextId);
  }

  // The count PurgeExpired reports is rows before minus rows after, and what is
  // left are precisely the live rows that Stats counted.
  lemma PurgeCounts(t: Table, now: int)
    requires Valid(t)
    ensures ExpiredBelow(t.rows, now, t.nextId) == |t.rows| - |Purge(t, now).rows|
    ensures StatsOf(t, now).count == |Purge(t, now).rows|
  {
    RowsBelow(t.rows, now, t.nextId);
    assert t.rows.Keys == IdsBelow(t.rows, t.nextId);
    assert Purge(t, now).rows.Keys == LiveBelow(t.rows, now, t.nextId);
  }

  lemma {:induction false} QueriesSeeLiveRows(rows: map<nat, Row>, rows': map<nat, Row>, now: int, hi: nat)
    requires forall id :: id in rows && Live(rows[id], now) <==> id in rows' && Live(rows'[id], now)
    requires forall id :: id in rows && Live(rows[id], now) ==> rows[id] == rows'[id]
    ensures LiveIds(rows, now, hi) == LiveIds(rows', now, hi)
    ensures StatsBelow(rows, now, hi) == StatsBelow(rows', now, hi)
  {
    if hi > 0 {
      QueriesSeeLiveRows(rows, rows', now, hi - 1);
    }
  }

  // List and Stats depend on nothing but the live rows.
  lemma QueriesIgnoreExpired(t: Table, u: Table, limit: int, now: int)
    requires Purge(t, now) == Purge(u, now)
    ensures List(t, limit, now) == List(u, limit, now)
    ensures StatsOf(t, now) == StatsOf(u, now)
  {
    assert t.nextId == Purge(t, now).nextId == u.nextId;
    assert forall id :: id in t.rows && Live(t.rows[id], now) <==> id in Purge(t, now).rows;
    assert forall id :: id in u.rows && Live(u.rows[id], now) <==> id in Purge(u, now).rows;
    assert forall id <- Purge(t, now).rows :: t.rows[id] == Purge(t, now).rows[id] == u.rows[id];
    QueriesSeeLiveRows(t.rows, u.rows, now, t.nextId);
    LiveIdsMeaning(t.rows, now, t.nextId);
    var ids := Take(LiveIds(t.rows, now, t.nextId), Cap(limit));
    assert forall i :: 0 <= i < |ids| ==> ids[i] in ids && ids[i] in Purge(t, now).rows;
    assert Metas(t.rows, ids) == Metas(u.rows, ids);
  }

  // Purging twice, the second time later, is purging once, later.
  lemma PurgeIdempotent(t: Table, now: int, later: int)
    requires now <= later
    ensures Purge(Purge(t, now), later) == Purge(t, later)
  {
  }
}
