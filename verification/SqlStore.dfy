// The sqlite and postgres stores as one object over the table, its methods
// uninterrupted. Interleaved statements are the subject of Serving.dfy.
module SqlStores {
  import opened Text
  import opened Pastes

  class SqlStore {
    const cfg: Config
    var rows: map<nat, Row>
    var nextId: nat

    constructor (cfg: Config)
      ensures Contents() == EMPTY && this.cfg == cfg
      ensures Pastes.Valid(Contents())
    {
      this.cfg := cfg;
      this.rows, this.nextId := map[], 1;
    }

    function Contents(): Table
      reads this
    {
      Table(rows, nextId)
    }

    ghost predicate Valid()
      reads this
    {
      Pastes.Valid(Contents())
    }

    // A found Get returns the body of the live row with the key, and slides that
    // row's deadline when asked to; nothing else in the table changes.
    method Get(key: string, bumpExpiry: bool, now: int) returns (data: Option<Body>)
      requires Valid()
      modifies this
      ensures Valid() && nextId == old(nextId)
      ensures data.None? <==> forall id <- old(rows) :: old(rows)[id].slug == key ==> !Live(old(rows)[id], now)
      ensures data.None? ==> rows == old(rows)
      ensures data.Some? ==> exists id <- old(rows) ::
                  && old(rows)[id].slug == key && Live(old(rows)[id], now) && data.value == old(rows)[id].body
                  && rows == if bumpExpiry && cfg.expire > 0 && old(rows)[id].expires.Some?
                             then old(rows)[id := old(rows)[id].(expires := Some(now + cfg.expire))]
                             else old(rows)
      ensures (Contents(), data) == Pastes.Get(cfg, old(Contents()), key, bumpExpiry, now)
    {
      match Select(Contents(), key, now) {
        case None =>
          return None;
        case Some(id) =>
          var row := rows[id];
          if bumpExpiry && cfg.expire > 0 && row.expires.Some? {
            var t := Bump(Contents(), id, now + cfg.expire);
            rows := t.rows;
          }
          return Some(row.body);
      }
    }

    // False is ErrKeyExists: some row, live or expired, has the key.
    method Set(key: string, data: Body, now: int) returns (ok: bool)
      requires Valid()
      modifies this
      ensures Valid()
      ensures ok <==> forall id <- old(rows) :: old(rows)[id].slug != key
      ensures !ok ==> rows == old(rows) && nextId >= old(nextId)
      ensures ok ==>
                && nextId == old(nextId) + 1
                && rows == old(rows)[old(nextId) := Row(key, data, now,
                                                        if cfg.expire > 0 then Some(now + cfg.expire) else None)]
      ensures (Contents(), ok) == Insert(cfg, old(Contents()), key, data, now)
    {
      var t;
      t, ok := Insert(cfg, Contents(), key, data, now).0, Insert(cfg, Contents(), key, data, now).1;
      rows, nextId := t.rows, t.nextId;
    }

    // One entry is appended per row the query yields, newest first.
    method List(limit: int, now: int) returns (out: seq<PasteMeta>)
      requires Valid()
      ensures out == Pastes.List(Contents(), limit, now)
      ensures var live, cap := |LiveRows(Contents(), now)|, if limit > 0 then limit else 500;
              |out| == if live < cap then live else cap
    {
      LiveIdsMeaning(rows, now, nextId);
      hide LiveIds, LiveRows, BytesOf;
      ListLength(Contents(), limit, now);
      var ids := Take(LiveIds(rows, now, nextId), Cap(limit));
      out := [];
      for i := 0 to |ids|
        invariant |out| == i
        invariant forall k :: 0 <= k < i ==> out[k] == Meta(rows[ids[k]])
      {
        assert ids[i] in ids;
        out := out + [Meta(rows[ids[i]])];
      }
    }

    method Delete(key: string) returns (found: bool)
      requires Valid()
      modifies this
      ensures Valid() && nextId == old(nextId)
      ensures found <==> exists id <- old(rows) :: old(rows)[id].slug == key
      ensures rows == map id | id in old(rows) && old(rows)[id].slug != key :: old(rows)[id]
      ensures Contents() == DeleteSlug(old(Contents()), key)
    {
      found := Find(rows, key, nextId).Some?;
      var t := DeleteSlug(Contents(), key);
      rows := t.rows;
    }

    // The number of live rows and the bytes they hold.
    method Statistics(now: int) returns (st: Stats)
      requires Valid()
      ensures st.count == |LiveRows(Contents(), now)|
      ensures st.bytes == BytesOf(rows, LiveRows(Contents(), now))
    {
      StatsMeaning(Contents(), now);
      st := StatsOf(Contents(), now);
    }

    method PurgeExpired(now: int) returns (n: nat)
      requires Valid()
      modifies this
      ensures Valid() && nextId == old(nextId)
      ensures rows == map id | id in old(rows) && Live(old(rows)[id], now) :: old(rows)[id]
      ensures n == |old(rows)| - |rows|
      ensures Contents() == Purge(old(Contents()), now)
    {
      PurgeCounts(Contents(), now);
      n := ExpiredBelow(rows, now, nextId);
      var t := Purge(Contents(), now);
      rows := t.rows;
    }
  }
}
