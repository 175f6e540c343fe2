// The paste endpoints as methods over the store and the limiter, each request
// handled without interruption (internal/handler/handler.go).
module Handlers {
  import opened Text
  import opened Pastes
  import opened Serving
  import opened SqlStores
  import opened RateLimiters
  import L = RateLimits
  import C = ClientAddress

  // A key the generator returns and the clock its probe reads.
  datatype Draw = Draw(key: string, now: int)

  // StillChoosing: the draws given ran out while chooseKey was looping.
  datatype Reply = Accepted(key: string) | Failed(status: nat) | StillChoosing

  // A live row has the drawn key.
  predicate Taken(rows: map<nat, Row>, d: Draw) {
    exists id <- rows :: rows[id].slug == d.key && Live(rows[id], d.now)
  }

  predicate KeyUsed(rows: map<nat, Row>, key: string) {
    exists id <- rows :: rows[id].slug == key
  }

  // The key is the first drawn that is not taken; none, when all are.
  ghost predicate Chosen(rows: map<nat, Row>, draws: seq<Draw>, key: Option<string>) {
    match key
    case None => forall d <- draws :: Taken(rows, d)
    case Some(k) =>
      exists i :: 0 <= i < |draws| && draws[i].key == k && !Taken(rows, draws[i])
                  && forall j :: 0 <= j < i ==> Taken(rows, draws[j])
  }

  lemma SelectTaken(t: Table, d: Draw)
    requires Pastes.Valid(t)
    ensures Select(t, d.key, d.now).Some? <==> Taken(t.rows, d)
  {
    if Taken(t.rows, d) {
      var id :| id in t.rows && t.rows[id].slug == d.key && Live(t.rows[id], d.now);
      SelectMeaning(t, d.key, d.now, id);
    } else if Select(t, d.key, d.now).Some? {
      SelectMeaning(t, d.key, d.now, Select(t, d.key, d.now).value);
    }
  }

  // With nothing in between, the INSERT of a key the probe called free fails
  // exactly when an expired row still has it; there is no second try.
  lemma ChoiceCollides(rows: map<nat, Row>, draws: seq<Draw>, key: string, now: int)
    requires Chosen(rows, draws, Some(key)) && forall d <- draws :: d.now <= now
    ensures KeyUsed(rows, key) <==> exists id <- rows :: rows[id].slug == key && !Live(rows[id], now)
  {
    var i :| 0 <= i < |draws| && draws[i].key == key && !Taken(rows, draws[i]);
    assert draws[i] in draws;
    if KeyUsed(rows, key) {
      var id :| id in rows && rows[id].slug == key;
      assert !Live(rows[id], draws[i].now);
    }
  }

  // The bytes already charged to the client's window at this time.
  function Charged(v: L.Windows, client: string, stamp: int): int {
    if L.NeedsWindow(v, client, stamp) then 0 else v[client].bytes
  }

  predicate Fits(p: L.Params, v: L.Windows, client: string, n: nat, stamp: int) {
    p.maxBytes > 0 && p.window > 0 ==> Charged(v, client, stamp) + n <= p.maxBytes
  }

  // The windows after a charge was granted: the client's holds n bytes more, and
  // every other window left is as it was.
  ghost predicate ChargeMade(p: L.Params, v: L.Windows, v': L.Windows, client: string, n: nat, stamp: int) {
    if p.maxBytes > 0 && p.window > 0 then
      && client in v' && v'[client].bytes == Charged(v, client, stamp) + n
      && forall other <- v' :: other != client ==> other in v && v'[other] == v[other]
    else v' == v
  }

  lemma ChargeMeaning(p: L.Params, v: L.Windows, client: string, n: nat, stamp: int)
    ensures var (v', ok) := L.Serve(p, v, L.Charge(client, n, stamp), true);
            && (ok <==> Fits(p, v, client, n, stamp))
            && (ok ==> ChargeMade(p, v, v', client, n, stamp))
  {
    if L.Active(p, L.Bytes) {
      forall other | other != client
        ensures var r := L.Roll(p, v, client, stamp, true);
                other in r ==> other in v && r[other] == v[other]
      {
        L.RollKeeps(p, v, client, stamp, other, true);
      }
      L.RollKeeps(p, v, client, stamp, client, true);
    }
  }

  class Handler {
    const cfg: Setup
    const store: SqlStore
    const limiter: RateLimiter

    constructor (cfg: Setup)
      ensures Valid() && this.cfg == cfg && fresh(store) && fresh(limiter)
      ensures store.Contents() == EMPTY && limiter.View() == map[]
    {
      this.cfg := cfg;
      this.store := new SqlStore(cfg.store);
      this.limiter := new RateLimiter(cfg.limits);
    }

    ghost predicate Valid()
      reads this, store, limiter, limiter.windows.Values
    {
      store.Valid() && limiter.Valid() && store.cfg == cfg.store && limiter.p == cfg.limits
    }

    function Deadline(now: int): Option<int> {
      if cfg.store.expire > 0 then Some(now + cfg.store.expire) else None
    }

    // The loop ends at the first drawn key that no live row has, and no probe
    // changes the table.
    method ChooseKey(draws: seq<Draw>) returns (key: Option<string>)
      requires store.Valid()
      modifies store
      ensures store.Contents() == old(store.Contents())
      ensures Chosen(store.rows, draws, key)
    {
      ghost var t := store.Contents();
      var i := 0;
      while i < |draws|
        invariant i <= |draws|
        invariant store.Contents() == t == old(store.Contents())
        invariant forall j :: 0 <= j < i ==> Taken(t.rows, draws[j])
      {
        SelectTaken(t, draws[i]);
        var data := store.Get(draws[i].key, false, draws[i].now);
        if data.None? {
          return Some(draws[i].key);
        }
        i := i + 1;
      }
      return None;
    }

    // chooseKey, then Set under the key it settled on: 500 exactly when some row
    // has that key.
    method StoreUnderFreeKey(data: Body, draws: seq<Draw>, now: int) returns (reply: Reply)
      requires store.Valid() && store.cfg == cfg.store
      modifies store
      ensures store.Valid()
      ensures reply == StillChoosing <==> Chosen(old(store.rows), draws, None)
      ensures reply == Failed(500) <==>
              exists key :: Chosen(old(store.rows), draws, Some(key)) && KeyUsed(old(store.rows), key)
      ensures reply.Failed? ==> reply.status == 500
      ensures reply.Accepted? ==>
                && Chosen(old(store.rows), draws, Some(reply.key)) && !KeyUsed(old(store.rows), reply.key)
                && old(store.nextId) !in old(store.rows)
                && store.rows == old(store.rows)[old(store.nextId) := Row(reply.key, data, now, Deadline(now))]
      ensures !reply.Accepted? ==> store.rows == old(store.rows)
    {
      ghost var rows := store.rows;
      var key := ChooseKey(draws);
      forall other | Chosen(rows, draws, other)
        ensures other == key
      {
      }
      if key.None? {
        return StillChoosing;
      }
      var stored := store.Set(key.value, data, now);
      reply := if stored then Accepted(key.value) else Failed(500);
    }

    // The byte budget: refused exactly when the body does not fit the rest of it.
    method ChargeFor(client: string, data: Body, stamp: int) returns (ok: bool)
      requires Valid()
      modifies limiter, limiter.windows.Values
      ensures limiter.Valid()
      ensures ok <==> Fits(cfg.limits, old(limiter.View()), client, |data|, stamp)
      ensures ok ==> ChargeMade(cfg.limits, old(limiter.View()), limiter.View(), client, |data|, stamp)
    {
      ChargeMeaning(cfg.limits, limiter.View(), client, |data|, stamp);
      ok := limiter.ChargeBytes(client, |data|, stamp);
    }

    // Refusals leave the table as it was; a paste accepted has been charged in full
    // and is the one row added, under a key no row had. A request that fails later
    // than the byte budget has been charged all the same.
    method HandlePost(client: string, trusted: bool, raw: Body, stamp: int, draws: seq<Draw>, now: int)
        returns (reply: Reply)
      requires Valid()
      modifies store, limiter, limiter.windows.Values
      ensures Valid()
      ensures reply == Failed(403) <==> !trusted
      ensures reply == Failed(400) <==> trusted && !Acceptable(ReadBody(raw, cfg.maxLength), cfg.maxLength)
      ensures reply == Failed(429) <==>
              && trusted && Acceptable(ReadBody(raw, cfg.maxLength), cfg.maxLength)
              && !Fits(cfg.limits, old(limiter.View()), client, |ReadBody(raw, cfg.maxLength)|, stamp)
      ensures reply == Failed(500) <==>
              && trusted && Acceptable(ReadBody(raw, cfg.maxLength), cfg.maxLength)
              && Fits(cfg.limits, old(limiter.View()), client, |ReadBody(raw, cfg.maxLength)|, stamp)
              && exists key :: Chosen(old(store.rows), draws, Some(key)) && KeyUsed(old(store.rows), key)
      ensures reply == StillChoosing ==> Chosen(old(store.rows), draws, None)
      ensures reply == Failed(403) || reply == Failed(400) ==> limiter.View() == old(limiter.View())
      ensures reply.Accepted? ==>
                && Chosen(old(store.rows), draws, Some(reply.key)) && !KeyUsed(old(store.rows), reply.key)
                && old(store.nextId) !in old(store.rows)
                && store.rows == old(store.rows)[old(store.nextId) :=
                     Row(reply.key, ReadBody(raw, cfg.maxLength), now, Deadline(now))]
      ensures reply.Accepted? || reply == Failed(500) || reply == StillChoosing ==>
                ChargeMade(cfg.limits, old(limiter.View()), limiter.View(), client,
                           |ReadBody(raw, cfg.maxLength)|, stamp)
      ensures reply.Failed? ==> reply.status in {400, 403, 429, 500}
      ensures !reply.Accepted? ==> store.rows == old(store.rows)
    {
      if !trusted {
        return Failed(403);
      }
      var data := ReadBody(raw, cfg.maxLength);
      if !Acceptable(data, cfg.maxLength) {
        return Failed(400);
      }
      var ok := ChargeFor(client, data, stamp);
      if !ok {
        return Failed(429);
      }
      reply := StoreUnderFreeKey(data, draws, now);
    }

    // The body of the live row with the id's key, the extension left out; only that
    // row's deadline may move, and not for a static key.
    method HandleGet(id: string, now: int) returns (data: Option<Body>)
      requires Valid()
      modifies store
      ensures Valid() && store.nextId == old(store.nextId)
      ensures data.Some? <==> Taken(old(store.rows), Draw(C.KeyParam(id), now))
      ensures data.None? || C.KeyParam(id) in cfg.staticKeys ==> store.rows == old(store.rows)
      ensures data.Some? ==> exists k <- old(store.rows) ::
                  var row := old(store.rows)[k];
                  && row.slug == C.KeyParam(id) && Live(row, now) && data == Some(row.body)
                  && (row.expires.None? || cfg.store.expire <= 0 || row.slug in cfg.staticKeys
                      ==> store.rows == old(store.rows))
                  && (row.expires.Some? && cfg.store.expire > 0 && row.slug !in cfg.staticKeys ==>
                        store.rows == old(store.rows)[k := row.(expires := Deadline(now))])
    {
      var key := C.KeyParam(id);
      data := store.Get(key, key !in cfg.staticKeys, now);
    }

    // What was accepted is what is read back under its id and any display
    // extension, until it expires.
    method PostThenRead(client: string, raw: Body, stamp: int, draws: seq<Draw>, now: int, ext: string, later: int)
        returns (reply: Reply, data: Option<Body>)
      requires Valid() && now <= later
      requires cfg.maxLength > 0 && (cfg.store.expire <= 0 || later < now + cfg.store.expire)
      requires forall d <- draws :: '.' !in d.key
      modifies store, limiter, limiter.windows.Values
      ensures Valid()
      ensures reply.Accepted? ==> data == Some(raw)
    {
      reply := HandlePost(client, true, raw, stamp, draws, now);
      data := None;
      if reply.Accepted? {
        C.ExtensionIgnored(reply.key, ext);
        ghost var row := store.rows[old(store.nextId)];
        assert row.slug == reply.key && Live(row, later);
        data := HandleGet(reply.key + "." + ext, later);
      }
    }
  }
}
