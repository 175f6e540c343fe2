// The limiter bounds what the store can be made to hold: bytes inserted by POSTs
// are covered by byte charges, and charges by the interval bound.
module StorageGrowth {
  import opened Pastes
  import opened Serving
  import opened Interleavings
  import opened Guarantees
  import L = RateLimits

  // Bytes a request has been charged for and may still insert.
  function Weight(r: Request, ip: string, lo: int, hi: int): nat {
    match r.phase
    case Choosing(body, stamp) => WeightOf(r.client, body, stamp, {ip}, lo, hi)
    case Probing(body, stamp, _, _) => WeightOf(r.client, body, stamp, {ip}, lo, hi)
    case Storing(body, stamp, _) => WeightOf(r.client, body, stamp, {ip}, lo, hi)
    case Inserting(body, stamp, _, _) => WeightOf(r.client, body, stamp, {ip}, lo, hi)
    case _ => 0
  }

  function WeightOf(client: string, body: Body, stamp: int, clients: set<string>, lo: int, hi: int): nat {
    if client in clients && lo <= stamp <= hi then |body| else 0
  }

  function Carried(requests: seq<Request>, ip: string, lo: int, hi: int): nat {
    if requests == [] then 0
    else Carried(requests[..|requests| - 1], ip, lo, hi) + Weight(requests[|requests| - 1], ip, lo, hi)
  }

  // Bytes inserted, over the INSERT events of the log, by POSTs of these clients
  // that were charged in [lo, hi].
  function InsertedBytes(log: seq<Event>, clients: set<string>, lo: int, hi: int): nat {
    if log == [] then 0
    else InsertedBytes(log[..|log| - 1], clients, lo, hi) + Added(log[|log| - 1], clients, lo, hi)
  }

  function Added(e: Event, clients: set<string>, lo: int, hi: int): nat {
    match e
    case Inserted(Poster(_, client, stamp), _, _, body, _, _, _) => WeightOf(client, body, stamp, clients, lo, hi)
    case _ => 0
  }

  function GrantedBytes(log: seq<Event>, ip: string, lo: int, hi: int): nat {
    L.Granted(Calls(log), Oks(log), L.Bytes, ip, lo, hi)
  }

  // What one event grants.
  function Grant(e: Event, ip: string, lo: int, hi: int): nat {
    match e
    case Limited(Charge(client, n, stamp), true) => if client == ip && lo <= stamp <= hi then n else 0
    case _ => 0
  }

  lemma InsertedSnoc(log: seq<Event>, e: Event, clients: set<string>, lo: int, hi: int)
    ensures InsertedBytes(log + [e], clients, lo, hi) == InsertedBytes(log, clients, lo, hi) + Added(e, clients, lo, hi)
  {
    assert (log + [e])[..|log|] == log;
  }

  lemma GrantedSnoc(log: seq<Event>, e: Event, ip: string, lo: int, hi: int)
    ensures GrantedBytes(log + [e], ip, lo, hi) == GrantedBytes(log, ip, lo, hi) + Grant(e, ip, lo, hi)
  {
    CallsSnoc(log, e);
    if e.Limited? {
      L.GrantedAppend(Calls(log), Oks(log), [e.call], [e.ok], L.Bytes, ip, lo, hi);
      assert L.Granted([e.call][1..], [e.ok][1..], L.Bytes, ip, lo, hi) == 0;
    }
  }

  lemma {:induction false} CarriedUpdate(requests: seq<Request>, i: nat, r: Request, ip: string, lo: int, hi: int)
    requires i < |requests|
    ensures Carried(requests[i := r], ip, lo, hi) + Weight(requests[i], ip, lo, hi)
            == Carried(requests, ip, lo, hi) + Weight(r, ip, lo, hi)
    decreases |requests|
  {
    var n := |requests| - 1;
    if i == n {
      assert requests[i := r][..n] == requests[..n];
    } else {
      assert requests[i := r][..n] == requests[..n][i := r];
      CarriedUpdate(requests[..n], i, r, ip, lo, hi);
    }
  }

  // What a step lets a request carry or inserts for it, it carried before or is
  // granted now.
  lemma ActIsPaid(cfg: Setup, s: State, i: nat, pick: string, ip: string, lo: int, hi: int)
    requires i < |s.requests| && L.Active(cfg.limits, L.Bytes)
    ensures |Act(cfg, s, i, pick).events| <= 1
    ensures var r, e := s.requests[i], Act(cfg, s, i, pick);
            if e.events == [] then Weight(r.(phase := e.phase), ip, lo, hi) <= Weight(r, ip, lo, hi)
            else Weight(r.(phase := e.phase), ip, lo, hi) + Added(e.events[0], {ip}, lo, hi)
                 <= Weight(r, ip, lo, hi) + Grant(e.events[0], ip, lo, hi)
  {
  }

  ghost predicate Paid(s: State, ip: string, lo: int, hi: int) {
    InsertedBytes(s.log, {ip}, lo, hi) + Carried(s.requests, ip, lo, hi) <= GrantedBytes(s.log, ip, lo, hi)
  }

  lemma NextIsPaid(cfg: Setup, s: State, a: Action, ip: string, lo: int, hi: int)
    requires L.Active(cfg.limits, L.Bytes) && Paid(s, ip, lo, hi)
    ensures Paid(Next(cfg, s, a), ip, lo, hi)
  {
    match a {
      case Tick(_, _) =>
      case Arrive(client, ask) =>
        var r := Request(client, ask, AtGate);
        assert (s.requests + [r])[..|s.requests|] == s.requests;
      case Advance(i, pick) =>
        if i < |s.requests| {
          var e := Act(cfg, s, i, pick);
          ActIsPaid(cfg, s, i, pick, ip, lo, hi);
          CarriedUpdate(s.requests, i, s.requests[i].(phase := e.phase), ip, lo, hi);
          if e.events == [] {
            assert s.log + [] == s.log;
          } else {
            assert e.events == [e.events[0]];
            GrantedSnoc(s.log, e.events[0], ip, lo, hi);
            InsertedSnoc(s.log, e.events[0], {ip}, lo, hi);
          }
        }
    }
  }

  lemma {:induction false} RunIsPaid(cfg: Setup, s: State, actions: seq<Action>, ip: string, lo: int, hi: int)
    requires L.Active(cfg.limits, L.Bytes) && Paid(s, ip, lo, hi)
    ensures Paid(Run(cfg, s, actions), ip, lo, hi)
    decreases |actions|
  {
    if actions != [] {
      NextIsPaid(cfg, s, actions[0], ip, lo, hi);
      RunIsPaid(cfg, Next(cfg, s, actions[0]), actions[1..], ip, lo, hi);
    }
  }

  lemma StartIsPaid(x: Execution, ip: string, lo: int, hi: int)
    ensures Paid(Begin(x), ip, lo, hi)
  {
    NonePosted(Begin(x).log, {ip}, lo, hi);
  }

  lemma {:induction false} NonePosted(log: seq<Event>, clients: set<string>, lo: int, hi: int)
    requires forall e <- log :: e.Inserted? ==> e.author == Preload
    ensures InsertedBytes(log, clients, lo, hi) == 0
    decreases |log|
  {
    if log != [] {
      NonePosted(log[..|log| - 1], clients, lo, hi);
      assert log[|log| - 1] in log;
    }
  }

  lemma {:induction false} InsertedSplits(log: seq<Event>, clients: set<string>, ip: string, lo: int, hi: int)
    requires ip in clients
    ensures InsertedBytes(log, clients, lo, hi)
            == InsertedBytes(log, clients - {ip}, lo, hi) + InsertedBytes(log, {ip}, lo, hi)
    decreases |log|
  {
    if log != [] {
      InsertedSplits(log[..|log| - 1], clients, ip, lo, hi);
    }
  }

  lemma {:induction false} NoClients(log: seq<Event>, lo: int, hi: int)
    ensures InsertedBytes(log, {}, lo, hi) == 0
    decreases |log|
  {
    if log != [] {
      NoClients(log[..|log| - 1], lo, hi);
    }
  }

  // One client: every INSERT was preceded by a successful charge of its size, and
  // the charges obey the limiter's interval bound.
  lemma GrowthPerClient(x: Execution, ip: string, lo: int, hi: int)
    requires x.cfg.limits.maxBytes > 0 && x.cfg.limits.window > 0 && lo <= hi && L.Nondecreasing(Calls(Final(x).log))
    ensures InsertedBytes(Final(x).log, {ip}, lo, hi)
            <= x.cfg.limits.maxBytes * L.Factor(hi - lo, x.cfg.limits.window)
  {
    FinalInv(x);
    StartIsPaid(x, ip, lo, hi);
    RunIsPaid(x.cfg, Begin(x), x.actions, ip, lo, hi);
    L.GrantedFrom(x.cfg.limits, map[], Calls(Final(x).log), true, L.Bytes, ip, lo, hi);
  }

  // Any set of clients, with limiter timestamps in the order of its lock.
  lemma {:induction false} GrowthBound(x: Execution, clients: set<string>, lo: int, hi: int)
    requires x.cfg.limits.maxBytes > 0 && x.cfg.limits.window > 0 && lo <= hi && L.Nondecreasing(Calls(Final(x).log))
    ensures InsertedBytes(Final(x).log, clients, lo, hi)
            <= |clients| * (x.cfg.limits.maxBytes * L.Factor(hi - lo, x.cfg.limits.window))
    decreases |clients|
  {
    var bound := x.cfg.limits.maxBytes * L.Factor(hi - lo, x.cfg.limits.window);
    if clients == {} {
      NoClients(Final(x).log, lo, hi);
    } else {
      var ip :| ip in clients;
      InsertedSplits(Final(x).log, clients, ip, lo, hi);
      GrowthPerClient(x, ip, lo, hi);
      GrowthBound(x, clients - {ip}, lo, hi);
      assert (|clients| - 1) * bound + bound == |clients| * bound;
    }
  }

  // ---------------------------------------------------------------------------
  // What the table holds

  // All bytes ever in the table: found in it, or inserted.
  ghost function EverHeld(log: seq<Event>): nat {
    if log == [] then 0 else EverHeld(log[..|log| - 1]) + Brought(log[|log| - 1])
  }

  ghost function Brought(e: Event): nat {
    match e
    case Opened(rows) => BytesOf(rows, rows.Keys)
    case Inserted(_, _, _, body, _, _, _) => |body|
    case _ => 0
  }

  lemma EverSnoc(log: seq<Event>, e: Event)
    ensures EverHeld(log + [e]) == EverHeld(log) + Brought(e)
  {
    assert (log + [e])[..|log|] == log;
  }

  lemma {:induction false} BytesOfSame(rows: map<nat, Row>, rows': map<nat, Row>, ids: set<nat>)
    requires ids <= rows.Keys && ids <= rows'.Keys && forall id <- ids :: rows[id].body == rows'[id].body
    ensures BytesOf(rows, ids) == BytesOf(rows', ids)
    decreases |ids|
  {
    if ids != {} {
      var id :| id in ids;
      BytesOfSame(rows, rows', ids - {id});
      BytesOfAdd(rows, ids - {id}, id);
      BytesOfAdd(rows', ids - {id}, id);
      assert ids == (ids - {id}) + {id};
    }
  }

  lemma {:induction false} BytesOfSubset(rows: map<nat, Row>, some: set<nat>, all: set<nat>)
    requires some <= all <= rows.Keys
    ensures BytesOf(rows, some) <= BytesOf(rows, all)
    decreases |all|
  {
    if !(all <= some) {
      var id :| id in all && id !in some;
      BytesOfSubset(rows, some, all - {id});
      BytesOfAdd(rows, all - {id}, id);
      assert all == (all - {id}) + {id};
    } else {
      assert some == all;
    }
  }

  lemma NewRowBytes(t: Table, row: Row, t': Table)
    requires Valid(t) && t'.rows == t.rows[t.nextId := row]
    ensures BytesOf(t'.rows, t'.rows.Keys) == BytesOf(t.rows, t.rows.Keys) + |row.body|
  {
    assert t.nextId !in t.rows;
    assert t'.rows.Keys == t.rows.Keys + {t.nextId};
    BytesOfAdd(t'.rows, t.rows.Keys, t.nextId);
    BytesOfSame(t.rows, t'.rows, t.rows.Keys);
  }

  lemma FewerRowsBytes(t: Table, t': Table)
    requires t'.rows.Keys <= t.rows.Keys && forall id <- t'.rows :: t'.rows[id].body == t.rows[id].body
    ensures BytesOf(t'.rows, t'.rows.Keys) <= BytesOf(t.rows, t.rows.Keys)
  {
    BytesOfSame(t.rows, t'.rows, t'.rows.Keys);
    BytesOfSubset(t.rows, t'.rows.Keys, t.rows.Keys);
  }

  lemma StatementBytes(cfg: Setup, s: State, i: nat, e: Effect)
    requires Valid(s.table) && i < |s.requests| && OneStatement(cfg, s, i, e)
    ensures BytesOf(e.table.rows, e.table.rows.Keys)
            <= BytesOf(s.table.rows, s.table.rows.Keys) + if e.events != [] then Brought(e.events[0]) else 0
  {
    if e.events != [] && e.events[0].Inserted? {
      var event := e.events[0];
      assert Insert(cfg.store, s.table, event.key, event.body, event.now) == (e.table, true);
      NewRowBytes(s.table, Row(event.key, event.body, event.now, NewDeadline(cfg, event.now)), e.table);
    } else {
      FewerRowsBytes(s.table, e.table);
    }
  }

  ghost predicate HeldWasInserted(s: State) {
    BytesOf(s.table.rows, s.table.rows.Keys) <= EverHeld(s.log)
  }

  lemma NextHeld(cfg: Setup, s: State, a: Action)
    requires Inv(cfg, s) && HeldWasInserted(s)
    ensures HeldWasInserted(Next(cfg, s, a))
  {
    if a.Advance? && a.i < |s.requests| {
      var e := Act(cfg, s, a.i, a.pick);
      ActIsOneStatement(cfg, s, a.i, a.pick);
      StatementBytes(cfg, s, a.i, e);
      if e.events == [] {
        assert s.log + [] == s.log;
      } else {
        assert e.events == [e.events[0]];
        EverSnoc(s.log, e.events[0]);
      }
    }
  }

  lemma {:induction false} RunHeld(cfg: Setup, s: State, actions: seq<Action>)
    requires Inv(cfg, s) && HeldWasInserted(s)
    ensures HeldWasInserted(Run(cfg, s, actions))
    decreases |actions|
  {
    if actions != [] {
      NextHeld(cfg, s, actions[0]);
      NextKeepsInv(cfg, s, actions[0]);
      RunHeld(cfg, Next(cfg, s, actions[0]), actions[1..]);
    }
  }

  lemma StartHeld(x: Execution)
    ensures HeldWasInserted(Begin(x))
    ensures EverHeld(Begin(x).log) <= BytesOf(x.found.rows, x.found.rows.Keys) + |x.document|
  {
    var log := Begin(x).log;
    assert log[..1] == [] + [log[0]];
    EverSnoc([], log[0]);
    if |log| == 2 {
      assert log == log[..1] + [log[1]];
      EverSnoc(log[..1], log[1]);
      NewRowBytes(x.found, Row(x.key, x.document, x.seconds, NewDeadline(x.cfg, x.seconds)), Begin(x).table);
    } else {
      assert log == log[..1];
    }
  }

  // ---------------------------------------------------------------------------
  // Every INSERT was charged for

  predicate IsCharge(e: Event, client: string, n: nat, stamp: int) {
    e == Limited(L.Charge(client, n, stamp), true)
  }

  ghost predicate WasCharged(log: seq<Event>, client: string, n: nat, stamp: int) {
    exists p :: 0 <= p < |log| && IsCharge(log[p], client, n, stamp)
  }

  ghost predicate RequestCharged(log: seq<Event>, r: Request) {
    match r.phase
    case Choosing(body, stamp) => WasCharged(log, r.client, |body|, stamp)
    case Probing(body, stamp, _, _) => WasCharged(log, r.client, |body|, stamp)
    case Storing(body, stamp, _) => WasCharged(log, r.client, |body|, stamp)
    case Inserting(body, stamp, _, _) => WasCharged(log, r.client, |body|, stamp)
    case _ => true
  }

  ghost predicate InsertCharged(log: seq<Event>, e: Event) {
    e.Inserted? && e.author.Poster? ==> WasCharged(log, e.author.client, |e.body|, e.author.stamp)
  }

  ghost predicate AllCharged(s: State) {
    && (forall i :: 0 <= i < |s.requests| ==> RequestCharged(s.log, s.requests[i]))
    && (forall p :: 0 <= p < |s.log| ==> InsertCharged(s.log[..p], s.log[p]))
  }

  lemma ChargeStays(log: seq<Event>, events: seq<Event>)
    ensures forall client, n, stamp :: WasCharged(log, client, n, stamp) ==> WasCharged(log + events, client, n, stamp)
  {
    assert forall p :: 0 <= p < |log| ==> (log + events)[p] == log[p];
  }

  lemma ActCharges(cfg: Setup, s: State, i: nat, pick: string)
    requires i < |s.requests| && L.Active(cfg.limits, L.Bytes) && RequestCharged(s.log, s.requests[i])
    ensures var e := Act(cfg, s, i, pick);
            && RequestCharged(s.log + e.events, s.requests[i].(phase := e.phase))
            && |e.events| <= 1
            && (e.events != [] ==> InsertCharged(s.log, e.events[0]))
  {
    var e := Act(cfg, s, i, pick);
    ChargeStays(s.log, e.events);
    if s.requests[i].phase.Charging? {
      assert (s.log + e.events)[|s.log|] == e.events[0];
    }
  }

  lemma NextCharges(cfg: Setup, s: State, a: Action)
    requires L.Active(cfg.limits, L.Bytes) && AllCharged(s)
    ensures AllCharged(Next(cfg, s, a))
  {
    if a.Advance? && a.i < |s.requests| {
      var e := Act(cfg, s, a.i, a.pick);
      ActCharges(cfg, s, a.i, a.pick);
      ChargeStays(s.log, e.events);
      var log := s.log + e.events;
      forall p | 0 <= p < |log|
        ensures InsertCharged(log[..p], log[p])
      {
        assert log[..p] == if p < |s.log| then s.log[..p] else s.log;
      }
    }
  }

  lemma {:induction false} RunCharges(cfg: Setup, s: State, actions: seq<Action>)
    requires L.Active(cfg.limits, L.Bytes) && AllCharged(s)
    ensures AllCharged(Run(cfg, s, actions))
    decreases |actions|
  {
    if actions != [] {
      NextCharges(cfg, s, actions[0]);
      RunCharges(cfg, Next(cfg, s, actions[0]), actions[1..]);
    }
  }

  // An INSERT by a request comes after a charge of exactly its size, granted to its
  // client at the request's limiter time.
  lemma InsertWasCharged(x: Execution, q: nat) returns (p: nat)
    requires x.cfg.limits.maxBytes > 0 && x.cfg.limits.window > 0
    requires q < |Final(x).log| && Final(x).log[q].Inserted? && Final(x).log[q].author.Poster?
    ensures var log := Final(x).log;
            p < q && IsCharge(log[p], log[q].author.client, |log[q].body|, log[q].author.stamp)
  {
    RunCharges(x.cfg, Begin(x), x.actions);
    var log := Final(x).log;
    assert InsertCharged(log[..q], log[q]);
    p :| 0 <= p < q && IsCharge(log[..q][p], log[q].author.client, |log[q].body|, log[q].author.stamp);
  }

  // ---------------------------------------------------------------------------
  // The bound on the store

  // The charges granted all fall to these clients, within [lo, hi].
  predicate ChargesWithin(log: seq<Event>, clients: set<string>, lo: int, hi: int) {
    forall p :: 0 <= p < |log| && log[p].Limited? && log[p].ok && log[p].call.Charge? ==>
      log[p].call.ip in clients && lo <= log[p].call.now <= hi
  }

  predicate InsertWithin(e: Event, clients: set<string>, lo: int, hi: int) {
    e.Inserted? && e.author.Poster? ==> e.author.client in clients && lo <= e.author.stamp <= hi
  }

  lemma {:induction false} EverIsInserted(log: seq<Event>, start: seq<Event>, clients: set<string>, lo: int, hi: int)
    requires Continues(log, start) && forall e <- log :: InsertWithin(e, clients, lo, hi)
    ensures EverHeld(log) <= EverHeld(start) + InsertedBytes(log, clients, lo, hi)
    decreases |log|
  {
    var n := |log| - 1;
    if |log| == |start| {
      assert log == start;
    } else {
      assert Continues(log[..n], start);
      EverIsInserted(log[..n], start, clients, lo, hi);
      assert InsertWithin(log[n], clients, lo, hi);
    }
  }

  // Over a run whose charges all fall to these clients and into an interval of
  // length L, the table never holds more than what was found in it, the preloaded
  // document and, for each client, what the limiter grants over such an interval.
  lemma StoreBound(x: Execution, clients: set<string>, lo: int, hi: int)
    requires x.cfg.limits.maxBytes > 0 && x.cfg.limits.window > 0 && lo <= hi && L.Nondecreasing(Calls(Final(x).log))
    requires ChargesWithin(Final(x).log, clients, lo, hi)
    ensures BytesOf(Final(x).table.rows, Final(x).table.rows.Keys)
            <= BytesOf(x.found.rows, x.found.rows.Keys) + |x.document|
               + |clients| * (x.cfg.limits.maxBytes * L.Factor(hi - lo, x.cfg.limits.window))
  {
    var log := Final(x).log;
    FinalContinues(x);
    forall e | e in log
      ensures InsertWithin(e, clients, lo, hi)
    {
      var q :| 0 <= q < |log| && log[q] == e;
      if e.Inserted? && e.author.Poster? {
        var p := InsertWasCharged(x, q);
      }
    }
    EverIsInserted(log, Begin(x).log, clients, lo, hi);
    GrowthBound(x, clients, lo, hi);
    StartHeld(x);
    StartInv(x.cfg, x.found, x.key, x.document, x.seconds, x.millis);
    RunHeld(x.cfg, Begin(x), x.actions);
  }
}
