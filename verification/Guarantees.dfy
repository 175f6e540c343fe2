// What clients can rely on in every execution of the server, however its requests
// interleave and whatever the database held when it started.
module Guarantees {
  import opened Text
  import opened Pastes
  import opened Serving
  import opened Bodies
  import opened Interleavings

  // A start of the server on a database and everything that happened since.
  datatype Launch = Launch(
    cfg: Setup, found: Table, key: string, document: Body, seconds: int, millis: int, actions: seq<Action>)

  type Execution = x: Launch | Valid(x.found)
    witness Launch(Setup(Config(0, SQLite), L.Params(0, 0, 0), 0, {}), EMPTY, "", [], 0, 0, [])

  function Begin(x: Execution): State {
    Start(x.cfg, x.found, x.key, x.document, x.seconds, x.millis)
  }

  function Final(x: Execution): State {
    Run(x.cfg, Begin(x), x.actions)
  }

  function Then(x: Execution, a: Action): Execution {
    x.(actions := x.actions + [a])
  }

  lemma FinalInv(x: Execution)
    ensures Inv(x.cfg, Final(x))
  {
    Invariant(x.cfg, x.found, x.key, x.document, x.seconds, x.millis, x.actions);
  }

  lemma {:induction false} RunAppend(cfg: Setup, s: State, a: seq<Action>, b: seq<Action>)
    ensures Run(cfg, s, a + b) == Run(cfg, Run(cfg, s, a), b)
    decreases |a|
  {
    if a == [] {
      assert a + b == b;
    } else {
      assert (a + b)[1..] == a[1..] + b;
      RunAppend(cfg, Next(cfg, s, a[0]), a[1..], b);
    }
  }

  lemma RunOne(cfg: Setup, s: State, a: Action)
    ensures Run(cfg, s, [a]) == Next(cfg, s, a)
  {
    assert [a][1..] == [];
  }

  lemma FinalThen(x: Execution, a: Action)
    ensures Final(Then(x, a)) == Next(x.cfg, Final(x), a)
  {
    RunAppend(x.cfg, Begin(x), x.actions, [a]);
    RunOne(x.cfg, Final(x), a);
  }

  // ---------------------------------------------------------------------------
  // Pastes are written once

  lemma {:induction false} RowKept(cfg: Setup, s: State, actions: seq<Action>, id: nat)
    requires Inv(cfg, s) && id < s.table.nextId
    ensures var u := Run(cfg, s, actions);
            && id < u.table.nextId
            && (id in u.table.rows ==>
                  && id in s.table.rows
                  && u.table.rows[id] == s.table.rows[id].(expires := u.table.rows[id].expires))
    decreases |actions|
  {
    if actions != [] {
      var s1 := Next(cfg, s, actions[0]);
      NextKeepsInv(cfg, s, actions[0]);
      if actions[0].Advance? && actions[0].i < |s.requests| {
        ActIsOneStatement(cfg, s, actions[0].i, actions[0].pick);
        RowsKept(cfg, s, actions[0].i, Act(cfg, s, actions[0].i, actions[0].pick));
      }
      RowKept(cfg, s1, actions[1..], id);
    }
  }

  // Whatever requests do, a row found or stored keeps its slug, body and creation
  // time for as long as it exists, and once gone its id never comes back.
  lemma NeverRewritten(x: Execution, more: seq<Action>, id: nat)
    requires id < Final(x).table.nextId
    ensures var before, after := Final(x).table.rows, Final(x.(actions := x.actions + more)).table.rows;
            id in after ==> id in before && after[id] == before[id].(expires := after[id].expires)
  {
    FinalInv(x);
    RunAppend(x.cfg, Begin(x), x.actions, more);
    RowKept(x.cfg, Final(x), more, id);
  }

  // ---------------------------------------------------------------------------
  // Created pastes and found pastes

  lemma SoundAt(x: Execution, p: nat)
    requires p < |Final(x).log|
    ensures EventSound(x.cfg, Survivors(Final(x).log[..p]), Final(x).log[p])
  {
    FinalInv(x);
  }

  // The row as it was when it appeared.
  function Introduced(e: Event, id: nat): Row
    requires Introduces(e, id)
  {
    if e.Opened? then e.rows[id] else RowOf(e)
  }

  lemma {:induction false} SurvivorOrigin(log: seq<Event>, id: nat) returns (q: nat)
    requires id in Survivors(log)
    ensures q < |log| && Introduces(log[q], id)
    ensures Survivors(log)[id] == Introduced(log[q], id).(expires := Survivors(log)[id].expires)
    ensures forall r :: q < r < |log| && log[r].Removed? ==> id !in log[r].ids
    decreases |log|
  {
    var last, front := |log| - 1, log[..|log| - 1];
    if Introduces(log[last], id) {
      q := last;
    } else {
      q := SurvivorOrigin(front, id);
    }
  }

  lemma {:induction false} GoneMeansRemoved(cfg: Setup, log: seq<Event>, id: nat, p: nat, q: nat) returns (r: nat)
    requires LogSound(cfg, log) && p < q <= |log|
    requires id in Survivors(log[..p + 1]) && id !in Survivors(log[..q])
    ensures p < r < q && log[r].Removed? && id in log[r].ids
    decreases q
  {
    hide Survivors, Live;
    if q - 1 > p && id !in Survivors(log[..q - 1]) {
      r := GoneMeansRemoved(cfg, log, id, p, q - 1);
    } else {
      r := q - 1;
      assert EventSound(cfg, Survivors(log[..r]), log[r]);
      assert log[..q] == log[..r] + [log[r]];
      SurvivorsSnoc(log[..r], log[r]);
    }
  }

  // A row that appeared at p and is there later still has the slug and body of then.
  lemma SurvivorIs(log: seq<Event>, nextId: nat, p: nat, id: nat, q: nat)
    requires IdsIncrease(log, nextId) && p < q <= |log| && Introduces(log[p], id) && id in Survivors(log[..q])
    ensures Survivors(log[..q])[id].slug == Introduced(log[p], id).slug
    ensures Survivors(log[..q])[id].body == Introduced(log[p], id).body
  {
    var o := SurvivorOrigin(log[..q], id);
    assert log[..q][o] == log[o];
    assert o == p;
  }

  // A key is stored again only after the row that had it, found or inserted, was
  // removed.
  lemma ReuseNeedsRemoval(x: Execution, p: nat, id: nat, q: nat) returns (r: nat)
    requires var log := Final(x).log;
             && p < q < |log| && Introduces(log[p], id) && log[q].Inserted?
             && Introduced(log[p], id).slug == log[q].key
    ensures var log := Final(x).log;
            p < r < q && log[r].Removed? && id in log[r].ids
  {
    hide Run, Survivors;
    FinalInv(x);
    var log := Final(x).log;
    assert id in Survivors(log[..p + 1]) by {
      assert log[..p + 1] == log[..p] + [log[p]];
      SurvivorsSnoc(log[..p], log[p]);
    }
    assert id !in Survivors(log[..q]) by {
      SoundAt(x, q);
      if id in Survivors(log[..q]) {
        SurvivorIs(log, Final(x).table.nextId, p, id, q);
      }
    }
    r := GoneMeansRemoved(x.cfg, log, id, p, q);
  }

  // A 201 means the request's own, complete, body went into the table under the
  // returned key, which no other paste held at that moment.
  lemma CreatedMeansStored(x: Execution, i: nat) returns (p: nat)
    requires i < |Final(x).requests| && Final(x).requests[i].phase.Created?
    ensures var log, r := Final(x).log, Final(x).requests[i];
            && p < |log|
            && IsInsert(log[p], Poster(i, r.client, r.phase.stamp), r.phase.id, r.phase.key, r.phase.body)
            && r.ask.Post? && r.phase.body == ReadBody(r.ask.raw, x.cfg.maxLength)
            && Acceptable(r.phase.body, x.cfg.maxLength)
            && Unused(Survivors(log[..p]), r.phase.key)
  {
    FinalInv(x);
    var log, r := Final(x).log, Final(x).requests[i];
    assert RequestSound(x.cfg, log, i, r);
    p :| 0 <= p < |log| && IsInsert(log[p], Poster(i, r.client, r.phase.stamp), r.phase.id, r.phase.key, r.phase.body);
    assert EventSound(x.cfg, Survivors(log[..p]), log[p]);
  }

  // Two requests answered 201 with the same key: the first paste was removed
  // before the second was stored.
  lemma SameKeyCreatedTwice(x: Execution, i: nat, j: nat) returns (first: nat, r: nat, second: nat)
    requires i < |Final(x).requests| && j < |Final(x).requests| && i != j
    requires Final(x).requests[i].phase.Created? && Final(x).requests[j].phase.Created?
    requires Final(x).requests[i].phase.key == Final(x).requests[j].phase.key
    ensures var log := Final(x).log;
            && first < r < second < |log|
            && log[first].Inserted? && log[second].Inserted? && log[r].Removed? && log[first].id in log[r].ids
            && log[first].author.Poster? && log[second].author.Poster?
            && {log[first].author.req, log[second].author.req} == {i, j}
            && log[first].key == log[second].key == Final(x).requests[i].phase.key
  {
    var p := CreatedMeansStored(x, i);
    var q := CreatedMeansStored(x, j);
    if p < q {
      first, second := p, q;
    } else {
      first, second := q, p;
    }
    r := ReuseNeedsRemoval(x, first, Final(x).log[first].id, second);
  }

  // A SELECT that finds something finds the latest paste of its key, found in the
  // database or inserted, and not removed since.
  lemma FoundIsLatest(x: Execution, p: nat) returns (q: nat)
    requires p < |Final(x).log| && Final(x).log[p].Selected? && Final(x).log[p].hit.Some?
    ensures var log := Final(x).log;
            var e, hit := log[p], log[p].hit.value;
            && q < p && Introduces(log[q], hit.id)
            && Introduced(log[q], hit.id).slug == e.key && Introduced(log[q], hit.id).body == hit.body
            && (forall r :: q < r < p && log[r].Removed? ==> hit.id !in log[r].ids)
            && (forall r :: q < r < p && log[r].Inserted? ==> log[r].key != e.key)
  {
    SoundAt(x, p);
    var log := Final(x).log;
    var e := log[p];
    q := SurvivorOrigin(log[..p], e.hit.value.id);
    assert forall r :: q <= r < p ==> log[..p][r] == log[r];
    forall r | q < r < p && log[r].Inserted?
      ensures log[r].key != e.key
    {
      if log[r].key == e.key {
        var k := ReuseNeedsRemoval(x, q, e.hit.value.id, r);
        assert false;
      }
    }
  }

  // What a client is shown was found by its own request.
  lemma FetchedMeansFound(x: Execution, i: nat) returns (p: nat)
    requires i < |Final(x).requests| && Final(x).requests[i].phase.Fetched? && Final(x).requests[i].phase.data.Some?
    ensures var log, r := Final(x).log, Final(x).requests[i];
            && r.ask == Fetch(r.phase.key)
            && p < |log| && log[p].Selected? && log[p].reader == i && log[p].key == r.phase.key
            && log[p].hit.Some? && log[p].hit.value.body == r.phase.data.value
  {
    FinalInv(x);
    var log, r := Final(x).log, Final(x).requests[i];
    assert RequestSound(x.cfg, log, i, r);
    var id: nat;
    p, id :| 0 <= p < |log| && IsHit(log[p], i, r.phase.key, Hit(id, r.phase.data.value));
  }

  // A SELECT comes back empty exactly when every surviving paste of its key had
  // reached its deadline by the reading the SELECT was given.
  lemma MissingMeansGone(x: Execution, p: nat)
    requires p < |Final(x).log| && Final(x).log[p].Selected?
    ensures var e, alive := Final(x).log[p], Survivors(Final(x).log[..p]);
            e.hit.None? <==> NothingToFind(alive, e.key, e.now)
  {
    SoundAt(x, p);
  }

  // ---------------------------------------------------------------------------
  // Where what is read comes from

  // The log begins as at the start, and goes on with the work of requests alone.
  ghost predicate Continues(log: seq<Event>, start: seq<Event>) {
    && start <= log
    && forall p :: |start| <= p < |log| ==> !log[p].Opened? && (log[p].Inserted? ==> log[p].author.Poster?)
  }

  lemma {:induction false} RunContinues(cfg: Setup, s: State, actions: seq<Action>, start: seq<Event>)
    requires Continues(s.log, start)
    ensures Continues(Run(cfg, s, actions).log, start)
    decreases |actions|
  {
    if actions != [] {
      RunContinues(cfg, Next(cfg, s, actions[0]), actions[1..], start);
    }
  }

  lemma FinalContinues(x: Execution)
    ensures Continues(Final(x).log, Begin(x).log)
    ensures |Begin(x).log| <= 2 && Begin(x).log[0] == Opened(x.found.rows)
    ensures |Begin(x).log| == 2 ==>
              Begin(x).log[1] == Inserted(Preload, x.found.nextId, x.key, x.document, x.seconds,
                                          NewDeadline(x.cfg, x.seconds), x.seconds)
  {
    RunContinues(x.cfg, Begin(x), x.actions, Begin(x).log);
  }

  // The paste shown under a key is one the database held at the start, the document
  // preloaded under that key, or what the body of a POST answered with that key and
  // id was read as, which under a length limit is its raw body, byte for byte.
  ghost predicate ComesFrom(x: Execution, key: string, hit: Hit, e: Event) {
    match e
    case Opened(rows) =>
      rows == x.found.rows && hit.id in rows && rows[hit.id].slug == key && rows[hit.id].body == hit.body
    case Inserted(Preload, id, _, _, _, _, _) => key == x.key && hit == Hit(x.found.nextId, x.document) && id == hit.id
    case Inserted(Poster(i, _, stamp), _, _, _, _, _, _) =>
      var requests := Final(x).requests;
      && i < |requests| && requests[i].phase == Created(hit.body, stamp, key, hit.id)
      && requests[i].ask.Post? && hit.body == ReadBody(requests[i].ask.raw, x.cfg.maxLength)
      && (x.cfg.maxLength > 0 ==> hit.body == requests[i].ask.raw)
    case _ => false
  }

  // End to end: what a SELECT finds under a key comes from where it should, and no
  // other paste was stored under the key since.
  lemma ReadWhatWasPosted(x: Execution, p: nat) returns (q: nat)
    requires p < |Final(x).log| && Final(x).log[p].Selected? && Final(x).log[p].hit.Some?
    ensures var log := Final(x).log;
            && q < p && ComesFrom(x, log[p].key, log[p].hit.value, log[q])
            && (forall r :: q < r < p && log[r].Inserted? ==> log[r].key != log[p].key)
  {
    hide Run, Survivors, LogSound, IdsIncrease;
    q := FoundIsLatest(x, p);
    FinalInv(x);
    FinalContinues(x);
    var log, requests := Final(x).log, Final(x).requests;
    assert InsertAnswered(requests, log[q]);
    if log[q].Inserted? && log[q].author.Poster? {
      var r := requests[log[q].author.req];
      assert RequestSound(x.cfg, log, log[q].author.req, r);
      AcceptedBodies(r.ask.raw, x.cfg.maxLength);
    } else {
      assert q < |Begin(x).log| && log[q] == Begin(x).log[q];
    }
  }

  // So is whatever a client is shown in answer to a GET.
  lemma FetchedMeansPosted(x: Execution, i: nat) returns (p: nat, q: nat)
    requires i < |Final(x).requests| && Final(x).requests[i].phase.Fetched? && Final(x).requests[i].phase.data.Some?
    ensures var log, phase := Final(x).log, Final(x).requests[i].phase;
            && q < p < |log| && log[p].Selected? && log[p].reader == i
            && log[p].hit.Some? && log[p].hit.value.body == phase.data.value
            && ComesFrom(x, phase.key, log[p].hit.value, log[q])
            && (forall r :: q < r < p && log[r].Inserted? ==> log[r].key != phase.key)
  {
    p := FetchedMeansFound(x, i);
    q := ReadWhatWasPosted(x, p);
  }

  // ---------------------------------------------------------------------------
  // When a POST fails although its probe found the key free

  // The INSERT of a POST ends in 500 exactly when some row, live or expired, has
  // its key, and in 201 otherwise.
  lemma RefusedExactlyWhenHeld(x: Execution, i: nat, pick: string)
    requires i < |Final(x).requests| && Final(x).requests[i].phase.Inserting?
    ensures var s, y := Final(x), Final(Then(x, Advance(i, pick)));
            && i < |y.requests|
            && (y.requests[i].phase == Refused(500)
                <==> exists id <- s.table.rows :: s.table.rows[id].slug == s.requests[i].phase.key)
            && (y.requests[i].phase != Refused(500) ==> y.requests[i].phase.Created?)
  {
    FinalInv(x);
    FinalThen(x, Advance(i, pick));
  }

  // Any row in the way had expired at the clock reading of the request's probe, or
  // was inserted after that probe.
  lemma HolderCameInBetween(x: Execution, i: nat, id: nat) returns (p: nat)
    requires i < |Final(x).requests| && Final(x).requests[i].phase.Inserting?
    requires id in Final(x).table.rows && Final(x).table.rows[id].slug == Final(x).requests[i].phase.key
    ensures var log, key := Final(x).log, Final(x).requests[i].phase.key;
            && p < |log| && IsFreeProbe(log[p], i, key)
            && (|| (id in Survivors(log[..p]) && !Live(Survivors(log[..p])[id], log[p].now))
                || exists q :: p < q < |log| && log[q].Inserted? && log[q].id == id && log[q].key == key)
  {
    FinalInv(x);
    FinalContinues(x);
    var s := Final(x);
    var log, key := s.log, s.requests[i].phase.key;
    assert RequestSound(x.cfg, log, i, s.requests[i]);
    p :| 0 <= p < |log| && IsFreeProbe(log[p], i, key);
    var q := SurvivorOrigin(log, id);
    if q < p {
      SurvivedBefore(x.cfg, log, s.table.nextId, id, q, p);
      SoundAt(x, p);
    } else {
      assert q != p;
      assert EventSound(x.cfg, Survivors(log[..q]), log[q]);
    }
  }

  lemma IntroducedOnce(log: seq<Event>, nextId: nat, id: nat, q: nat, p: nat)
    requires IdsIncrease(log, nextId) && q < p < |log| && Introduces(log[q], id)
    ensures !Introduces(log[p], id)
  {
  }

  // A row not removed since it appeared is there at every point since.
  lemma {:induction false} SurvivedBefore(cfg: Setup, log: seq<Event>, nextId: nat, id: nat, q: nat, p: nat)
    requires LogSound(cfg, log) && IdsIncrease(log, nextId)
    requires q < p <= |log| && Introduces(log[q], id)
    requires forall r :: q < r < p && log[r].Removed? ==> id !in log[r].ids
    ensures id in Survivors(log[..p])
    ensures Survivors(log[..p])[id].slug == Introduced(log[q], id).slug
    decreases p
  {
    hide Survivors, IdsIncrease;
    assert log[..p] == log[..p - 1] + [log[p - 1]];
    SurvivorsSnoc(log[..p - 1], log[p - 1]);
    if q < p - 1 {
      SurvivedBefore(cfg, log, nextId, id, q, p - 1);
      assert EventSound(cfg, Survivors(log[..p - 1]), log[p - 1]);
      IntroducedOnce(log, nextId, id, q, p - 1);
    }
  }

  // ---------------------------------------------------------------------------
  // Idle pastes expire; bumps stay with their paste

  // The deadline is the one found in the database, or stems from a touch.
  ghost predicate Accounted(E: int, found: map<nat, Row>, log: seq<Event>, id: nat, row: Row) {
    || (id in found && row.expires == found[id].expires)
    || (row.expires.Some? && TouchedSince(log, id, row.expires.value - E))
  }

  lemma EventAccounted(cfg: Setup, found: map<nat, Row>, log: seq<Event>, e: Event, id: nat)
    requires cfg.store.expire > 0
    requires EventSound(cfg, Survivors(log), e) && (e.Updated? ==> TouchedSince(log, e.id, e.now))
    requires e.Opened? ==> e.rows == found
    requires id in Survivors(log) ==> Accounted(cfg.store.expire, found, log, id, Survivors(log)[id])
    requires id in Survivors(log + [e])
    ensures Accounted(cfg.store.expire, found, log + [e], id, Survivors(log + [e])[id])
  {
    SurvivorsSnoc(log, e);
    TouchedSinceGrows(log, [e]);
    if e.Inserted? && e.id == id {
      LastTouches(log, e, id, e.now);
    }
  }

  lemma {:induction false} DeadlineAccounted(cfg: Setup, found: map<nat, Row>, log: seq<Event>, n: nat, id: nat)
    requires cfg.store.expire > 0
    requires LogSound(cfg, log) && UpdatesTouched(log) && n <= |log| && id in Survivors(log[..n])
    requires forall e <- log :: e.Opened? ==> e.rows == found
    ensures Accounted(cfg.store.expire, found, log[..n], id, Survivors(log[..n])[id])
  {
    if n > 0 {
      assert log[..n] == log[..n - 1] + [log[n - 1]];
      if id in Survivors(log[..n - 1]) {
        DeadlineAccounted(cfg, found, log, n - 1, id);
      }
      EventAccounted(cfg, found, log[..n - 1], log[n - 1], id);
    }
  }

  // A paste not stored or read with bumping after t is not found with a clock
  // reading of t plus the lifetime or later, bumps in flight included, unless the
  // database held it at the start with a deadline that is still ahead.
  lemma IdleExpiry(x: Execution, p: nat, id: nat, t: int)
    requires x.cfg.store.expire > 0
    requires var log := Final(x).log;
             && p < |log| && log[p].Selected? && log[p].now >= t + x.cfg.store.expire
             && forall q :: 0 <= q < p && Touches(log[q], id) ==> log[q].at <= t
    ensures var e := Final(x).log[p];
            e.hit.Some? && e.hit.value.id == id ==> id in x.found.rows && Live(x.found.rows[id], e.now)
  {
    hide Run, Survivors, IdsIncrease, RequestInv;
    FinalInv(x);
    FinalContinues(x);
    SoundAt(x, p);
    var log := Final(x).log;
    assert forall q :: 0 <= q < p ==> log[..p][q] == log[q];
    assert forall k :: 0 <= k < |log| && log[k].Opened? ==> k < |Begin(x).log| && log[k] == Begin(x).log[k];
    if log[p].hit.Some? && log[p].hit.value.id == id {
      DeadlineAccounted(x.cfg, x.found.rows, log, p, id);
    }
  }

  // A pending bump is keyed to the very paste that was selected; if the slug has
  // passed to another row, that row has another id and the selected one is gone.
  lemma BumpTarget(x: Execution, i: nat)
    requires i < |Final(x).requests| && Final(x).requests[i].phase.Bumping?
    ensures var rows, phase := Final(x).table.rows, Final(x).requests[i].phase;
            && (phase.id in rows ==> rows[phase.id].slug == phase.key && rows[phase.id].body == phase.body)
            && (forall id <- rows :: rows[id].slug == phase.key && id != phase.id ==> phase.id !in rows)
  {
    FinalInv(x);
  }

  // The UPDATE of a bump begun on one paste changes that paste's deadline or, when
  // it is gone, nothing: not even a new paste under the same key.
  lemma BumpStaysHome(x: Execution, i: nat, pick: string)
    requires i < |Final(x).requests| && Final(x).requests[i].phase.Bumping?
    ensures var phase, t := Final(x).requests[i].phase, Final(x).table;
            var t' := Final(Then(x, Advance(i, pick))).table;
            if phase.id in t.rows
            then && t.rows[phase.id].slug == phase.key && t.rows[phase.id].body == phase.body
                 && t' == Bump(t, phase.id, phase.now + x.cfg.store.expire)
                 && t'.rows == t.rows[phase.id := t.rows[phase.id].(expires := Some(phase.now + x.cfg.store.expire))]
            else t' == t
    ensures var phase, t := Final(x).requests[i].phase, Final(x).table;
            (exists id <- t.rows :: id != phase.id && t.rows[id].slug == phase.key) ==> phase.id !in t.rows
  {
    BumpTarget(x, i);
    FinalThen(x, Advance(i, pick));
    BumpStep(x.cfg, Final(x), i, pick);
  }

  lemma BumpStep(cfg: Setup, s: State, i: nat, pick: string)
    requires i < |s.requests| && s.requests[i].phase.Bumping?
    ensures Next(cfg, s, Advance(i, pick)).table
            == Bump(s.table, s.requests[i].phase.id, s.requests[i].phase.now + cfg.store.expire)
  {
  }

  // ---------------------------------------------------------------------------
  // The console's DELETE and purge

  // The rows that are left by a DELETE of the key, and by a purge at a reading.
  function RowsWithout(t: Table, key: string): Table {
    t.(rows := map id | id in t.rows && t.rows[id].slug != key :: t.rows[id])
  }

  function RowsAhead(t: Table, now: int): Table {
    t.(rows := map id | id in t.rows && (t.rows[id].expires.None? || now < t.rows[id].expires.value) :: t.rows[id])
  }

  // Whatever the others are in the middle of, a DELETE the console lets through
  // removes precisely the rows of its key and says whether there were any.
  lemma EraseStep(cfg: Setup, s: State, i: nat, pick: string)
    requires i < |s.requests| && s.requests[i].phase.Routed? && s.requests[i].ask.Erase?
    ensures var key, u := s.requests[i].ask.key, Next(cfg, s, Advance(i, pick));
            var phase := u.requests[i].phase;
            && u.requests == s.requests[i := s.requests[i].(phase := phase)] && u.windows == s.windows
            && if key == "" then phase == Refused(400) && u.table == s.table
               else if key in cfg.staticKeys then phase == Refused(403) && u.table == s.table
               else
                 && phase == Erased(exists id <- s.table.rows :: s.table.rows[id].slug == key)
                 && u.table == RowsWithout(s.table, key)
  {
    var key := s.requests[i].ask.key;
    assert SlugIds(s.table, key) != {} <==> exists id <- s.table.rows :: s.table.rows[id].slug == key by {
      if id :| id in s.table.rows && s.table.rows[id].slug == key {
        assert id in SlugIds(s.table, key);
      }
    }
  }

  // A purge removes precisely the rows whose deadline has come by the reading it was
  // given, and says how many.
  lemma PurgeStep(cfg: Setup, s: State, i: nat, pick: string)
    requires i < |s.requests| && s.requests[i].phase.Purging?
    ensures var now, u := s.requests[i].phase.now, Next(cfg, s, Advance(i, pick));
            && var phase := u.requests[i].phase;
            && u.requests == s.requests[i := s.requests[i].(phase := phase)]
            && phase.Cleaned? && |s.table.rows| == |u.table.rows| + phase.n
            && u.windows == s.windows && u.table == RowsAhead(s.table, now)
  {
    var now := s.requests[i].phase.now;
    var kept := Purge(s.table, now).rows;
    assert s.table.rows.Keys == kept.Keys + ExpiredIds(s.table, now);
    assert |s.table.rows| == |s.table.rows.Keys| && |kept| == |kept.Keys|;
  }

  // ---------------------------------------------------------------------------
  // The body of a raw POST

  lemma FirstByteBlank(raw: Body)
    requires |raw| >= 1
    ensures BlankBody(raw[..1]) <==> 9 <= raw[0] <= 13 || raw[0] == 32
  {
    assert raw[..1][SpaceAt(raw[..1])..] == if SpaceAt(raw[..1]) == 0 then raw[..1] else [];
  }

  // With a length limit a request is accepted exactly when its whole body is
  // within the limit and no text of white space. Without one it is accepted exactly when its
  // first byte is no white space, whatever follows; a negative limit accepts none.
  lemma AcceptedBodies(raw: Body, maxLength: int)
    ensures Acceptable(ReadBody(raw, maxLength), maxLength) <==>
            if maxLength > 0 then |raw| <= maxLength && !BlankText(raw)
            else maxLength == 0 && |raw| >= 1 && !(9 <= raw[0] <= 13 || raw[0] == 32)
    ensures maxLength > 0 && Acceptable(ReadBody(raw, maxLength), maxLength) ==> ReadBody(raw, maxLength) == raw
  {
    BlankMeaning(raw);
    if maxLength == 0 && |raw| >= 1 {
      assert ReadBody(raw, 0) == raw[..1];
      FirstByteBlank(raw);
    }
  }

  // In general an accepted body is the whole body exactly when there is a length
  // limit or no more than one byte was sent: with maxLength 0, documented as
  // unlimited, the reader stops after one byte.
  lemma WholeBody(raw: Body, maxLength: int)
    requires Acceptable(ReadBody(raw, maxLength), maxLength)
    ensures ReadBody(raw, maxLength) == raw <==> maxLength > 0 || |raw| <= 1
  {
    assert maxLength < 0 ==> ReadBody(raw, maxLength) == [];
  }

  lemma UnlimitedTruncates()
    ensures Acceptable(ReadBody([97, 98], 0), 0) && ReadBody([97, 98], 0) == [97]
  {
    var b: Body := [97, 98];
    assert ReadBody(b, 0) == b[..1] == [97];
    assert SpaceAt([97]) == 0;
  }
}
