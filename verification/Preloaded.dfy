// The document preloaded at every start (preloadDocuments in cmd/gopaste/main.go):
// what can be read under its key, and for how long, on any database.
module Preloads {
  import opened Text
  import opened Pastes
  import opened Serving
  import opened Interleavings
  import opened Guarantees

  // The row is as it was; only a purge after its deadline may have taken it.
  predicate Untouched(t: Table, id: nat, row: Row, seconds: int) {
    && id < t.nextId
    && if id in t.rows then t.rows[id] == row else row.expires.Some? && row.expires.value <= seconds
  }

  lemma ActKeepsUntouched(cfg: Setup, s: State, i: nat, pick: string, id: nat, row: Row)
    requires Valid(s.table) && i < |s.requests| && ReadingPast(s.requests[i].phase, s.seconds)
    requires Untouched(s.table, id, row, s.seconds) && row.slug in cfg.staticKeys
    requires s.requests[i].phase.Bumping? && id in s.table.rows ==> s.requests[i].phase.id != id
    ensures Untouched(Act(cfg, s, i, pick).table, id, row, s.seconds)
  {
  }

  lemma NextKeepsUntouched(cfg: Setup, s: State, a: Action, id: nat, row: Row)
    requires Inv(cfg, s) && row.slug in cfg.staticKeys && Untouched(s.table, id, row, s.seconds)
    ensures Untouched(Next(cfg, s, a).table, id, row, Next(cfg, s, a).seconds)
  {
    if a.Advance? && a.i < |s.requests| {
      ActKeepsUntouched(cfg, s, a.i, a.pick, id, row);
    }
  }

  lemma {:induction false} RunKeepsUntouched(cfg: Setup, s: State, actions: seq<Action>, id: nat, row: Row)
    requires Inv(cfg, s) && row.slug in cfg.staticKeys && Untouched(s.table, id, row, s.seconds)
    ensures Untouched(Run(cfg, s, actions).table, id, row, Run(cfg, s, actions).seconds)
    decreases |actions|
  {
    if actions != [] {
      NextKeepsInv(cfg, s, actions[0]);
      NextKeepsUntouched(cfg, s, actions[0], id, row);
      RunKeepsUntouched(cfg, Next(cfg, s, actions[0]), actions[1..], id, row);
    }
  }

  // Whatever table the server starts on: a row under a static key is never changed,
  // and is found exactly until its own deadline.
  lemma StaticLifetime(x: Execution, id: nat)
    requires id in Begin(x).table.rows && Begin(x).table.rows[id].slug in x.cfg.staticKeys
    ensures var row, s := Begin(x).table.rows[id], Final(x);
            && (Select(s.table, row.slug, s.seconds) == Some(id) <==> Live(row, s.seconds))
            && (id in s.table.rows ==> s.table.rows[id] == row)
            && (id !in s.table.rows ==> !Live(row, s.seconds))
  {
    var row := Begin(x).table.rows[id];
    StartInv(x.cfg, x.found, x.key, x.document, x.seconds, x.millis);
    RunKeepsUntouched(x.cfg, Begin(x), x.actions, id, row);
    FinalInv(x);
    SelectMeaning(Final(x).table, row.slug, Final(x).seconds, id);
  }

  // The row under the preloaded key after the start: the one found there, which the
  // preload leaves as it is, or a new one.
  lemma Holder(x: Execution) returns (id: nat)
    ensures id in Begin(x).table.rows && Begin(x).table.rows[id].slug == x.key
    ensures if Unused(x.found.rows, x.key)
            then id == x.found.nextId
                 && Begin(x).table.rows[id] == Row(x.key, x.document, x.seconds, NewDeadline(x.cfg, x.seconds))
            else id in x.found.rows && Begin(x).table.rows[id] == x.found.rows[id]
  {
    InsertMeaning(x.cfg.store, x.found, x.key, x.document, x.seconds);
    if Unused(x.found.rows, x.key) {
      id := x.found.nextId;
    } else {
      id :| id in x.found.rows && x.found.rows[id].slug == x.key;
    }
  }

  // In every execution one row answers for the preloaded key until its deadline: the
  // row found under the key at the start, with its own body and deadline, or, where
  // there was none, the document with a deadline one lifetime after the start. It is
  // meant never to expire, but no read moves that deadline.
  lemma PreloadedLifetime(x: Execution) returns (id: nat)
    requires x.key in x.cfg.staticKeys
    ensures id in Begin(x).table.rows && Begin(x).table.rows[id].slug == x.key
    ensures if Unused(x.found.rows, x.key)
            then Begin(x).table.rows[id] == Row(x.key, x.document, x.seconds, NewDeadline(x.cfg, x.seconds))
            else id in x.found.rows && Begin(x).table.rows[id] == x.found.rows[id]
    ensures var row, s := Begin(x).table.rows[id], Final(x);
            && (Select(s.table, x.key, s.seconds) == Some(id) <==> Live(row, s.seconds))
            && (id in s.table.rows ==> s.table.rows[id] == row)
  {
    id := Holder(x);
    StaticLifetime(x, id);
  }

  // So on a database that does not hold the key, the document can be read exactly
  // until the lifetime has passed since the start, and for ever without one.
  lemma FreshStart(x: Execution)
    requires x.key in x.cfg.staticKeys && Unused(x.found.rows, x.key)
    ensures var s := Final(x);
            && (Select(s.table, x.key, s.seconds) == Some(x.found.nextId)
                <==> x.cfg.store.expire <= 0 || s.seconds < x.seconds + x.cfg.store.expire)
            && (x.found.nextId in s.table.rows ==> s.table.rows[x.found.nextId].body == x.document)
  {
    var id := Holder(x);
    StaticLifetime(x, id);
  }

  // A start finds nothing to show under the key exactly when an expired row has it,
  // and shows something other than the document exactly when a live row has it with
  // another body.
  lemma RestartOutcome(x: Execution)
    ensures var t, hit := Begin(x).table, Select(Begin(x).table, x.key, x.seconds);
            && (hit.None? <==> exists id <- x.found.rows ::
                  x.found.rows[id].slug == x.key && !Live(x.found.rows[id], x.seconds))
            && (hit.Some? && t.rows[hit.value].body != x.document <==> exists id <- x.found.rows ::
                  && x.found.rows[id].slug == x.key && Live(x.found.rows[id], x.seconds)
                  && x.found.rows[id].body != x.document)
  {
    var id := Holder(x);
    StartInv(x.cfg, x.found, x.key, x.document, x.seconds, x.millis);
    SelectMeaning(Begin(x).table, x.key, x.seconds, id);
    assert forall k <- x.found.rows :: x.found.rows[k].slug == x.key ==> k == id;
    if Select(Begin(x).table, x.key, x.seconds).Some? {
      SelectMeaning(Begin(x).table, x.key, x.seconds, Select(Begin(x).table, x.key, x.seconds).value);
    }
  }

  // After a start on an expired row the key stays empty for as long as that row is
  // there, which is until a purge.
  lemma MissingUntilPurged(x: Execution, id: nat)
    requires x.key in x.cfg.staticKeys
    requires id in x.found.rows && x.found.rows[id].slug == x.key && !Live(x.found.rows[id], x.seconds)
    requires id in Final(x).table.rows
    ensures Select(Final(x).table, x.key, Final(x).seconds) == None
  {
    InsertMeaning(x.cfg.store, x.found, x.key, x.document, x.seconds);
    StaticLifetime(x, id);
    FinalInv(x);
    TimeGoesOn(x.cfg, Begin(x), x.actions);
    var s := Final(x);
    if Select(s.table, x.key, s.seconds).Some? {
      SelectMeaning(s.table, x.key, s.seconds, Select(s.table, x.key, s.seconds).value);
    }
  }

  lemma {:induction false} TimeGoesOn(cfg: Setup, s: State, actions: seq<Action>)
    ensures s.seconds <= Run(cfg, s, actions).seconds
    decreases |actions|
  {
    if actions != [] {
      TimeGoesOn(cfg, Next(cfg, s, actions[0]), actions[1..]);
    }
  }

  // Started at second 0 with a lifetime of 10, and again at second 20 on the table
  // left behind: the document is not to be read from then on.
  lemma RestartLosesDocument() returns (x: Execution, y: Execution)
    ensures x.found == EMPTY && x.key in x.cfg.staticKeys && x.seconds == 0 && x.cfg.store.expire == 10
    ensures y == x.(found := Final(x).table, seconds := 20, actions := [])
    ensures Select(Final(x).table, x.key, 0).Some? && Select(Final(y).table, y.key, 20) == None
  {
    var cfg := Setup(Config(10, SQLite), L.Params(0, 0, 0), 100, {"about"});
    x := Launch(cfg, EMPTY, "about", [98], 0, 0, []);
    assert Unused(EMPTY.rows, "about");
    var id := Holder(x);
    FinalInv(x);
    SelectMeaning(Final(x).table, "about", 0, id);
    y := x.(found := Final(x).table, seconds := 20, actions := []);
    assert y.found.rows[id].slug == "about" && !Live(y.found.rows[id], 20);
    RestartOutcome(y);
  }
}
