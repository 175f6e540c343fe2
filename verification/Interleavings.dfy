// What every interleaving of requests keeps: the table against the log.
module Interleavings {
  import opened Pastes
  import opened Serving
  import L = RateLimits

  lemma LogSoundSnoc(cfg: Setup, log: seq<Event>, e: Event)
    requires LogSound(cfg, log) && EventSound(cfg, Survivors(log), e)
    ensures LogSound(cfg, log + [e])
  {
    var log' := log + [e];
    assert log'[..|log|] == log;
    forall p | 0 <= p < |log'|
      ensures EventSound(cfg, Survivors(log'[..p]), log'[p])
    {
      if p < |log| {
        assert log'[..p] == log[..p];
      }
    }
  }

  lemma QuietSnoc(cfg: Setup, t: Table, log: seq<Event>, e: Event)
    requires TableInv(cfg, t, log) && (e.Limited? || e.Selected?) && EventSound(cfg, Survivors(log), e)
    ensures TableInv(cfg, t, log + [e])
  {
    LogSoundSnoc(cfg, log, e);
    SurvivorsSnoc(log, e);
  }

  lemma SelectIsSound(cfg: Setup, s: State, i: nat, key: string, bump: bool, now: int)
    requires TableInv(cfg, s.table, s.log)
    ensures EventSound(cfg, Survivors(s.log), SelectEvent(s, i, key, bump, now))
  {
    var e := SelectEvent(s, i, key, bump, now);
    if e.hit.Some? {
      SelectMeaning(s.table, key, now, e.hit.value.id);
    } else {
      forall id | id in s.table.rows && s.table.rows[id].slug == key
        ensures !Live(s.table.rows[id], now)
      {
        SelectMeaning(s.table, key, now, id);
      }
    }
  }

  lemma SelectKeepsTable(cfg: Setup, s: State, i: nat, key: string, bump: bool, now: int)
    requires TableInv(cfg, s.table, s.log)
    ensures TableInv(cfg, s.table, s.log + [SelectEvent(s, i, key, bump, now)])
  {
    SelectIsSound(cfg, s, i, key, bump, now);
    QuietSnoc(cfg, s.table, s.log, SelectEvent(s, i, key, bump, now));
  }

  lemma IdsIncreaseSnoc(log: seq<Event>, e: Event, nextId: nat)
    requires IdsIncrease(log, nextId) && e.Inserted? && e.id == nextId
    ensures IdsIncrease(log + [e], nextId + 1)
  {
  }

  lemma NewRowValid(t: Table, row: Row)
    requires Valid(t) && forall id <- t.rows :: t.rows[id].slug != row.slug
    ensures Valid(Table(t.rows[t.nextId := row], t.nextId + 1))
  {
  }

  lemma FreshId(t: Table)
    requires Valid(t)
    ensures t.nextId !in t.rows
  {
  }

  function RowOf(e: Event): Row
    requires e.Inserted?
  {
    Row(e.key, e.body, e.now, e.expires)
  }

  lemma NewRowKeepsTable(cfg: Setup, t: Table, log: seq<Event>, e: Event)
    requires TableInv(cfg, t, log)
    requires e.Inserted? && e.id == t.nextId && e.now <= e.at && e.expires == NewDeadline(cfg, e.now)
    requires Unused(t.rows, e.key)
    ensures TableInv(cfg, Table(t.rows[t.nextId := RowOf(e)], t.nextId + 1), log + [e])
  {
    hide Survivors, LogSound, IdsIncrease, Pastes.Valid;
    FreshId(t);
    NewRowValid(t, RowOf(e));
    SurvivorsSnoc(log, e);
    IdsIncreaseSnoc(log, e, t.nextId);
    LogSoundSnoc(cfg, log, e);
  }

  lemma InsertKeepsTable(cfg: Setup, t: Table, log: seq<Event>, author: Author, key: string, body: Body,
                         now: int, at: int)
    requires TableInv(cfg, t, log) && now <= at
    ensures var (t', ok) := Insert(cfg.store, t, key, body, now);
            TableInv(cfg, t',
                     if ok then log + [Inserted(author, t.nextId, key, body, now, NewDeadline(cfg, now), at)] else log)
  {
    var (t', ok) := Insert(cfg.store, t, key, body, now);
    if ok {
      InsertMeaning(cfg.store, t, key, body, now);
      NewRowKeepsTable(cfg, t, log, Inserted(author, t.nextId, key, body, now, NewDeadline(cfg, now), at));
    }
  }

  // The UPDATE writes to the row what its event says.
  lemma UpdateKeepsTable(cfg: Setup, t: Table, log: seq<Event>, e: Event)
    requires TableInv(cfg, t, log) && e.Updated? && EventSound(cfg, Survivors(log), e)
    ensures TableInv(cfg, Bump(t, e.id, e.deadline), log + [e])
  {
    SurvivorsSnoc(log, e);
    LogSoundSnoc(cfg, log, e);
  }

  lemma RemoveKeepsTable(cfg: Setup, t: Table, t': Table, log: seq<Event>, e: Event)
    requires TableInv(cfg, t, log) && e.Removed? && EventSound(cfg, Survivors(log), e)
    requires t'.nextId == t.nextId && t'.rows == t.rows - e.ids
    ensures TableInv(cfg, t', log + [e])
  {
    SurvivorsSnoc(log, e);
    LogSoundSnoc(cfg, log, e);
  }

  // The steps at which there is no statement to run and no limiter to call.
  predicate Silent(cfg: Setup, s: State, i: nat)
    requires i < |s.requests|
  {
    var r := s.requests[i];
    match r.phase
    case AtLimiter(_) => false
    case Routed => r.ask.Erase? ==> r.ask.key == "" || r.ask.key in cfg.staticKeys
    case Charging(_, _) => cfg.limits.maxBytes <= 0 || cfg.limits.window <= 0
    case Probing(_, _, _, _) => false
    case Inserting(_, _, key, _) => !Unused(s.table.rows, key)
    case Selecting(_, _, _) => false
    case Bumping(_, _, _, _) => false
    case Purging(_) => false
    case _ => true
  }

  // A step either has nothing to run and leaves table and log alone, or is one of
  // the statements, run as the request's phase says, or one call of the limiter.
  ghost predicate OneStatement(cfg: Setup, s: State, i: nat, e: Effect)
    requires i < |s.requests|
  {
    var r, phase := s.requests[i], s.requests[i].phase;
    if e.events == [] then
      && Silent(cfg, s, i) && e.windows == s.windows
      && (|| e.table == s.table
          || (phase.Inserting? && (e.table, false) == Insert(cfg.store, s.table, phase.key, phase.body, phase.now)))
    else
      && |e.events| == 1
      && (!e.events[0].Limited? ==> e.windows == s.windows)
      && match e.events[0]
        case Limited(call, ok) => e.table == s.table && (e.windows, ok) == L.Serve(cfg.limits, s.windows, call, true)
        case Selected(_, key, bump, now, _, _) =>
          && (phase.Probing? || phase.Selecting?) && phase.now == now
          && e.table == s.table && e.events[0] == SelectEvent(s, i, key, bump, now)
        case Inserted(_, _, key, body, _, _, _) =>
          && phase.Inserting? && (e.table, true) == Insert(cfg.store, s.table, key, body, phase.now)
          && e.events[0] == Inserted(Poster(i, r.client, phase.stamp), s.table.nextId, key, body, phase.now,
                                     NewDeadline(cfg, phase.now), s.seconds)
        case Updated(_, id, _, deadline, _) =>
          && phase.Bumping? && e.table == Bump(s.table, id, deadline)
          && e.events[0] == Updated(i, phase.id, phase.now, phase.now + cfg.store.expire, s.seconds)
        case Opened(_) => false
        case Removed(Erasing(key), gone) =>
          r.ask == Erase(key) && gone == SlugIds(s.table, key) && e.table == s.table.(rows := s.table.rows - gone)
        case Removed(Expiry(now), gone) =>
          phase == Purging(now) && gone == ExpiredIds(s.table, now) && e.table == s.table.(rows := s.table.rows - gone)
  }

  lemma ActIsOneStatement(cfg: Setup, s: State, i: nat, pick: string)
    requires i < |s.requests|
    ensures OneStatement(cfg, s, i, Act(cfg, s, i, pick))
  {
  }

  lemma DeletionKeepsTable(cfg: Setup, s: State, i: nat, e: Effect)
    requires TableInv(cfg, s.table, s.log) && i < |s.requests| && OneStatement(cfg, s, i, e)
    requires e.events != [] && e.events[0].Removed?
    ensures TableInv(cfg, e.table, s.log + [e.events[0]])
  {
    RemoveKeepsTable(cfg, s.table, e.table, s.log, e.events[0]);
  }

  lemma SilenceKeepsTable(cfg: Setup, s: State, i: nat, e: Effect)
    requires TableInv(cfg, s.table, s.log) && i < |s.requests| && OneStatement(cfg, s, i, e) && e.events == []
    ensures TableInv(cfg, e.table, s.log)
  {
    if e.table != s.table {
      var phase := s.requests[i].phase;
    }
  }

  lemma InsertionKeepsTable(cfg: Setup, s: State, i: nat, e: Effect, event: Event)
    requires TableInv(cfg, s.table, s.log) && i < |s.requests| && OneStatement(cfg, s, i, e) && e.events == [event]
    requires event.Inserted? && ReadingPast(s.requests[i].phase, s.seconds)
    ensures TableInv(cfg, e.table, s.log + [event])
  {
    InsertKeepsTable(cfg, s.table, s.log, event.author, event.key, event.body, event.now, s.seconds);
  }

  lemma SelectionKeepsTable(cfg: Setup, s: State, i: nat, e: Effect, event: Event)
    requires TableInv(cfg, s.table, s.log) && i < |s.requests| && OneStatement(cfg, s, i, e) && e.events == [event]
    requires event.Selected?
    ensures TableInv(cfg, e.table, s.log + [event])
  {
    SelectKeepsTable(cfg, s, i, event.key, event.bump, event.now);
  }

  lemma EventKeepsTable(cfg: Setup, s: State, i: nat, e: Effect, event: Event)
    requires TableInv(cfg, s.table, s.log) && i < |s.requests| && OneStatement(cfg, s, i, e) && e.events == [event]
    requires ReadingPast(s.requests[i].phase, s.seconds)
    requires PendingHome(s.requests, s.table) && (s.requests[i].phase.Bumping? ==> cfg.store.expire > 0)
    ensures TableInv(cfg, e.table, s.log + [event])
  {
    if event.Limited? {
      QuietSnoc(cfg, s.table, s.log, event);
    } else if event.Selected? {
      SelectionKeepsTable(cfg, s, i, e, event);
    } else if event.Inserted? {
      InsertionKeepsTable(cfg, s, i, e, event);
    } else if event.Updated? {
      UpdateKeepsTable(cfg, s.table, s.log, event);
    } else {
      DeletionKeepsTable(cfg, s, i, e);
    }
  }

  lemma StatementKeepsTable(cfg: Setup, s: State, i: nat, e: Effect)
    requires TableInv(cfg, s.table, s.log) && i < |s.requests| && OneStatement(cfg, s, i, e)
    requires ReadingPast(s.requests[i].phase, s.seconds)
    requires PendingHome(s.requests, s.table) && (s.requests[i].phase.Bumping? ==> cfg.store.expire > 0)
    ensures TableInv(cfg, e.table, s.log + e.events)
  {
    if e.events == [] {
      assert s.log + [] == s.log;
      SilenceKeepsTable(cfg, s, i, e);
    } else {
      assert e.events == [e.events[0]];
      EventKeepsTable(cfg, s, i, e, e.events[0]);
    }
  }

  // ---------------------------------------------------------------------------
  // Where the readings come from

  lemma TouchedSinceGrows(log: seq<Event>, events: seq<Event>)
    ensures forall id, reading :: TouchedSince(log, id, reading) ==> TouchedSince(log + events, id, reading)
  {
    forall id, reading | TouchedSince(log, id, reading)
      ensures TouchedSince(log + events, id, reading)
    {
      var p :| 0 <= p < |log| && Touches(log[p], id) && reading <= log[p].at;
      assert (log + events)[p] == log[p];
    }
  }

  lemma LastTouches(log: seq<Event>, e: Event, id: nat, reading: int)
    requires Touches(e, id) && reading <= e.at
    ensures TouchedSince(log + [e], id, reading)
  {
    assert (log + [e])[|log|] == e;
  }

  lemma StatementKeepsUpdates(cfg: Setup, s: State, i: nat, e: Effect)
    requires i < |s.requests| && OneStatement(cfg, s, i, e)
    requires UpdatesTouched(s.log) && PendingTouched(s.requests, s.log)
    ensures UpdatesTouched(s.log + e.events)
  {
    var log := s.log + e.events;
    forall p | 0 <= p < |log| && log[p].Updated?
      ensures TouchedSince(log[..p], log[p].id, log[p].now)
    {
      if p < |s.log| {
        assert log[..p] == s.log[..p];
      } else {
        assert log[..p] == s.log;
      }
    }
  }

  lemma ActKeepsPendingTouched(cfg: Setup, s: State, i: nat, pick: string)
    requires i < |s.requests| && PendingTouched(s.requests, s.log) && ReadingPast(s.requests[i].phase, s.seconds)
    ensures var e := Act(cfg, s, i, pick);
            PendingTouched(s.requests[i := s.requests[i].(phase := e.phase)], s.log + e.events)
  {
    var e := Act(cfg, s, i, pick);
    TouchedSinceGrows(s.log, e.events);
    if e.phase.Bumping? && !s.requests[i].phase.Bumping? {
      assert e.events == [e.events[0]];
      LastTouches(s.log, e.events[0], e.phase.id, e.phase.now);
    }
  }

  lemma ActKeepsPendingHome(cfg: Setup, s: State, i: nat, pick: string)
    requires i < |s.requests| && PendingHome(s.requests, s.table)
    ensures var e := Act(cfg, s, i, pick);
            PendingHome(s.requests[i := s.requests[i].(phase := e.phase)], e.table)
  {
    var e := Act(cfg, s, i, pick);
    ActIsOneStatement(cfg, s, i, pick);
    RowsKept(cfg, s, i, e);
    BumpBegins(cfg, s, i, pick);
  }

  // A statement keeps the ids below the counter to their pastes, and takes no
  // deadline away.
  lemma RowsKept(cfg: Setup, s: State, i: nat, e: Effect)
    requires i < |s.requests| && OneStatement(cfg, s, i, e)
    ensures s.table.nextId <= e.table.nextId
    ensures forall id: nat :: id < s.table.nextId && id in e.table.rows ==>
              && id in s.table.rows
              && e.table.rows[id] == s.table.rows[id].(expires := e.table.rows[id].expires)
              && (s.table.rows[id].expires.Some? ==> e.table.rows[id].expires.Some?)
  {
  }

  lemma BumpBegins(cfg: Setup, s: State, i: nat, pick: string)
    requires i < |s.requests|
    ensures var e := Act(cfg, s, i, pick);
            e.phase.Bumping? && e.phase != s.requests[i].phase ==>
              && e.table == s.table && e.phase.id in s.table.rows && e.phase.id < s.table.nextId
              && s.table.rows[e.phase.id].slug == e.phase.key && s.table.rows[e.phase.id].body == e.phase.body
              && s.table.rows[e.phase.id].expires.Some?
  {
  }

  // ---------------------------------------------------------------------------
  // Requests and limiter

  lemma ActKeepsRequests(cfg: Setup, s: State, i: nat, pick: string)
    requires i < |s.requests| && RequestInv(cfg, s.requests, s.log)
    ensures var e := Act(cfg, s, i, pick);
            RequestInv(cfg, s.requests[i := s.requests[i].(phase := e.phase)], s.log + e.events)
  {
    var e := Act(cfg, s, i, pick);
    var log, requests := s.log + e.events, s.requests[i := s.requests[i].(phase := e.phase)];
    forall k | 0 <= k < |requests|
      ensures RequestSound(cfg, log, k, requests[k])
    {
      assert RequestSound(cfg, s.log, k, s.requests[k]);
      SoundGrows(cfg, s.log, e.events, k, s.requests[k]);
      if k == i {
        if e.events != [] {
          assert log[|s.log|] == e.events[0];
        }
      }
    }
  }

  lemma SoundGrows(cfg: Setup, log: seq<Event>, events: seq<Event>, i: nat, r: Request)
    requires RequestSound(cfg, log, i, r)
    ensures RequestSound(cfg, log + events, i, r)
  {
    assert forall p :: 0 <= p < |log| ==> (log + events)[p] == log[p];
  }

  // A request that has been answered moves no more, so an insert stays answered.
  lemma ActKeepsAnswers(cfg: Setup, s: State, i: nat, pick: string)
    requires i < |s.requests| && InsertsAnswered(s.requests, s.log)
    ensures var e := Act(cfg, s, i, pick);
            InsertsAnswered(s.requests[i := s.requests[i].(phase := e.phase)], s.log + e.events)
  {
    var e := Act(cfg, s, i, pick);
    var log, requests := s.log + e.events, s.requests[i := s.requests[i].(phase := e.phase)];
    forall p | 0 <= p < |log|
      ensures InsertAnswered(requests, log[p])
    {
      if p < |s.log| {
        assert log[p] == s.log[p];
      } else {
        assert log[p] == e.events[p - |s.log|];
      }
    }
  }

  lemma CallsSnoc(log: seq<Event>, e: Event)
    ensures Calls(log + [e]) == Calls(log) + if e.Limited? then [e.call] else []
    ensures Oks(log + [e]) == Oks(log) + if e.Limited? then [e.ok] else []
    ensures !e.Limited? ==> Calls(log + [e]) == Calls(log) && Oks(log + [e]) == Oks(log)
  {
    assert (log + [e])[..|log|] == log;
  }

  lemma LimitKeepsLimiter(cfg: Setup, windows: L.Windows, log: seq<Event>, call: L.Call)
    requires LimiterInv(cfg, windows, log)
    ensures var (windows', ok) := L.Serve(cfg.limits, windows, call, true);
            LimiterInv(cfg, windows', log + [Limited(call, ok)])
  {
    var (windows', ok) := L.Serve(cfg.limits, windows, call, true);
    CallsSnoc(log, Limited(call, ok));
    L.RunAppend(cfg.limits, map[], Calls(log), [call], true);
    L.RunOne(cfg.limits, windows, call, true);
  }

  lemma StatementKeepsLimiter(cfg: Setup, s: State, i: nat, e: Effect)
    requires i < |s.requests| && OneStatement(cfg, s, i, e) && LimiterInv(cfg, s.windows, s.log)
    ensures LimiterInv(cfg, e.windows, s.log + e.events)
  {
    if e.events == [] {
      assert s.log + [] == s.log;
    } else {
      assert e.events == [e.events[0]];
      if e.events[0].Limited? {
        LimitKeepsLimiter(cfg, s.windows, s.log, e.events[0].call);
      } else {
        CallsSnoc(s.log, e.events[0]);
      }
    }
  }

  // ---------------------------------------------------------------------------
  // Every run

  lemma ActReadsPast(cfg: Setup, s: State, i: nat, pick: string)
    requires i < |s.requests| && ReadingPast(s.requests[i].phase, s.seconds)
    ensures ReadingPast(Act(cfg, s, i, pick).phase, s.seconds)
  {
  }

  lemma AdvanceKeepsInv(cfg: Setup, s: State, i: nat, pick: string)
    requires Inv(cfg, s) && i < |s.requests|
    ensures Inv(cfg, Apply(s, i, Act(cfg, s, i, pick)))
  {
    ActIsOneStatement(cfg, s, i, pick);
    ActKeepsPendingTouched(cfg, s, i, pick);
    ActKeepsPendingHome(cfg, s, i, pick);
    ActKeepsRequests(cfg, s, i, pick);
    ActKeepsAnswers(cfg, s, i, pick);
    ActReadsPast(cfg, s, i, pick);
    StatementKeepsInv(cfg, s, i, Act(cfg, s, i, pick));
  }

  lemma StatementKeepsInv(cfg: Setup, s: State, i: nat, e: Effect)
    requires Inv(cfg, s) && i < |s.requests| && OneStatement(cfg, s, i, e)
    requires PendingTouched(Apply(s, i, e).requests, s.log + e.events)
    requires PendingHome(Apply(s, i, e).requests, e.table)
    requires RequestInv(cfg, Apply(s, i, e).requests, s.log + e.events)
    requires InsertsAnswered(Apply(s, i, e).requests, s.log + e.events)
    requires ReadingPast(e.phase, s.seconds)
    ensures Inv(cfg, Apply(s, i, e))
  {
    assert RequestSound(cfg, s.log, i, s.requests[i]);
    StatementKeepsTable(cfg, s, i, e);
    StatementKeepsUpdates(cfg, s, i, e);
    StatementKeepsLimiter(cfg, s, i, e);
  }

  lemma ArriveKeepsInv(cfg: Setup, s: State, client: string, ask: Ask)
    requires Inv(cfg, s)
    ensures Inv(cfg, Next(cfg, s, Arrive(client, ask)))
  {
    var r := Request(client, ask, AtGate);
    assert RequestSound(cfg, s.log, |s.requests|, r);
    forall p | 0 <= p < |s.log|
      ensures InsertAnswered(s.requests + [r], s.log[p])
    {
      assert InsertAnswered(s.requests, s.log[p]);
    }
  }

  lemma NextKeepsInv(cfg: Setup, s: State, a: Action)
    requires Inv(cfg, s)
    ensures Inv(cfg, Next(cfg, s, a))
  {
    match a {
      case Tick(_, _) =>
      case Arrive(client, ask) => ArriveKeepsInv(cfg, s, client, ask);
      case Advance(i, pick) =>
        if i < |s.requests| {
          AdvanceKeepsInv(cfg, s, i, pick);
        }
    }
  }

  lemma {:induction false} RunKeepsInv(cfg: Setup, s: State, actions: seq<Action>)
    requires Inv(cfg, s)
    ensures Inv(cfg, Run(cfg, s, actions))
    decreases |actions|
  {
    if actions != [] {
      NextKeepsInv(cfg, s, actions[0]);
      RunKeepsInv(cfg, Next(cfg, s, actions[0]), actions[1..]);
    }
  }

  lemma StartTable(cfg: Setup, found: Table, key: string, document: Body, seconds: int, millis: int)
    requires Valid(found)
    ensures var s := Start(cfg, found, key, document, seconds, millis);
            TableInv(cfg, s.table, s.log)
  {
    InsertKeepsTable(cfg, found, [Opened(found.rows)], Preload, key, document, seconds, seconds);
    assert [Opened(found.rows)] + [] == [Opened(found.rows)];
  }

  lemma StartLimiter(cfg: Setup, log: seq<Event>)
    requires forall e <- log :: !e.Limited?
    ensures LimiterInv(cfg, map[], log)
    decreases |log|
  {
    if log != [] {
      var front, e := log[..|log| - 1], log[|log| - 1];
      StartLimiter(cfg, front);
      CallsSnoc(front, e);
      assert log == front + [e];
    }
  }

  lemma StartInv(cfg: Setup, found: Table, key: string, document: Body, seconds: int, millis: int)
    requires Valid(found)
    ensures Inv(cfg, Start(cfg, found, key, document, seconds, millis))
  {
    StartTable(cfg, found, key, document, seconds, millis);
    StartLimiter(cfg, Start(cfg, found, key, document, seconds, millis).log);
  }

  lemma Invariant(
      cfg: Setup, found: Table, key: string, document: Body, seconds: int, millis: int, actions: seq<Action>)
    requires Valid(found)
    ensures Inv(cfg, Run(cfg, Start(cfg, found, key, document, seconds, millis), actions))
  {
    StartInv(cfg, found, key, document, seconds, millis);
    RunKeepsInv(cfg, Start(cfg, found, key, document, seconds, millis), actions);
  }
}
