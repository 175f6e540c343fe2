// Particular runs: requests nobody disturbs get through, and two interleavings
// that break what only uninterrupted reads promise about deadlines.
module Scenarios {
  import opened Text
  import opened Pastes
  import opened Serving
  import opened Interleavings
  import opened Guarantees
  import L = RateLimits

  // The state with one more request, the last, in the given phase.
  function With(s: State, client: string, ask: Ask, phase: Phase): State {
    s.(requests := s.requests + [Request(client, ask, phase)])
  }

  // One step of the last request.
  lemma LastStep(cfg: Setup, s: State, client: string, ask: Ask, phase: Phase, pick: string)
    ensures var i, t := |s.requests|, With(s, client, ask, phase);
            var e := Act(cfg, t, i, pick);
            Next(cfg, t, Advance(i, pick))
            == With(s.(table := e.table, windows := e.windows, log := s.log + e.events), client, ask, e.phase)
  {
    var i, t := |s.requests|, With(s, client, ask, phase);
    var e := Act(cfg, t, i, pick);
    assert t.requests[i := t.requests[i].(phase := e.phase)] == s.requests + [Request(client, ask, e.phase)];
  }

  // A quiet step of the last request: only its phase moves.
  lemma QuietStep(cfg: Setup, s: State, client: string, ask: Ask, phase: Phase, phase': Phase, pick: string, n: nat)
    requires n > 0
    requires var t := With(s, client, ask, phase);
             Act(cfg, t, |s.requests|, pick) == Quiet(t, phase')
    ensures Run(cfg, With(s, client, ask, phase), Steps(|s.requests|, pick, n))
            == Run(cfg, With(s, client, ask, phase'), Steps(|s.requests|, pick, n - 1))
  {
    LastStep(cfg, s, client, ask, phase, pick);
    assert s.log + [] == s.log;
  }

  lemma LoudStep(cfg: Setup, s: State, client: string, ask: Ask, phase: Phase, pick: string, n: nat)
    requires n > 0
    ensures var t := With(s, client, ask, phase);
            var e := Act(cfg, t, |s.requests|, pick);
            Run(cfg, t, Steps(|s.requests|, pick, n))
            == Run(cfg, With(s.(table := e.table, windows := e.windows, log := s.log + e.events), client, ask, e.phase),
                   Steps(|s.requests|, pick, n - 1))
  {
    LastStep(cfg, s, client, ask, phase, pick);
  }

  // ---------------------------------------------------------------------------
  // Requests nobody disturbs

  // An answered request has nothing left to do.
  lemma {:induction false} Rests(cfg: Setup, s: State, client: string, ask: Ask, phase: Phase, pick: string, n: nat)
    requires Answered(phase)
    ensures Run(cfg, With(s, client, ask, phase), Steps(|s.requests|, pick, n)) == With(s, client, ask, phase)
    decreases n
  {
    if n > 0 {
      QuietStep(cfg, s, client, ask, phase, phase, pick, n);
      Rests(cfg, s, client, ask, phase, pick, n - 1);
    }
  }

  // What has become of the lone request of s after a run that ended in u.
  ghost predicate Ended(s: State, u: State, client: string, ask: Ask, phase: Phase, table: Table, windows: L.Windows) {
    && u.requests == s.requests + [Request(client, ask, phase)]
    && u.table == table && u.windows == windows && u.seconds == s.seconds && u.millis == s.millis
  }

  lemma FromBump(cfg: Setup, s: State, client: string, ask: Ask, key: string, id: nat, body: Body, now: int, n: nat)
    requires n >= 1
    ensures Ended(s, Run(cfg, With(s, client, ask, Bumping(key, id, body, now)), Steps(|s.requests|, "", n)),
                  client, ask, Fetched(key, Some(body)), Bump(s.table, id, now + cfg.store.expire), s.windows)
  {
    LoudStep(cfg, s, client, ask, Bumping(key, id, body, now), "", n);
    var e := Act(cfg, With(s, client, ask, Bumping(key, id, body, now)), |s.requests|, "");
    Rests(cfg, s.(table := e.table, log := s.log + e.events), client, ask, Fetched(key, Some(body)), "", n - 1);
  }

  // The SELECT of a GET: what it finds, and whether the UPDATE follows.
  lemma SelectStep(cfg: Setup, s: State, client: string, ask: Ask, key: string, bump: bool, now: int)
    ensures var t := With(s, client, ask, Selecting(key, bump, now));
            Act(cfg, t, |s.requests|, "") == Effect(
              match Select(s.table, key, now)
              case None => Fetched(key, None)
              case Some(id) =>
                if bump && cfg.store.expire > 0 && s.table.rows[id].expires.Some?
                then Bumping(key, id, s.table.rows[id].body, now)
                else Fetched(key, Some(s.table.rows[id].body)),
              s.table, s.windows, [SelectEvent(s, |s.requests|, key, bump, now)])
  {
  }

  lemma FromSelect(cfg: Setup, s: State, client: string, ask: Ask, key: string, bump: bool, n: nat)
    requires n >= 2
    ensures var (table, data) := Get(cfg.store, s.table, key, bump, s.seconds);
            Ended(s, Run(cfg, With(s, client, ask, Selecting(key, bump, s.seconds)), Steps(|s.requests|, "", n)),
                  client, ask, Fetched(key, data), table, s.windows)
  {
    hide Run, Act;
    var e := SelectEvent(s, |s.requests|, key, bump, s.seconds);
    var s1 := s.(log := s.log + [e]);
    SelectStep(cfg, s, client, ask, key, bump, s.seconds);
    LoudStep(cfg, s, client, ask, Selecting(key, bump, s.seconds), "", n);
    match Select(s.table, key, s.seconds) {
      case None => Rests(cfg, s1, client, ask, Fetched(key, None), "", n - 1);
      case Some(id) =>
        var body := s.table.rows[id].body;
        if bump && cfg.store.expire > 0 && s.table.rows[id].expires.Some? {
          FromBump(cfg, s1, client, ask, key, id, body, s.seconds, n - 1);
        } else {
          Rests(cfg, s1, client, ask, Fetched(key, Some(body)), "", n - 1);
        }
    }
  }

  lemma OpenGate(cfg: Setup, s: State, client: string, ask: Ask, pick: string, n: nat)
    requires n > 0 && !L.Active(cfg.limits, L.Requests)
    ensures Run(cfg, With(s, client, ask, AtGate), Steps(|s.requests|, pick, n))
            == Run(cfg, With(s, client, ask, Routed), Steps(|s.requests|, pick, n - 1))
  {
    QuietStep(cfg, s, client, ask, AtGate, Routed, pick, n);
  }

  lemma GateSteps(cfg: Setup, s: State, client: string, ask: Ask, pick: string, n: nat) returns (s1: State)
    requires n > 1 && L.Active(cfg.limits, L.Requests)
    ensures var (windows, ok) := L.Serve(cfg.limits, s.windows, L.Allow(client, s.millis), true);
            && s1 == s.(windows := windows, log := s1.log)
            && Run(cfg, With(s, client, ask, AtGate), Steps(|s.requests|, pick, n))
               == Run(cfg, With(s1, client, ask, if ok then Routed else Refused(429)), Steps(|s.requests|, pick, n - 2))
  {
    QuietStep(cfg, s, client, ask, AtGate, AtLimiter(s.millis), pick, n);
    LoudStep(cfg, s, client, ask, AtLimiter(s.millis), pick, n - 1);
    var (windows, ok) := L.Serve(cfg.limits, s.windows, L.Allow(client, s.millis), true);
    s1 := s.(windows := windows, log := s.log + [Limited(L.Allow(client, s.millis), ok)]);
  }

  lemma Arrives(cfg: Setup, s: State, client: string, ask: Ask, pick: string, n: nat)
    ensures Run(cfg, s, [Arrive(client, ask)] + Steps(|s.requests|, pick, n))
            == Run(cfg, With(s, client, ask, AtGate), Steps(|s.requests|, pick, n))
  {
    assert ([Arrive(client, ask)] + Steps(|s.requests|, pick, n))[1..] == Steps(|s.requests|, pick, n);
  }

  lemma RouteFetch(cfg: Setup, s: State, client: string, key: string, n: nat)
    requires n > 0
    ensures Run(cfg, With(s, client, Fetch(key), Routed), Steps(|s.requests|, "", n))
            == Run(cfg, With(s, client, Fetch(key), Selecting(key, key !in cfg.staticKeys, s.seconds)),
                   Steps(|s.requests|, "", n - 1))
  {
    QuietStep(cfg, s, client, Fetch(key), Routed, Selecting(key, key !in cfg.staticKeys, s.seconds), "", n);
  }

  lemma RoutePost(cfg: Setup, s: State, client: string, raw: Body, trusted: bool, pick: string, n: nat)
    requires n > 0
    ensures var body := ReadBody(raw, cfg.maxLength);
            Run(cfg, With(s, client, Post(raw, trusted), Routed), Steps(|s.requests|, pick, n))
            == Run(cfg, With(s, client, Post(raw, trusted),
                             if !trusted then Refused(403)
                             else if !Acceptable(body, cfg.maxLength) then Refused(400) else Charging(body, s.millis)),
                   Steps(|s.requests|, pick, n - 1))
  {
    var body := ReadBody(raw, cfg.maxLength);
    QuietStep(cfg, s, client, Post(raw, trusted), Routed,
              if !trusted then Refused(403)
              else if !Acceptable(body, cfg.maxLength) then Refused(400) else Charging(body, s.millis), pick, n);
  }

  lemma ChooseStep(cfg: Setup, s: State, client: string, ask: Ask, body: Body, stamp: int, key: string, n: nat)
    requires n > 0
    ensures Run(cfg, With(s, client, ask, Choosing(body, stamp)), Steps(|s.requests|, key, n))
            == Run(cfg, With(s, client, ask, Probing(body, stamp, key, s.seconds)), Steps(|s.requests|, key, n - 1))
  {
    QuietStep(cfg, s, client, ask, Choosing(body, stamp), Probing(body, stamp, key, s.seconds), key, n);
  }

  lemma ChargeStep(cfg: Setup, s: State, client: string, ask: Ask, body: Body, key: string, n: nat) returns (s1: State)
    requires n > 0
    ensures var (windows, ok) := L.Serve(cfg.limits, s.windows, L.Charge(client, |body|, s.millis), true);
            && s1 == s.(windows := windows, log := s1.log)
            && Run(cfg, With(s, client, ask, Charging(body, s.millis)), Steps(|s.requests|, key, n))
               == Run(cfg, With(s1, client, ask, if ok then Choosing(body, s.millis) else Refused(429)),
                      Steps(|s.requests|, key, n - 1))
  {
    LoudStep(cfg, s, client, ask, Charging(body, s.millis), key, n);
    var e := Act(cfg, With(s, client, ask, Charging(body, s.millis)), |s.requests|, key);
    s1 := s.(windows := e.windows, log := s.log + e.events);
  }

  lemma ProbeStep(cfg: Setup, s: State, client: string, ask: Ask, body: Body, stamp: int, key: string, n: nat)
      returns (s1: State)
    requires n > 0 && Select(s.table, key, s.seconds).None?
    ensures s1 == s.(log := s1.log)
    ensures Run(cfg, With(s, client, ask, Probing(body, stamp, key, s.seconds)), Steps(|s.requests|, key, n))
            == Run(cfg, With(s1, client, ask, Storing(body, stamp, key)), Steps(|s.requests|, key, n - 1))
  {
    LoudStep(cfg, s, client, ask, Probing(body, stamp, key, s.seconds), key, n);
    s1 := s.(log := s.log + [SelectEvent(s, |s.requests|, key, false, s.seconds)]);
  }

  // Past the middleware: one step or two, after which the request is routed or
  // refused.
  lemma ThroughGate(cfg: Setup, s: State, client: string, ask: Ask, pick: string, n: nat) returns (s1: State, k: nat)
    requires n >= 2
    ensures n - 2 <= k < n
    ensures var (windows, ok) := L.Serve(cfg.limits, s.windows, L.Allow(client, s.millis), true);
            && s1 == s.(windows := windows, log := s1.log)
            && Run(cfg, s, [Arrive(client, ask)] + Steps(|s.requests|, pick, n))
               == Run(cfg, With(s1, client, ask, if ok then Routed else Refused(429)), Steps(|s.requests|, pick, k))
  {
    hide Run, Act;
    Arrives(cfg, s, client, ask, pick, n);
    if L.Active(cfg.limits, L.Requests) {
      s1 := GateSteps(cfg, s, client, ask, pick, n);
      k := n - 2;
    } else {
      OpenGate(cfg, s, client, ask, pick, n);
      s1, k := s, n - 1;
    }
  }

  // A GET nobody disturbs is refused by the limiter, or returns what the two
  // statements of Get run back to back return, and leaves the table they leave.
  lemma UndisturbedFetch(cfg: Setup, s: State, client: string, key: string)
    ensures var i := |s.requests|;
            var u := Run(cfg, s, [Arrive(client, Fetch(key))] + Steps(i, "", 5));
            var (windows, ok) := L.Serve(cfg.limits, s.windows, L.Allow(client, s.millis), true);
            var (table, data) := Get(cfg.store, s.table, key, key !in cfg.staticKeys, s.seconds);
            if ok then Ended(s, u, client, Fetch(key), Fetched(key, data), table, windows)
            else Ended(s, u, client, Fetch(key), Refused(429), s.table, windows)
  {
    hide Run, Act;
    var s1, k := ThroughGate(cfg, s, client, Fetch(key), "", 5);
    if L.Serve(cfg.limits, s.windows, L.Allow(client, s.millis), true).1 {
      RouteFetch(cfg, s1, client, key, k);
      FromSelect(cfg, s1, client, Fetch(key), key, key !in cfg.staticKeys, k - 1);
    } else {
      Rests(cfg, s1, client, Fetch(key), Refused(429), "", k);
    }
  }

  // A step that answers the last request ends its run.
  lemma EndsWith(cfg: Setup, s: State, client: string, ask: Ask, phase: Phase, n: nat)
    requires n >= 1
    requires var u := Next(cfg, With(s, client, ask, phase), Advance(|s.requests|, ""));
             Answered(u.requests[|s.requests|].phase)
    ensures Run(cfg, With(s, client, ask, phase), Steps(|s.requests|, "", n))
            == Next(cfg, With(s, client, ask, phase), Advance(|s.requests|, ""))
  {
    var e := Act(cfg, With(s, client, ask, phase), |s.requests|, "");
    var s1 := s.(table := e.table, windows := e.windows, log := s.log + e.events);
    hide Act, Next, Run;
    LastStep(cfg, s, client, ask, phase, "");
    LoudStep(cfg, s, client, ask, phase, "", n);
    Rests(cfg, s1, client, ask, e.phase, "", n - 1);
  }

  // A DELETE nobody disturbs is refused by the limiter, for an empty or for a static
  // key; else it leaves no row of its key and every other row, and its answer says
  // whether there was one.
  lemma UndisturbedErase(cfg: Setup, s: State, client: string, key: string)
    ensures var u := Run(cfg, s, [Arrive(client, Erase(key))] + Steps(|s.requests|, "", 3));
            var (windows, ok) := L.Serve(cfg.limits, s.windows, L.Allow(client, s.millis), true);
            if !ok then Ended(s, u, client, Erase(key), Refused(429), s.table, windows)
            else if key == "" then Ended(s, u, client, Erase(key), Refused(400), s.table, windows)
            else if key in cfg.staticKeys then Ended(s, u, client, Erase(key), Refused(403), s.table, windows)
            else Ended(s, u, client, Erase(key), Erased(exists id <- s.table.rows :: s.table.rows[id].slug == key),
                       RowsWithout(s.table, key), windows)
  {
    hide Run, Act;
    var s1, k := ThroughGate(cfg, s, client, Erase(key), "", 3);
    if L.Serve(cfg.limits, s.windows, L.Allow(client, s.millis), true).1 {
      EraseStep(cfg, With(s1, client, Erase(key), Routed), |s.requests|, "");
      EndsWith(cfg, s1, client, Erase(key), Routed, k);
    } else {
      Rests(cfg, s1, client, Erase(key), Refused(429), "", k);
    }
  }

  // A purge nobody disturbs is refused by the limiter, or leaves precisely the rows
  // whose deadline is still ahead and answers how many are gone.
  lemma UndisturbedClean(cfg: Setup, s: State, client: string)
    ensures var u := Run(cfg, s, [Arrive(client, Clean)] + Steps(|s.requests|, "", 4));
            var (windows, ok) := L.Serve(cfg.limits, s.windows, L.Allow(client, s.millis), true);
            var left := RowsAhead(s.table, s.seconds);
            && |left.rows| <= |s.table.rows|
            && if ok then Ended(s, u, client, Clean, Cleaned(|s.table.rows| - |left.rows|), left, windows)
               else Ended(s, u, client, Clean, Refused(429), s.table, windows)
  {
    hide Run, Act, RowsAhead, L.Serve;
    var s1, k := ThroughGate(cfg, s, client, Clean, "", 4);
    PurgeStep(cfg, With(s1, client, Clean, Purging(s.seconds)), |s.requests|, "");
    if L.Serve(cfg.limits, s.windows, L.Allow(client, s.millis), true).1 {
      RouteClean(cfg, s1, client, k);
      EndsWith(cfg, s1, client, Clean, Purging(s.seconds), k - 1);
    } else {
      Rests(cfg, s1, client, Clean, Refused(429), "", k);
    }
  }

  lemma RouteClean(cfg: Setup, s: State, client: string, n: nat)
    requires n > 0
    ensures Run(cfg, With(s, client, Clean, Routed), Steps(|s.requests|, "", n))
            == Run(cfg, With(s, client, Clean, Purging(s.seconds)), Steps(|s.requests|, "", n - 1))
  {
    QuietStep(cfg, s, client, Clean, Routed, Purging(s.seconds), "", n);
  }

  // What the INSERT makes of the request.
  function Stored(cfg: Setup, s: State, key: string, body: Body, stamp: int): Phase {
    if Insert(cfg.store, s.table, key, body, s.seconds).1 then Created(body, stamp, key, s.table.nextId)
    else Refused(500)
  }

  lemma InsertEffect(cfg: Setup, s: State, client: string, ask: Ask, body: Body, stamp: int, key: string)
    ensures var e := Act(cfg, With(s, client, ask, Inserting(body, stamp, key, s.seconds)), |s.requests|, key);
            && e.phase == Stored(cfg, s, key, body, stamp)
            && e.table == Insert(cfg.store, s.table, key, body, s.seconds).0 && e.windows == s.windows
  {
  }

  lemma FromInsert(cfg: Setup, s: State, client: string, ask: Ask, body: Body, stamp: int, key: string, n: nat)
    requires n >= 1
    ensures Ended(s, Run(cfg, With(s, client, ask, Inserting(body, stamp, key, s.seconds)),
                         Steps(|s.requests|, key, n)),
                  client, ask, Stored(cfg, s, key, body, stamp),
                  Insert(cfg.store, s.table, key, body, s.seconds).0, s.windows)
  {
    hide Run, Act;
    InsertEffect(cfg, s, client, ask, body, stamp, key);
    LoudStep(cfg, s, client, ask, Inserting(body, stamp, key, s.seconds), key, n);
    var e := Act(cfg, With(s, client, ask, Inserting(body, stamp, key, s.seconds)), |s.requests|, key);
    var s1 := s.(table := e.table, log := s.log + e.events);
    Rests(cfg, s1, client, ask, Stored(cfg, s, key, body, stamp), key, n - 1);
  }

  lemma StoreStep(cfg: Setup, s: State, client: string, ask: Ask, body: Body, stamp: int, key: string, n: nat)
    requires n > 0
    ensures Run(cfg, With(s, client, ask, Storing(body, stamp, key)), Steps(|s.requests|, key, n))
            == Run(cfg, With(s, client, ask, Inserting(body, stamp, key, s.seconds)), Steps(|s.requests|, key, n - 1))
  {
    QuietStep(cfg, s, client, ask, Storing(body, stamp, key), Inserting(body, stamp, key, s.seconds), key, n);
  }

  lemma FromProbe(cfg: Setup, s: State, client: string, ask: Ask, body: Body, stamp: int, key: string, n: nat)
    requires n >= 3 && Select(s.table, key, s.seconds).None?
    ensures Ended(s, Run(cfg, With(s, client, ask, Probing(body, stamp, key, s.seconds)), Steps(|s.requests|, key, n)),
                  client, ask, Stored(cfg, s, key, body, stamp),
                  Insert(cfg.store, s.table, key, body, s.seconds).0, s.windows)
  {
    hide Run, Act;
    var s1 := ProbeStep(cfg, s, client, ask, body, stamp, key, n);
    StoreStep(cfg, s1, client, ask, body, stamp, key, n - 1);
    FromInsert(cfg, s1, client, ask, body, stamp, key, n - 2);
  }

  lemma FromChoosing(cfg: Setup, s: State, client: string, ask: Ask, body: Body, stamp: int, key: string, n: nat)
    requires n >= 4 && Select(s.table, key, s.seconds).None?
    ensures Ended(s, Run(cfg, With(s, client, ask, Choosing(body, stamp)), Steps(|s.requests|, key, n)),
                  client, ask, Stored(cfg, s, key, body, stamp),
                  Insert(cfg.store, s.table, key, body, s.seconds).0, s.windows)
  {
    hide Run, Act;
    ChooseStep(cfg, s, client, ask, body, stamp, key, n);
    FromProbe(cfg, s, client, ask, body, stamp, key, n - 1);
  }

  lemma FromPaidCharge(cfg: Setup, s: State, client: string, ask: Ask, body: Body, key: string, n: nat,
                       windows: L.Windows)
    requires n >= 5 && Select(s.table, key, s.seconds).None?
    requires (windows, true) == L.Serve(cfg.limits, s.windows, L.Charge(client, |body|, s.millis), true)
    ensures Ended(s, Run(cfg, With(s, client, ask, Charging(body, s.millis)), Steps(|s.requests|, key, n)),
                  client, ask, Stored(cfg, s, key, body, s.millis),
                  Insert(cfg.store, s.table, key, body, s.seconds).0, windows)
  {
    hide Run, Act;
    var s1 := ChargeStep(cfg, s, client, ask, body, key, n);
    var u := Run(cfg, With(s, client, ask, Charging(body, s.millis)), Steps(|s.requests|, key, n));
    FromChoosing(cfg, s1, client, ask, body, s.millis, key, n - 1);
  }

  lemma FromUnpaidCharge(cfg: Setup, s: State, client: string, ask: Ask, body: Body, key: string, n: nat,
                         windows: L.Windows)
    requires n >= 1
    requires (windows, false) == L.Serve(cfg.limits, s.windows, L.Charge(client, |body|, s.millis), true)
    ensures Ended(s, Run(cfg, With(s, client, ask, Charging(body, s.millis)), Steps(|s.requests|, key, n)),
                  client, ask, Refused(429), s.table, windows)
  {
    hide Run, Act;
    var s1 := ChargeStep(cfg, s, client, ask, body, key, n);
    Rests(cfg, s1, client, ask, Refused(429), key, n - 1);
  }

  // How a routed POST ends, its key not found by the probe: which answer it gets
  // when, and what it leaves in the table.
  ghost predicate PostEnds(cfg: Setup, s: State, u: State, client: string, raw: Body, trusted: bool, key: string) {
    var body := ReadBody(raw, cfg.maxLength);
    var (charged, paid) := L.Serve(cfg.limits, s.windows, L.Charge(client, |body|, s.millis), true);
    var fit := trusted && Acceptable(body, cfg.maxLength);
    && u.seconds == s.seconds && u.millis == s.millis
    && |u.requests| == |s.requests| + 1 && u.requests[..|s.requests|] == s.requests
    && var phase := u.requests[|s.requests|].phase;
    && (phase == Refused(403) <==> !trusted)
    && (phase == Refused(400) <==> trusted && !fit)
    && (phase == Refused(429) <==> fit && !paid)
    && (phase == Refused(500) <==> fit && paid && !Unused(s.table.rows, key))
    && (phase.Created? <==> fit && paid && Unused(s.table.rows, key))
    && (phase.Created? ==>
          && phase == Created(body, s.millis, key, s.table.nextId)
          && u.table == Table(s.table.rows[s.table.nextId := Row(key, body, s.seconds, NewDeadline(cfg, s.seconds))],
                              s.table.nextId + 1))
    && (!phase.Created? ==> u.table.rows == s.table.rows)
    && u.windows == if fit then charged else s.windows
  }

  lemma FromRoutedPost(cfg: Setup, s: State, client: string, raw: Body, trusted: bool, key: string, n: nat)
    requires n >= 6 && Valid(s.table) && Select(s.table, key, s.seconds).None?
    ensures PostEnds(cfg, s, Run(cfg, With(s, client, Post(raw, trusted), Routed), Steps(|s.requests|, key, n)),
                     client, raw, trusted, key)
  {
    hide Run, Act;
    var ask, body := Post(raw, trusted), ReadBody(raw, cfg.maxLength);
    RoutePost(cfg, s, client, raw, trusted, key, n);
    if !trusted {
      Rests(cfg, s, client, ask, Refused(403), key, n - 1);
    } else if !Acceptable(body, cfg.maxLength) {
      Rests(cfg, s, client, ask, Refused(400), key, n - 1);
    } else {
      var (charged, paid) := L.Serve(cfg.limits, s.windows, L.Charge(client, |body|, s.millis), true);
      if paid {
        FromPaidCharge(cfg, s, client, ask, body, key, n - 1, charged);
      } else {
        FromUnpaidCharge(cfg, s, client, ask, body, key, n - 1, charged);
      }
    }
  }

  function PostScript(i: nat, client: string, ask: Ask, key: string): seq<Action> {
    [Arrive(client, ask)] + Steps(i, key, 8)
  }

  // A POST nobody disturbs, drawing a key its probe does not find: refused by the
  // limiter, as cross-origin, for its body or by the byte budget; else the INSERT
  // decides between 201 and 500.
  lemma UndisturbedPost(cfg: Setup, s: State, client: string, raw: Body, trusted: bool, key: string)
    requires Valid(s.table) && Select(s.table, key, s.seconds).None?
    ensures var u := Run(cfg, s, PostScript(|s.requests|, client, Post(raw, trusted), key));
            var (windows, ok) := L.Serve(cfg.limits, s.windows, L.Allow(client, s.millis), true);
            if ok then PostEnds(cfg, s.(windows := windows), u, client, raw, trusted, key)
            else Ended(s, u, client, Post(raw, trusted), Refused(429), s.table, windows)
  {
    hide Run, Act;
    var (windows, ok) := L.Serve(cfg.limits, s.windows, L.Allow(client, s.millis), true);
    var s1, k := ThroughGate(cfg, s, client, Post(raw, trusted), key, 8);
    var u := Run(cfg, s, PostScript(|s.requests|, client, Post(raw, trusted), key));
    if ok {
      FromRoutedPost(cfg, s1, client, raw, trusted, key, k);
    } else {
      Rests(cfg, s1, client, Post(raw, trusted), Refused(429), key, k);
    }
  }

  // ---------------------------------------------------------------------------
  // Interleavings that go wrong

  const CFG := Setup(Config(10, SQLite), L.Params(0, 0, 0), 100, {"about"})

  // The beginning of a GET that will bump: up to its SELECT, the UPDATE pending.
  function FetchScript(i: nat, client: string, key: string): seq<Action> {
    [Arrive(client, Fetch(key))] + Steps(i, "", 3)
  }

  lemma NoSteps(cfg: Setup, s: State, i: nat, pick: string)
    ensures Run(cfg, s, Steps(i, pick, 0)) == s
  {
  }

  lemma FetchUpToSelect(s: State, client: string, key: string, id: nat)
    requires key !in CFG.staticKeys
    requires Select(s.table, key, s.seconds) == Some(id) && s.table.rows[id].expires.Some?
    ensures Ended(s, Run(CFG, s, FetchScript(|s.requests|, client, key)), client, Fetch(key),
                  Bumping(key, id, s.table.rows[id].body, s.seconds), s.table, s.windows)
  {
    hide Run, Act;
    Arrives(CFG, s, client, Fetch(key), "", 3);
    OpenGate(CFG, s, client, Fetch(key), "", 3);
    RouteFetch(CFG, s, client, key, 2);
    SelectStep(CFG, s, client, Fetch(key), key, true, s.seconds);
    LoudStep(CFG, s, client, Fetch(key), Selecting(key, true, s.seconds), "", 1);
    NoSteps(CFG, With(s.(log := s.log + [SelectEvent(s, |s.requests|, key, true, s.seconds)]), client, Fetch(key),
                      Bumping(key, id, s.table.rows[id].body, s.seconds)), |s.requests|, "");
  }

  // A paste posted at second 0, to expire at second 10.
  lemma PasteAtZero() returns (x: Execution)
    ensures x.cfg == CFG && |Final(x).requests| == 1
    ensures Final(x).seconds == 0 && Final(x).table.nextId == 3
    ensures 2 in Final(x).table.rows && Final(x).table.rows[2] == Row("k", [97], 0, Some(10))
    ensures Find(Final(x).table.rows, "k", 3) == Some(2)
  {
    var raw: Body := [97];
    var s := Start(CFG, EMPTY, "about", [98], 0, 0);
    x := Launch(CFG, EMPTY, "about", [98], 0, 0, PostScript(0, "c", Post(raw, true), "k"));
    assert Find(EMPTY.rows, "about", 1).None?;
    assert s.table == Table(map[1 := Row("about", [98], 0, Some(10))], 2);
    assert Find(s.table.rows, "k", 1).None?;
    assert ReadBody(raw, 100) == raw && SpaceAt(raw) == 0;
    StartInv(CFG, EMPTY, "about", [98], 0, 0);
    UndisturbedPost(CFG, s, "c", raw, true, "k");
  }

  lemma Extend(x: Execution, more: seq<Action>) returns (y: Execution)
    ensures y == x.(actions := x.actions + more)
    ensures Final(y) == Run(x.cfg, Final(x), more)
  {
    y := x.(actions := x.actions + more);
    RunAppend(x.cfg, Begin(x), x.actions, more);
  }

  lemma Wait(x: Execution, seconds: nat) returns (y: Execution)
    ensures y.cfg == x.cfg && Final(y) == Final(x).(seconds := Final(x).seconds + seconds)
  {
    y := Extend(x, [Tick(seconds, 0)]);
    RunOne(x.cfg, Final(x), Tick(seconds, 0));
  }

  lemma BeginFetch(x: Execution) returns (y: Execution)
    requires x.cfg == CFG && Final(x).table.nextId == 3 && 2 in Final(x).table.rows
    requires Find(Final(x).table.rows, "k", 3) == Some(2)
    requires Final(x).table.rows[2].expires.Some? && Live(Final(x).table.rows[2], Final(x).seconds)
    ensures y.cfg == CFG && Final(y).table == Final(x).table && Final(y).seconds == Final(x).seconds
    ensures Final(y).requests == Final(x).requests + [Request("c", Fetch("k"),
                                   Bumping("k", 2, Final(x).table.rows[2].body, Final(x).seconds))]
  {
    y := Extend(x, FetchScript(|Final(x).requests|, "c", "k"));
    FetchUpToSelect(Final(x), "c", "k", 2);
  }

  // A bump whose UPDATE comes late brings an expired paste back to life.
  lemma StaleBumpRevives() returns (x: Execution, i: nat)
    ensures var before, after := Final(x), Final(Then(x, Advance(i, "")));
            && 2 in before.table.rows && 2 in after.table.rows && after.seconds == before.seconds
            && !Live(before.table.rows[2], before.seconds) && Live(after.table.rows[2], after.seconds)
  {
    hide Run, Act;
    i := 1;
    var x0 := PasteAtZero();
    var x1 := Wait(x0, 9);
    var x2 := BeginFetch(x1);
    x := Wait(x2, 6);
    FinalThen(x, Advance(1, ""));
    BumpStep(CFG, Final(x), 1, "");
  }

  // Of two overlapping reads the earlier one can undo the later one's extension.
  lemma StaleBumpShortens() returns (x: Execution, i: nat)
    ensures var before, after := Final(x), Final(Then(x, Advance(i, "")));
            && 2 in before.table.rows && 2 in after.table.rows
            && before.table.rows[2].expires == Some(15) && after.table.rows[2].expires == Some(11)
  {
    hide Run, Act;
    i := 1;
    var x0 := PasteAtZero();
    var x1 := Wait(x0, 1);
    var x2 := BeginFetch(x1);
    var x3 := Wait(x2, 4);
    var x4 := BeginFetch(x3);
    x := Extend(x4, [Advance(2, "")]);
    RunOne(CFG, Final(x4), Advance(2, ""));
    BumpStep(CFG, Final(x4), 2, "");
    FinalThen(x, Advance(1, ""));
    BumpStep(CFG, Final(x), 1, "");
  }

  // A row kept from a time with a longer lifetime: one read that nobody disturbs
  // brings its deadline from 1000 down to 15.
  lemma FoundDeadlineShortens() returns (x: Execution)
    ensures x.found == Table(map[1 := Row("k", [97], 0, Some(1000))], 2) && x.cfg.store.expire == 10
    ensures |Final(x).requests| == 1 && Final(x).seconds == 5
    ensures 1 in Final(x).table.rows && Final(x).table.rows[1].expires == Some(15)
  {
    var found := Table(map[1 := Row("k", [97], 0, Some(1000))], 2);
    assert Find(found.rows, "about", 2).None?;
    var s := Start(CFG, found, "about", [98], 5, 0);
    assert s.table.rows == map[1 := Row("k", [97], 0, Some(1000)), 2 := Row("about", [98], 5, Some(15))];
    assert Find(s.table.rows, "k", 3) == Some(1);
    x := Launch(CFG, found, "about", [98], 5, 0, [Arrive("c", Fetch("k"))] + Steps(0, "", 5));
    hide Run, Act;
    UndisturbedFetch(CFG, s, "c", "k");
  }

  // The beginning of a POST: up to its probe, which finds the key free.
  lemma PostUpToProbe(s: State, raw: Body, key: string)
    requires Acceptable(ReadBody(raw, CFG.maxLength), CFG.maxLength) && Select(s.table, key, s.seconds).None?
    ensures var ask, body := Post(raw, true), ReadBody(raw, CFG.maxLength);
            Ended(s, Run(CFG, s, [Arrive("c", ask)] + Steps(|s.requests|, key, 5)), "c", ask,
                  Storing(body, s.millis, key), s.table, s.windows)
  {
    hide Run, Act;
    var ask, body := Post(raw, true), ReadBody(raw, CFG.maxLength);
    Arrives(CFG, s, "c", ask, key, 5);
    OpenGate(CFG, s, "c", ask, key, 5);
    RoutePost(CFG, s, "c", raw, true, key, 4);
    var s1 := ChargeStep(CFG, s, "c", ask, body, key, 3);
    ChooseStep(CFG, s1, "c", ask, body, s.millis, key, 2);
    var s2 := ProbeStep(CFG, s1, "c", ask, body, s.millis, key, 1);
    NoSteps(CFG, With(s2, "c", ask, Storing(body, s.millis, key)), |s.requests|, key);
  }

  lemma StoringStep(cfg: Setup, s: State, i: nat, body: Body, stamp: int, key: string)
    requires i < |s.requests| && s.requests[i].phase == Storing(body, stamp, key)
    ensures var u := Next(cfg, s, Advance(i, ""));
            && u.requests == s.requests[i := s.requests[i].(phase := Inserting(body, stamp, key, s.seconds))]
            && u.table == s.table && u.seconds == s.seconds
  {
  }

  // One POST that has found "k" free.
  lemma ProbedFree() returns (x: Execution)
    ensures x.cfg == CFG
    ensures var s := Final(x);
            && s.requests == [Request("c", Post([97], true), Storing([97], 0, "k"))]
            && s.table == Table(map[1 := Row("about", [98], 0, Some(10))], 2) && s.seconds == 0 && s.millis == 0
  {
    var raw: Body := [97];
    var ask := Post(raw, true);
    var s0 := Start(CFG, EMPTY, "about", [98], 0, 0);
    assert Find(EMPTY.rows, "about", 1).None?;
    assert s0.table == Table(map[1 := Row("about", [98], 0, Some(10))], 2);
    assert Find(s0.table.rows, "k", 1).None?;
    assert ReadBody(raw, 100) == raw && SpaceAt(raw) == 0;
    x := Launch(CFG, EMPTY, "about", [98], 0, 0, [Arrive("c", ask)] + Steps(0, "k", 5));
    PostUpToProbe(s0, raw, "k");
  }

  // And another that has stored it since.
  lemma Overtaken() returns (x: Execution)
    ensures x.cfg == CFG
    ensures var s := Final(x);
            && |s.requests| == 2 && s.requests[0].phase == Storing([97], 0, "k") && s.requests[1].phase.Created?
            && s.seconds == 0 && s.table.nextId == 3
            && s.table.rows == map[1 := Row("about", [98], 0, Some(10)), 2 := Row("k", [97], 0, Some(10))]
  {
    hide Run, Act;
    var raw: Body := [97];
    var x1 := ProbedFree();
    var s1 := Final(x1);
    assert ReadBody(raw, 100) == raw && SpaceAt(raw) == 0;
    assert Find(s1.table.rows, "k", 1).None?;
    x := Extend(x1, PostScript(1, "c", Post(raw, true), "k"));
    UndisturbedPost(CFG, s1, "c", raw, true, "k");
    assert Final(x).requests[..1] == s1.requests && Final(x).requests[0] == Final(x).requests[..1][0];
  }

  lemma InsertRefused(cfg: Setup, s: State, i: nat, body: Body, stamp: int, key: string, now: int)
    requires i < |s.requests| && s.requests[i].phase == Inserting(body, stamp, key, now)
    requires Find(s.table.rows, key, s.table.nextId).Some?
    ensures var u := Next(cfg, s, Advance(i, ""));
            && u.requests == s.requests[i := s.requests[i].(phase := Refused(500))]
            && u.table.rows == s.table.rows && u.seconds == s.seconds
  {
  }

  // Two POSTs that draw the same key, the second overtaking the first between its
  // probe and its INSERT: the first fails although nothing has expired.
  lemma RacedPostFails() returns (x: Execution)
    ensures var s := Final(x);
            && |s.requests| == 2 && s.requests[0].phase == Refused(500) && s.requests[1].phase.Created?
            && forall id <- s.table.rows :: Live(s.table.rows[id], s.seconds)
  {
    hide Run, Act;
    var x2 := Overtaken();
    var s2 := Final(x2);
    var x3 := Extend(x2, [Advance(0, "")]);
    RunOne(CFG, s2, Advance(0, ""));
    StoringStep(CFG, s2, 0, [97], 0, "k");
    x := Extend(x3, [Advance(0, "")]);
    RunOne(CFG, Final(x3), Advance(0, ""));
    assert Find(s2.table.rows, "k", 3) == Some(2);
    InsertRefused(CFG, Final(x3), 0, [97], 0, "k", 0);
  }
}
