// The running server (internal/handler, internal/store/sqlite.go and postgres.go):
// any number of requests in flight, their steps interleaved in any order.
module Serving {
  import opened Text
  import opened Pastes
  import L = RateLimits

  datatype Setup = Setup(store: Config, limits: L.Params, maxLength: int, staticKeys: set<string>)

  // Routed requests; `trusted` is the verdict of the cross-origin check, and a
  // fetched key is the id with its display extension already stripped.
  datatype Ask =
    | Post(raw: Body, trusted: bool)
    | Fetch(key: string)
    | Erase(key: string)
    | Clean

  datatype Phase =
    | AtGate
    | AtLimiter(stamp: int)
    | Routed
    // creating a paste
    | Charging(body: Body, stamp: int)
    | Choosing(body: Body, stamp: int)
    | Probing(body: Body, stamp: int, key: string, now: int)
    | Storing(body: Body, stamp: int, key: string)
    | Inserting(body: Body, stamp: int, key: string, now: int)
    | Created(body: Body, stamp: int, key: string, id: nat)
    // reading a paste
    | Selecting(key: string, bump: bool, now: int)
    | Bumping(key: string, id: nat, body: Body, now: int)
    | Fetched(key: string, data: Option<Body>)
    // administration
    | Purging(now: int)
    | Erased(found: bool)
    | Cleaned(n: nat)
    | Refused(status: nat)

  predicate Answered(phase: Phase) {
    phase.Created? || phase.Fetched? || phase.Erased? || phase.Cleaned? || phase.Refused?
  }

  datatype Request = Request(client: string, ask: Ask, phase: Phase)

  datatype Hit = Hit(id: nat, body: Body)

  // Who an inserted paste comes from: the start of the server, or a request of a
  // client, charged at the limiter time `stamp`.
  datatype Author = Preload | Poster(req: nat, client: string, stamp: int)

  datatype Cause = Erasing(key: string) | Expiry(now: int)

  // What happened, in order; the rows found in the database come first. `at` is the
  // store clock when the statement ran, `now` the earlier reading it was given, and
  // `expires` or `deadline` what it writes.
  datatype Event =
    | Opened(rows: map<nat, Row>)
    | Limited(call: L.Call, ok: bool)
    | Inserted(author: Author, id: nat, key: string, body: Body, now: int, expires: Option<int>, at: int)
    | Selected(reader: nat, key: string, bump: bool, now: int, hit: Option<Hit>, at: int)
    | Updated(reader: nat, id: nat, now: int, deadline: int, at: int)
    | Removed(cause: Cause, ids: set<nat>)

  // Two clocks: the store reads whole seconds, the limiter a finer one.
  datatype State = State(
    table: Table,
    windows: L.Windows,
    seconds: int,
    millis: int,
    requests: seq<Request>,
    log: seq<Event>)

  datatype Action =
    | Tick(seconds: nat, millis: nat)
    | Arrive(client: string, ask: Ask)
    | Advance(i: nat, pick: string)

  // ---------------------------------------------------------------------------
  // The body of a raw POST

  // Bytes of a white space character at the front of b, or 0 (UTF-8).
  function SpaceAt(b: Body): (n: nat)
    ensures n <= |b|
  {
    if |b| >= 1 && (9 <= b[0] <= 13 || b[0] == 32) then 1
    else if |b| >= 2 && b[0] == 0xC2 && b[1] in {0x85, 0xA0} then 2
    else if |b| >= 3 && b[..3] == [0xE1, 0x9A, 0x80] then 3
    else if |b| >= 3 && b[0] == 0xE2 && b[1] == 0x80 && (0x80 <= b[2] <= 0x8A || b[2] in {0xA8, 0xA9, 0xAF}) then 3
    else if |b| >= 3 && b[..3] in {[0xE2, 0x81, 0x9F], [0xE3, 0x80, 0x80]} then 3
    else 0
  }

  // strings.TrimSpace(data) == ""
  predicate BlankBody(b: Body)
    decreases |b|
  {
    b == [] || (SpaceAt(b) > 0 && BlankBody(b[SpaceAt(b)..]))
  }

  // readBody: at most one byte past the limit is read.
  function ReadBody(raw: Body, maxLength: int): Body {
    Take(raw, maxLength + 1)
  }

  predicate Acceptable(body: Body, maxLength: int) {
    !(maxLength > 0 && |body| > maxLength) && !BlankBody(body)
  }

  // ---------------------------------------------------------------------------
  // Steps: what happens without giving way, which is one clock reading, one critical
  // section of the limiter, or one SQL statement.

  datatype Effect = Effect(phase: Phase, table: Table, windows: L.Windows, events: seq<Event>)

  function Quiet(s: State, phase: Phase): Effect {
    Effect(phase, s.table, s.windows, [])
  }

  // The middleware and chargeBytes: one critical section of the limiter.
  function Limit(cfg: Setup, s: State, call: L.Call, passed: Phase): Effect {
    var (windows, ok) := L.Serve(cfg.limits, s.windows, call, true);
    Effect(if ok then passed else Refused(429), s.table, windows, [Limited(call, ok)])
  }

  function SelectEvent(s: State, i: nat, key: string, bump: bool, now: int): Event {
    var hit := match Select(s.table, key, now)
      case Some(id) => Some(Hit(id, s.table.rows[id].body))
      case None => None;
    Selected(i, key, bump, now, hit, s.seconds)
  }

  function NewDeadline(cfg: Setup, now: int): Option<int> {
    if cfg.store.expire > 0 then Some(now + cfg.store.expire) else None
  }

  // What the next step of request i does. `pick` is the key the generator returns.
  function Act(cfg: Setup, s: State, i: nat, pick: string): Effect
    requires i < |s.requests|
  {
    var r := s.requests[i];
    match r.phase
    case AtGate => Quiet(s, if L.Active(cfg.limits, L.Requests) then AtLimiter(s.millis) else Routed)
    case AtLimiter(stamp) => Limit(cfg, s, L.Allow(r.client, stamp), Routed)
    case Routed => (
      match r.ask
      case Post(raw, trusted) =>
        var body := ReadBody(raw, cfg.maxLength);
        Quiet(s, if !trusted then Refused(403)
                 else if !Acceptable(body, cfg.maxLength) then Refused(400)
                 else Charging(body, s.millis))
      case Fetch(key) => Quiet(s, Selecting(key, key !in cfg.staticKeys, s.seconds))
      case Erase(key) =>
        if key == "" then Quiet(s, Refused(400))
        else if key in cfg.staticKeys then Quiet(s, Refused(403))
        else
          var gone := SlugIds(s.table, key);
          Effect(Erased(gone != {}), DeleteSlug(s.table, key), s.windows, [Removed(Erasing(key), gone)])
      case Clean => Quiet(s, Purging(s.seconds)))
    case Charging(body, stamp) =>
      if L.Active(cfg.limits, L.Bytes) then Limit(cfg, s, L.Charge(r.client, |body|, stamp), Choosing(body, stamp))
      else Quiet(s, Choosing(body, stamp))
    case Choosing(body, stamp) => Quiet(s, Probing(body, stamp, pick, s.seconds))
    case Probing(body, stamp, key, now) =>
      var e := SelectEvent(s, i, key, false, now);
      Effect(if e.hit.Some? then Choosing(body, stamp) else Storing(body, stamp, key), s.table, s.windows, [e])
    case Storing(body, stamp, key) => Quiet(s, Inserting(body, stamp, key, s.seconds))
    case Inserting(body, stamp, key, now) =>
      var (table, ok) := Insert(cfg.store, s.table, key, body, now);
      if ok then
        Effect(Created(body, stamp, key, s.table.nextId), table, s.windows,
               [Inserted(Poster(i, r.client, stamp), s.table.nextId, key, body, now, NewDeadline(cfg, now), s.seconds)])
      else Effect(Refused(500), table, s.windows, [])
    case Selecting(key, bump, now) =>
      var e := SelectEvent(s, i, key, bump, now);
      var phase := match e.hit
        case None => Fetched(key, None)
        case Some(Hit(id, body)) =>
          if bump && cfg.store.expire > 0 && s.table.rows[id].expires.Some?
          then Bumping(key, id, body, now)
          else Fetched(key, Some(body));
      Effect(phase, s.table, s.windows, [e])
    case Bumping(key, id, body, now) =>
      var expires := now + cfg.store.expire;
      Effect(Fetched(key, Some(body)), Bump(s.table, id, expires), s.windows, [Updated(i, id, now, expires, s.seconds)])
    case Purging(now) =>
      var gone := ExpiredIds(s.table, now);
      Effect(Cleaned(|gone|), Purge(s.table, now), s.windows, [Removed(Expiry(now), gone)])
    case _ => Quiet(s, r.phase)
  }

  function Apply(s: State, i: nat, e: Effect): State
    requires i < |s.requests|
  {
    s.(table := e.table, windows := e.windows, log := s.log + e.events,
       requests := s.requests[i := s.requests[i].(phase := e.phase)])
  }

  function Next(cfg: Setup, s: State, a: Action): State {
    match a
    case Tick(seconds, millis) => s.(seconds := s.seconds + seconds, millis := s.millis + millis)
    case Arrive(client, ask) => s.(requests := s.requests + [Request(client, ask, AtGate)])
    case Advance(i, pick) =>
      if i >= |s.requests| then s
      else
        var e := Act(cfg, s, i, pick);
        Apply(s, i, e)
  }

  // The server starts on the database it finds and preloads one document, which an
  // existing row with its key, live or expired, keeps out.
  function Start(cfg: Setup, found: Table, key: string, document: Body, seconds: int, millis: int): State {
    var (table, ok) := Insert(cfg.store, found, key, document, seconds);
    State(table, map[], seconds, millis, [],
          [Opened(found.rows)]
          + if ok then [Inserted(Preload, found.nextId, key, document, seconds, NewDeadline(cfg, seconds), seconds)]
            else [])
  }

  function Run(cfg: Setup, s: State, actions: seq<Action>): State
    decreases |actions|
  {
    if actions == [] then s else Run(cfg, Next(cfg, s, actions[0]), actions[1..])
  }

  // n steps of request i in a row, each offered the same key.
  function Steps(i: nat, pick: string, n: nat): seq<Action> {
    if n == 0 then [] else [Advance(i, pick)] + Steps(i, pick, n - 1)
  }

  // ---------------------------------------------------------------------------
  // What the log says

  // The rows found or inserted and not removed since, with the deadline written last.
  function Survivors(log: seq<Event>): map<nat, Row> {
    if log == [] then map[] else After(Survivors(log[..|log| - 1]), log[|log| - 1])
  }

  function After(alive: map<nat, Row>, e: Event): map<nat, Row> {
    match e
    case Opened(rows) => rows
    case Inserted(_, id, key, body, now, expires, _) => alive[id := Row(key, body, now, expires)]
    case Updated(_, id, _, deadline, _) =>
      if id in alive then alive[id := alive[id].(expires := Some(deadline))] else alive
    case Removed(_, ids) => alive - ids
    case _ => alive
  }

  lemma SurvivorsSnoc(log: seq<Event>, e: Event)
    ensures Survivors(log + [e]) == After(Survivors(log), e)
  {
    assert (log + [e])[..|log|] == log;
  }

  predicate Unused(alive: map<nat, Row>, key: string) {
    forall id <- alive :: alive[id].slug != key
  }

  predicate NothingToFind(alive: map<nat, Row>, key: string, now: int) {
    forall id <- alive :: alive[id].slug == key ==> !Live(alive[id], now)
  }

  // What each statement meets: an INSERT an unused key, a SELECT the live row of its
  // key or none, an UPDATE no row without a deadline, a DELETE precisely the rows it
  // is for. Nothing precedes the rows found.
  ghost predicate EventSound(cfg: Setup, alive: map<nat, Row>, e: Event) {
    match e
    case Opened(_) => alive == map[]
    case Inserted(_, id, key, _, now, expires, at) =>
      id !in alive && Unused(alive, key) && now <= at && expires == NewDeadline(cfg, now)
    case Selected(_, key, _, now, Some(hit), _) =>
      hit.id in alive && alive[hit.id].slug == key && alive[hit.id].body == hit.body && Live(alive[hit.id], now)
    case Selected(_, key, _, now, None, _) => NothingToFind(alive, key, now)
    case Updated(_, id, now, deadline, _) =>
      && cfg.store.expire > 0 && deadline == now + cfg.store.expire
      && (id in alive ==> alive[id].expires.Some?)
    case Removed(Erasing(key), ids) => ids == set id | id in alive && alive[id].slug == key
    case Removed(Expiry(now), ids) => ids == set id | id in alive && !Live(alive[id], now)
    case Limited(_, _) => true
  }

  ghost predicate LogSound(cfg: Setup, log: seq<Event>) {
    forall p :: 0 <= p < |log| ==> EventSound(cfg, Survivors(log[..p]), log[p])
  }

  // The row appears with this event: found, or inserted.
  predicate Introduces(e: Event, id: nat) {
    (e.Opened? && id in e.rows) || (e.Inserted? && e.id == id)
  }

  // Ids are handed out in increasing order and never twice.
  ghost predicate IdsIncrease(log: seq<Event>, nextId: nat) {
    && (forall p, id: nat :: 0 <= p < |log| && Introduces(log[p], id) ==> id < nextId)
    && (forall p, q, a: nat, b: nat :: 0 <= p < q < |log| && Introduces(log[p], a) && Introduces(log[q], b) ==> a < b)
  }

  // A touch of a paste: storing it, or a SELECT that will slide its deadline.
  predicate Touches(e: Event, id: nat) {
    match e
    case Inserted(_, k, _, _, _, _, _) => k == id
    case Selected(_, _, bump, _, Some(hit), _) => bump && hit.id == id
    case _ => false
  }

  // Some touch of id is no older than the reading.
  ghost predicate TouchedSince(log: seq<Event>, id: nat, reading: int) {
    exists p :: 0 <= p < |log| && Touches(log[p], id) && reading <= log[p].at
  }

  // Every UPDATE stems from a SELECT of the same paste.
  ghost predicate UpdatesTouched(log: seq<Event>) {
    forall p :: 0 <= p < |log| && log[p].Updated? ==> TouchedSince(log[..p], log[p].id, log[p].now)
  }

  // ---------------------------------------------------------------------------
  // The invariants

  // A clock reading a request holds lies in the past.
  predicate ReadingPast(phase: Phase, seconds: int) {
    match phase
    case Probing(_, _, _, now) => now <= seconds
    case Inserting(_, _, _, now) => now <= seconds
    case Selecting(_, _, now) => now <= seconds
    case Bumping(_, _, _, now) => now <= seconds
    case Purging(now) => now <= seconds
    case _ => true
  }

  predicate ReadingsPast(requests: seq<Request>, seconds: int) {
    forall i :: 0 <= i < |requests| ==> ReadingPast(requests[i].phase, seconds)
  }

  // The table is what the log says it is.
  ghost predicate TableInv(cfg: Setup, t: Table, log: seq<Event>) {
    && Valid(t)
    && t.rows == Survivors(log)
    && LogSound(cfg, log)
    && IdsIncrease(log, t.nextId)
  }

  // A pending UPDATE stems from a SELECT of the same paste, too.
  ghost predicate PendingTouched(requests: seq<Request>, log: seq<Event>) {
    forall i :: 0 <= i < |requests| && requests[i].phase.Bumping? ==>
      TouchedSince(log, requests[i].phase.id, requests[i].phase.now)
  }

  // The row a pending UPDATE is for is the one selected, if it is still there, and
  // it has a deadline.
  ghost predicate PendingHome(requests: seq<Request>, t: Table) {
    forall i :: 0 <= i < |requests| && requests[i].phase.Bumping? ==>
      var phase := requests[i].phase;
      && phase.id < t.nextId
      && (phase.id in t.rows ==>
            t.rows[phase.id].slug == phase.key && t.rows[phase.id].body == phase.body && t.rows[phase.id].expires.Some?)
  }

  // What each request holds is what it was asked for, and what the log shows.
  ghost predicate RequestSound(cfg: Setup, log: seq<Event>, i: nat, r: Request) {
    match r.phase
    case Charging(body, _) => FullBody(cfg, r.ask, body)
    case Choosing(body, _) => FullBody(cfg, r.ask, body)
    case Probing(body, _, _, _) => FullBody(cfg, r.ask, body)
    case Storing(body, _, key) =>
      FullBody(cfg, r.ask, body) && exists p :: 0 <= p < |log| && IsFreeProbe(log[p], i, key)
    case Inserting(body, _, key, _) =>
      FullBody(cfg, r.ask, body) && exists p :: 0 <= p < |log| && IsFreeProbe(log[p], i, key)
    case Created(body, stamp, key, id) =>
      && FullBody(cfg, r.ask, body)
      && exists p :: 0 <= p < |log| && IsInsert(log[p], Poster(i, r.client, stamp), id, key, body)
    case Selecting(key, bump, _) => r.ask == Fetch(key) && (bump <==> key !in cfg.staticKeys)
    case Bumping(key, id, body, _) =>
      && r.ask == Fetch(key) && key !in cfg.staticKeys && cfg.store.expire > 0
      && exists p :: 0 <= p < |log| && IsHit(log[p], i, key, Hit(id, body))
    case Fetched(key, Some(body)) =>
      r.ask == Fetch(key) && exists p, id :: 0 <= p < |log| && IsHit(log[p], i, key, Hit(id, body))
    case Fetched(key, None) => r.ask == Fetch(key)
    case _ => true
  }

  predicate IsInsert(e: Event, author: Author, id: nat, key: string, body: Body) {
    e.Inserted? && e.author == author && e.id == id && e.key == key && e.body == body
  }

  predicate IsHit(e: Event, i: nat, key: string, hit: Hit) {
    e.Selected? && e.reader == i && e.key == key && e.hit == Some(hit)
  }

  // A probe of request i that found the key free.
  predicate IsFreeProbe(e: Event, i: nat, key: string) {
    e.Selected? && e.reader == i && e.key == key && !e.bump && e.hit == None
  }

  predicate FullBody(cfg: Setup, ask: Ask, body: Body) {
    && ask.Post? && ask.trusted
    && body == ReadBody(ask.raw, cfg.maxLength)
    && Acceptable(body, cfg.maxLength)
  }

  ghost predicate RequestInv(cfg: Setup, requests: seq<Request>, log: seq<Event>) {
    forall i :: 0 <= i < |requests| ==> RequestSound(cfg, log, i, requests[i])
  }

  // An insert by a request is the one that request was answered with.
  predicate InsertAnswered(requests: seq<Request>, e: Event) {
    e.Inserted? && e.author.Poster? ==>
      && e.author.req < |requests|
      && requests[e.author.req].client == e.author.client
      && requests[e.author.req].phase == Created(e.body, e.author.stamp, e.key, e.id)
  }

  ghost predicate InsertsAnswered(requests: seq<Request>, log: seq<Event>) {
    forall p :: 0 <= p < |log| ==> InsertAnswered(requests, log[p])
  }

  // The calls that reached the limiter, in the order of its critical sections.
  function Calls(log: seq<Event>): seq<L.Call> {
    if log == [] then []
    else
      var e := log[|log| - 1];
      Calls(log[..|log| - 1]) + if e.Limited? then [e.call] else []
  }

  function Oks(log: seq<Event>): (oks: seq<bool>)
    ensures |oks| == |Calls(log)|
  {
    if log == [] then []
    else
      var e := log[|log| - 1];
      Oks(log[..|log| - 1]) + if e.Limited? then [e.ok] else []
  }

  predicate LimiterInv(cfg: Setup, windows: L.Windows, log: seq<Event>) {
    L.Run(cfg.limits, map[], Calls(log), true) == (windows, Oks(log))
  }

  ghost predicate Inv(cfg: Setup, s: State) {
    && TableInv(cfg, s.table, s.log)
    && ReadingsPast(s.requests, s.seconds)
    && UpdatesTouched(s.log)
    && PendingTouched(s.requests, s.log)
    && PendingHome(s.requests, s.table)
    && RequestInv(cfg, s.requests, s.log)
    && InsertsAnswered(s.requests, s.log)
    && LimiterInv(cfg, s.windows, s.log)
  }
}
