// Whole store operations run one after the other with a clock that never goes
// back: the lazily filtered table against an eager one and against the history.
module AtomicStore {
  import opened Text
  import opened Pastes

  datatype Op =
    | Read(slug: string, bump: bool)
    | Write(slug: string, body: Body)
    | Listing(limit: int)
    | Statistics
    | Remove(slug: string)
    | PurgeExpired

  datatype Answer =
    | Document(data: Option<Body>)
    | Stored(ok: bool)
    | Entries(metas: seq<PasteMeta>)
    | Totals(stats: Stats)
    | Removed(found: bool)
    | Purged(n: nat)

  datatype Timed = Timed(op: Op, now: int)

  function Exec(cfg: Config, t: Table, e: Timed): (Table, Answer) {
    match e.op
    case Read(slug, bump) => var (u, data) := Get(cfg, t, slug, bump, e.now); (u, Document(data))
    case Write(slug, body) => var (u, ok) := Insert(cfg, t, slug, body, e.now); (u, Stored(ok))
    case Listing(limit) => (t, Entries(List(t, limit, e.now)))
    case Statistics => (t, Totals(StatsOf(t, e.now)))
    case Remove(slug) => (DeleteSlug(t, slug), Removed(Find(t.rows, slug, t.nextId).Some?))
    case PurgeExpired => (Purge(t, e.now), Purged(ExpiredBelow(t.rows, e.now, t.nextId)))
  }

  // The eager store: expired rows are gone before anything happens.
  function EagerExec(cfg: Config, t: Table, e: Timed): (Table, Answer) {
    Exec(cfg, Purge(t, e.now), e)
  }

  function Step(cfg: Config, t: Table, e: Timed, eager: bool): (Table, Answer) {
    if eager then EagerExec(cfg, t, e) else Exec(cfg, t, e)
  }

  function Play(cfg: Config, t: Table, events: seq<Timed>, eager: bool): (r: (Table, seq<Answer>))
    ensures |r.1| == |events|
    decreases |events|
  {
    if events == [] then (t, [])
    else
      var (u, a) := Step(cfg, t, events[0], eager);
      var (v, rest) := Play(cfg, u, events[1..], eager);
      (v, [a] + rest)
  }

  predicate Nondecreasing(events: seq<Timed>) {
    forall i, j :: 0 <= i < j < |events| ==> events[i].now <= events[j].now
  }

  predicate After(events: seq<Timed>, now: int) {
    forall i :: 0 <= i < |events| ==> now <= events[i].now
  }

  // What readers of the store can see.
  predicate Visible(a: Answer) {
    a.Document? || a.Entries? || a.Totals?
  }

  predicate SameWrites(a: seq<Answer>, b: seq<Answer>) {
    |a| == |b| && forall i :: 0 <= i < |a| && (a[i].Stored? || b[i].Stored?) ==> a[i] == b[i]
  }

  predicate SameViews(a: seq<Answer>, b: seq<Answer>) {
    |a| == |b| && forall i :: 0 <= i < |a| && (Visible(a[i]) || Visible(b[i])) ==> a[i] == b[i]
  }

  // Two tables nobody can tell apart by reading, at now or later.
  predicate Alike(t: Table, u: Table, now: int) {
    Purge(t, now) == Purge(u, now)
  }

  lemma AlikeRows(t: Table, u: Table, now: int)
    ensures Alike(t, u, now) <==>
            && t.nextId == u.nextId
            && (forall id :: id in t.rows && Live(t.rows[id], now) <==> id in u.rows && Live(u.rows[id], now))
            && (forall id :: id in t.rows && Live(t.rows[id], now) ==> t.rows[id] == u.rows[id])
  {
    assert forall id :: id in t.rows && Live(t.rows[id], now) <==> id in Purge(t, now).rows;
    assert forall id :: id in u.rows && Live(u.rows[id], now) <==> id in Purge(u, now).rows;
    assert forall id <- Purge(t, now).rows :: t.rows[id] == Purge(t, now).rows[id];
    assert forall id <- Purge(u, now).rows :: u.rows[id] == Purge(u, now).rows[id];
  }

  lemma AlikeLater(t: Table, u: Table, now: int, later: int)
    requires Alike(t, u, now) && now <= later
    ensures Alike(t, u, later)
  {
    PurgeIdempotent(t, now, later);
    PurgeIdempotent(u, now, later);
  }

  lemma PurgedValid(t: Table, now: int)
    requires Valid(t)
    ensures Valid(Purge(t, now)) && Alike(t, Purge(t, now), now)
  {
    PurgeIdempotent(t, now, now);
  }

  lemma ExecValid(cfg: Config, t: Table, e: Timed)
    requires Valid(t)
    ensures Valid(Exec(cfg, t, e).0)
  {
  }

  lemma SelectAlike(t: Table, u: Table, slug: string, now: int)
    requires Valid(t) && Valid(u) && Alike(t, u, now)
    ensures Select(t, slug, now) == Select(u, slug, now)
  {
    AlikeRows(t, u, now);
    var a, b := Select(t, slug, now), Select(u, slug, now);
    if a.Some? {
      SelectMeaning(u, slug, now, a.value);
    } else if b.Some? {
      SelectMeaning(t, slug, now, b.value);
    }
  }

  lemma GetAlike(cfg: Config, t: Table, u: Table, slug: string, bump: bool, now: int)
    requires Valid(t) && Valid(u) && Alike(t, u, now)
    ensures var (t', a), (u', b) := Get(cfg, t, slug, bump, now), Get(cfg, u, slug, bump, now);
            a == b && Alike(t', u', now)
  {
    SelectAlike(t, u, slug, now);
    AlikeRows(t, u, now);
    AlikeRows(Get(cfg, t, slug, bump, now).0, Get(cfg, u, slug, bump, now).0, now);
  }

  lemma InsertAlike(cfg: Config, t: Table, u: Table, slug: string, body: Body, now: int)
    requires Valid(t) && Valid(u) && Alike(t, u, now)
    requires Insert(cfg, t, slug, body, now).1 == Insert(cfg, u, slug, body, now).1
    ensures Alike(Insert(cfg, t, slug, body, now).0, Insert(cfg, u, slug, body, now).0, now)
  {
    AlikeRows(t, u, now);
    AlikeRows(Insert(cfg, t, slug, body, now).0, Insert(cfg, u, slug, body, now).0, now);
  }

  lemma DeleteAlike(t: Table, u: Table, slug: string, now: int)
    requires Alike(t, u, now)
    ensures Alike(DeleteSlug(t, slug), DeleteSlug(u, slug), now)
  {
    AlikeRows(t, u, now);
    AlikeRows(DeleteSlug(t, slug), DeleteSlug(u, slug), now);
  }

  // One operation on alike tables: readers see the same, and if a write meets the
  // same fate on both, the tables stay alike.
  lemma ExecAlike(cfg: Config, t: Table, u: Table, e: Timed)
    requires Valid(t) && Valid(u) && Alike(t, u, e.now)
    ensures Visible(Exec(cfg, t, e).1) ==> Exec(cfg, t, e).1 == Exec(cfg, u, e).1
    ensures Visible(Exec(cfg, t, e).1) <==> Visible(Exec(cfg, u, e).1)
    ensures (e.op.Write? ==> Exec(cfg, t, e).1 == Exec(cfg, u, e).1)
            ==> Alike(Exec(cfg, t, e).0, Exec(cfg, u, e).0, e.now)
  {
    match e.op {
      case Read(slug, bump) => GetAlike(cfg, t, u, slug, bump, e.now);
      case Write(slug, body) =>
        if Exec(cfg, t, e).1 == Exec(cfg, u, e).1 {
          InsertAlike(cfg, t, u, slug, body, e.now);
        }
      case Listing(limit) => QueriesIgnoreExpired(t, u, limit, e.now);
      case Statistics => QueriesIgnoreExpired(t, u, 0, e.now);
      case Remove(slug) => DeleteAlike(t, u, slug, e.now);
      case PurgeExpired => PurgeIdempotent(t, e.now, e.now);
    }
  }

  lemma StepAlike(cfg: Config, t: Table, eagerT: bool, u: Table, eagerU: bool, e: Timed)
    requires Valid(t) && Valid(u) && Alike(t, u, e.now)
    ensures Visible(Step(cfg, t, e, eagerT).1) <==> Visible(Step(cfg, u, e, eagerU).1)
    ensures Visible(Step(cfg, t, e, eagerT).1) ==> Step(cfg, t, e, eagerT).1 == Step(cfg, u, e, eagerU).1
    ensures (e.op.Write? ==> Step(cfg, t, e, eagerT).1 == Step(cfg, u, e, eagerU).1)
            ==> Alike(Step(cfg, t, e, eagerT).0, Step(cfg, u, e, eagerU).0, e.now)
    ensures Valid(Step(cfg, t, e, eagerT).0) && Valid(Step(cfg, u, e, eagerU).0)
  {
    PurgedValid(t, e.now);
    PurgedValid(u, e.now);
    var t1, u1 := if eagerT then Purge(t, e.now) else t, if eagerU then Purge(u, e.now) else u;
    ExecAlike(cfg, t1, u1, e);
    ExecValid(cfg, t1, e);
    ExecValid(cfg, u1, e);
  }

  // Runs from alike tables, each lazy or eager: if every write meets the same fate
  // in both, every read, listing and total is the same.
  lemma {:induction false} PlayAlike(cfg: Config, t: Table, eagerT: bool, u: Table, eagerU: bool,
                                     events: seq<Timed>, now: int)
    requires Valid(t) && Valid(u) && Alike(t, u, now)
    requires Nondecreasing(events) && After(events, now)
    requires SameWrites(Play(cfg, t, events, eagerT).1, Play(cfg, u, events, eagerU).1)
    ensures SameViews(Play(cfg, t, events, eagerT).1, Play(cfg, u, events, eagerU).1)
    decreases |events|
  {
    if events != [] {
      var e, rest := events[0], events[1..];
      AlikeLater(t, u, now, e.now);
      StepAlike(cfg, t, eagerT, u, eagerU, e);
      var (t1, a) := Step(cfg, t, e, eagerT);
      var (u1, b) := Step(cfg, u, e, eagerU);
      var xs, ys := Play(cfg, t, events, eagerT).1, Play(cfg, u, events, eagerU).1;
      assert xs == [a] + Play(cfg, t1, rest, eagerT).1;
      assert ys == [b] + Play(cfg, u1, rest, eagerU).1;
      assert xs[1..] == Play(cfg, t1, rest, eagerT).1 && ys[1..] == Play(cfg, u1, rest, eagerU).1;
      assert SameWrites(xs[1..], ys[1..]);
      assert e.op.Write? ==> a.Stored? && xs[0] == ys[0];
      PlayAlike(cfg, t1, eagerT, u1, eagerU, rest, e.now);
      forall i | 0 <= i < |xs| && (Visible(xs[i]) || Visible(ys[i]))
        ensures xs[i] == ys[i]
      {
        if i > 0 {
          assert xs[i] == xs[1..][i - 1] && ys[i] == ys[1..][i - 1];
        }
      }
    }
  }

  ghost predicate HasExpired(t: Table, slug: string, now: int) {
    exists id <- t.rows :: t.rows[id].slug == slug && !Live(t.rows[id], now)
  }

  // What a purge does show: exactly a slug held by an expired row becomes
  // writable, and is no longer there to be deleted.
  lemma PurgeFreesExpiredSlugs(cfg: Config, t: Table, slug: string, body: Body, now: int)
    requires Valid(t)
    ensures Insert(cfg, Purge(t, now), slug, body, now).1 != Insert(cfg, t, slug, body, now).1
            <==> HasExpired(t, slug, now)
    ensures Exec(cfg, Purge(t, now), Timed(Remove(slug), now)).1 != Exec(cfg, t, Timed(Remove(slug), now)).1
            <==> HasExpired(t, slug, now)
  {
    PurgedValid(t, now);
    InsertMeaning(cfg, t, slug, body, now);
    InsertMeaning(cfg, Purge(t, now), slug, body, now);
    if HasExpired(t, slug, now) {
      var id :| id in t.rows && t.rows[id].slug == slug && !Live(t.rows[id], now);
      assert forall k <- Purge(t, now).rows :: k in t.rows && k != id;
    } else {
      assert forall k <- t.rows :: t.rows[k].slug == slug ==> k in Purge(t, now).rows;
    }
  }

  lemma SameWritesTail(xs: seq<Answer>, ys: seq<Answer>)
    requires |xs| == |ys| > 0
    ensures SameWrites(xs, ys) <==> (xs[0].Stored? || ys[0].Stored? ==> xs[0] == ys[0]) && SameWrites(xs[1..], ys[1..])
  {
    if SameWrites(xs[1..], ys[1..]) {
      assert forall i :: 1 <= i < |xs| ==> xs[i] == xs[1..][i - 1] && ys[i] == ys[1..][i - 1];
    }
  }

  // ---------------------------------------------------------------------------
  // What a reader could find out in the middle of a run

  // What a read of slug at time `at` returns after the first k events.
  function ReadAfter(cfg: Config, t: Table, events: seq<Timed>, eager: bool, k: nat, slug: string, at: int)
      : Option<Body>
    requires k <= |events|
  {
    Get(cfg, Play(cfg, t, events[..k], eager).0, slug, false, at).1
  }

  function TimeAfter(events: seq<Timed>, k: nat, now: int): int
    requires k <= |events|
  {
    if k == 0 then now else events[k - 1].now
  }

  // No read of any slug, after any part of the run, tells the two runs apart.
  ghost predicate ReadersAgree(cfg: Config, t: Table, eagerT: bool, u: Table, eagerU: bool,
                               events: seq<Timed>, now: int)
  {
    forall k, slug, at :: 0 <= k <= |events| && TimeAfter(events, k, now) <= at ==>
      ReadAfter(cfg, t, events, eagerT, k, slug, at) == ReadAfter(cfg, u, events, eagerU, k, slug, at)
  }

  lemma PlayFirst(cfg: Config, t: Table, events: seq<Timed>, eager: bool, k: nat)
    requires 1 <= k <= |events|
    ensures Play(cfg, t, events[..k], eager).0
            == Play(cfg, Step(cfg, t, events[0], eager).0, events[1..][..k - 1], eager).0
  {
    assert events[..k][0] == events[0] && events[..k][1..] == events[1..][..k - 1];
  }

  // Runs whose writes meet the same fate keep the tables alike all along.
  lemma {:induction false} StayAlike(cfg: Config, t: Table, eagerT: bool, u: Table, eagerU: bool,
                                     events: seq<Timed>, k: nat, now: int)
    requires Valid(t) && Valid(u) && Alike(t, u, now) && k <= |events|
    requires Nondecreasing(events) && After(events, now)
    requires SameWrites(Play(cfg, t, events, eagerT).1, Play(cfg, u, events, eagerU).1)
    ensures Valid(Play(cfg, t, events[..k], eagerT).0) && Valid(Play(cfg, u, events[..k], eagerU).0)
    ensures Alike(Play(cfg, t, events[..k], eagerT).0, Play(cfg, u, events[..k], eagerU).0, TimeAfter(events, k, now))
    decreases k
  {
    if k > 0 {
      var e, rest := events[0], events[1..];
      var t1, u1 := Step(cfg, t, e, eagerT).0, Step(cfg, u, e, eagerU).0;
      AlikeLater(t, u, now, e.now);
      StepAlike(cfg, t, eagerT, u, eagerU, e);
      SameWritesSplit(cfg, t, eagerT, u, eagerU, events);
      PlayFirst(cfg, t, events, eagerT, k);
      PlayFirst(cfg, u, events, eagerU, k);
      StayAlike(cfg, t1, eagerT, u1, eagerU, rest, k - 1, e.now);
    }
  }

  lemma PlayCons(cfg: Config, t: Table, events: seq<Timed>, eager: bool)
    requires events != []
    ensures var (t1, a) := Step(cfg, t, events[0], eager);
            Play(cfg, t, events, eager).1 == [a] + Play(cfg, t1, events[1..], eager).1
  {
  }

  lemma WritesAreStored(cfg: Config, t: Table, e: Timed, eager: bool)
    ensures Step(cfg, t, e, eager).1.Stored? <==> e.op.Write?
  {
  }

  lemma SameWritesSplit(cfg: Config, t: Table, eagerT: bool, u: Table, eagerU: bool, events: seq<Timed>)
    requires events != []
    ensures var (t1, a) := Step(cfg, t, events[0], eagerT);
            var (u1, b) := Step(cfg, u, events[0], eagerU);
            SameWrites(Play(cfg, t, events, eagerT).1, Play(cfg, u, events, eagerU).1) <==>
            && (events[0].op.Write? ==> a == b)
            && SameWrites(Play(cfg, t1, events[1..], eagerT).1, Play(cfg, u1, events[1..], eagerU).1)
  {
    hide Play, Step;
    var (t1, a) := Step(cfg, t, events[0], eagerT);
    var (u1, b) := Step(cfg, u, events[0], eagerU);
    var xs, ys := Play(cfg, t1, events[1..], eagerT).1, Play(cfg, u1, events[1..], eagerU).1;
    PlayCons(cfg, t, events, eagerT);
    PlayCons(cfg, u, events, eagerU);
    WritesAreStored(cfg, t, events[0], eagerT);
    WritesAreStored(cfg, u, events[0], eagerU);
    assert ([a] + xs)[1..] == xs && ([b] + ys)[1..] == ys;
    SameWritesTail([a] + xs, [b] + ys);
  }

  // A write that succeeds on one of two alike tables only shows: its paste can be
  // read there, and not on the other.
  lemma FateShows(cfg: Config, t: Table, u: Table, slug: string, body: Body, now: int)
    requires Valid(t) && Valid(u) && Alike(t, u, now)
    requires Insert(cfg, t, slug, body, now).1 && !Insert(cfg, u, slug, body, now).1
    ensures Get(cfg, Insert(cfg, t, slug, body, now).0, slug, false, now).1 == Some(body)
    ensures Get(cfg, Insert(cfg, u, slug, body, now).0, slug, false, now).1 == None
  {
    InsertMeaning(cfg, t, slug, body, now);
    InsertMeaning(cfg, u, slug, body, now);
    AlikeRows(t, u, now);
    SelectMeaning(Insert(cfg, t, slug, body, now).0, slug, now, t.nextId);
    assert forall id <- u.rows :: u.rows[id].slug == slug ==> !Live(u.rows[id], now);
    assert Insert(cfg, u, slug, body, now).0.rows == u.rows;
  }

  lemma StepShows(cfg: Config, t: Table, eagerT: bool, u: Table, eagerU: bool, e: Timed)
    requires Valid(t) && Valid(u) && Alike(t, u, e.now) && e.op.Write?
    requires Step(cfg, t, e, eagerT).1 != Step(cfg, u, e, eagerU).1
    ensures Get(cfg, Step(cfg, t, e, eagerT).0, e.op.slug, false, e.now).1
            != Get(cfg, Step(cfg, u, e, eagerU).0, e.op.slug, false, e.now).1
  {
    PurgedValid(t, e.now);
    PurgedValid(u, e.now);
    var t1, u1 := if eagerT then Purge(t, e.now) else t, if eagerU then Purge(u, e.now) else u;
    if Insert(cfg, t1, e.op.slug, e.op.body, e.now).1 {
      FateShows(cfg, t1, u1, e.op.slug, e.op.body, e.now);
    } else {
      FateShows(cfg, u1, t1, e.op.slug, e.op.body, e.now);
    }
  }

  // The first write whose fate differs can be seen right after it.
  lemma {:induction false} DifferenceShows(cfg: Config, t: Table, eagerT: bool, u: Table, eagerU: bool,
                                           events: seq<Timed>, now: int) returns (k: nat, slug: string)
    requires Valid(t) && Valid(u) && Alike(t, u, now)
    requires Nondecreasing(events) && After(events, now)
    requires !SameWrites(Play(cfg, t, events, eagerT).1, Play(cfg, u, events, eagerU).1)
    ensures k < |events|
    ensures ReadAfter(cfg, t, events, eagerT, k + 1, slug, events[k].now)
            != ReadAfter(cfg, u, events, eagerU, k + 1, slug, events[k].now)
    decreases |events|
  {
    var e, rest := events[0], events[1..];
    var (t1, a) := Step(cfg, t, e, eagerT);
    var (u1, b) := Step(cfg, u, e, eagerU);
    AlikeLater(t, u, now, e.now);
    StepAlike(cfg, t, eagerT, u, eagerU, e);
    SameWritesSplit(cfg, t, eagerT, u, eagerU, events);
    if e.op.Write? && a != b {
      k, slug := 0, e.op.slug;
      StepShows(cfg, t, eagerT, u, eagerU, e);
      PlayFirst(cfg, t, events, eagerT, 1);
      PlayFirst(cfg, u, events, eagerU, 1);
    } else {
      k, slug := DifferenceShows(cfg, t1, eagerT, u1, eagerU, rest, e.now);
      k := k + 1;
      PlayFirst(cfg, t, events, eagerT, k + 1);
      PlayFirst(cfg, u, events, eagerU, k + 1);
    }
  }

  // Readers cannot tell two runs from alike tables apart exactly when all writes
  // meet the same fate in both.
  lemma ReadersAgreeExactly(cfg: Config, t: Table, eagerT: bool, u: Table, eagerU: bool, events: seq<Timed>, now: int)
    requires Valid(t) && Valid(u) && Alike(t, u, now)
    requires Nondecreasing(events) && After(events, now)
    ensures ReadersAgree(cfg, t, eagerT, u, eagerU, events, now) <==>
            SameWrites(Play(cfg, t, events, eagerT).1, Play(cfg, u, events, eagerU).1)
  {
    if SameWrites(Play(cfg, t, events, eagerT).1, Play(cfg, u, events, eagerU).1) {
      forall k, slug, at | 0 <= k <= |events| && TimeAfter(events, k, now) <= at
        ensures ReadAfter(cfg, t, events, eagerT, k, slug, at) == ReadAfter(cfg, u, events, eagerU, k, slug, at)
      {
        StayAlike(cfg, t, eagerT, u, eagerU, events, k, now);
        var t1, u1 := Play(cfg, t, events[..k], eagerT).0, Play(cfg, u, events[..k], eagerU).0;
        AlikeLater(t1, u1, TimeAfter(events, k, now), at);
        GetAlike(cfg, t1, u1, slug, false, at);
      }
    } else {
      var k, slug := DifferenceShows(cfg, t, eagerT, u, eagerU, events, now);
      assert TimeAfter(events, k + 1, now) == events[k].now;
    }
  }

  // ---------------------------------------------------------------------------
  // Lazy and eager expiry

  // No write of the run comes upon an expired row with its slug.
  ghost predicate NoStaleWrite(cfg: Config, t: Table, events: seq<Timed>)
    decreases |events|
  {
    events != [] ==>
      var e := events[0];
      && (e.op.Write? ==> !HasExpired(t, e.op.slug, e.now))
      && NoStaleWrite(cfg, Exec(cfg, t, e).0, events[1..])
  }

  // Writes meet the same fate lazily and eagerly exactly when none of them comes
  // upon an expired row.
  lemma {:induction false} LazyWrites(cfg: Config, t: Table, u: Table, events: seq<Timed>, now: int)
    requires Valid(t) && Valid(u) && Alike(t, u, now)
    requires Nondecreasing(events) && After(events, now)
    ensures SameWrites(Play(cfg, t, events, false).1, Play(cfg, u, events, true).1) <==> NoStaleWrite(cfg, t, events)
    decreases |events|
  {
    if events != [] {
      var e, rest := events[0], events[1..];
      AlikeLater(t, u, now, e.now);
      StepAlike(cfg, t, false, u, true, e);
      var (t1, a) := Step(cfg, t, e, false);
      var (u1, b) := Step(cfg, u, e, true);
      var xs, ys := Play(cfg, t, events, false).1, Play(cfg, u, events, true).1;
      assert xs == [a] + Play(cfg, t1, rest, false).1 && ys == [b] + Play(cfg, u1, rest, true).1;
      SameWritesTail(xs, ys);
      if e.op.Write? {
        PurgeFreesExpiredSlugs(cfg, t, e.op.slug, e.op.body, e.now);
      }
      if a.Stored? || b.Stored? ==> a == b {
        LazyWrites(cfg, t1, u1, rest, e.now);
      }
    }
  }

  // Filtering at read time is to readers what expiring eagerly is, exactly as long
  // as no write comes upon an expired row; then List and Stats agree as well.
  lemma LazyRefinesEager(cfg: Config, t: Table, events: seq<Timed>, now: int)
    requires Valid(t) && Nondecreasing(events) && After(events, now)
    ensures ReadersAgree(cfg, t, false, t, true, events, now) <==> NoStaleWrite(cfg, t, events)
    ensures SameWrites(Play(cfg, t, events, false).1, Play(cfg, t, events, true).1) <==> NoStaleWrite(cfg, t, events)
    ensures NoStaleWrite(cfg, t, events) ==> SameViews(Play(cfg, t, events, false).1, Play(cfg, t, events, true).1)
  {
    LazyWrites(cfg, t, t, events, now);
    ReadersAgreeExactly(cfg, t, false, t, true, events, now);
    if NoStaleWrite(cfg, t, events) {
      PlayAlike(cfg, t, false, t, true, events, now);
    }
  }

  // ---------------------------------------------------------------------------
  // A purge in the middle of a run

  // No write of the run comes upon a row that `gone` names.
  ghost predicate Avoids(cfg: Config, t: Table, gone: set<nat>, events: seq<Timed>)
    decreases |events|
  {
    events != [] ==>
      var e := events[0];
      && (e.op.Write? ==> forall id <- gone :: id in t.rows ==> t.rows[id].slug != e.op.slug)
      && Avoids(cfg, Exec(cfg, t, e).0, gone, events[1..])
  }

  // u is t without the rows `gone`, all of them expired.
  ghost predicate Lacks(t: Table, u: Table, gone: set<nat>, now: int) {
    && Valid(t) && Valid(u)
    && u == t.(rows := t.rows - gone)
    && (forall id <- gone :: id < t.nextId && (id in t.rows ==> !Live(t.rows[id], now)))
  }

  lemma LacksAlike(t: Table, u: Table, gone: set<nat>, now: int, later: int)
    requires Lacks(t, u, gone, now) && now <= later
    ensures Lacks(t, u, gone, later) && Alike(t, u, later)
  {
    AlikeRows(t, u, later);
  }

  lemma InsertLacks(cfg: Config, t: Table, u: Table, gone: set<nat>, slug: string, body: Body, now: int)
    requires Lacks(t, u, gone, now)
    ensures Insert(cfg, t, slug, body, now).1 == Insert(cfg, u, slug, body, now).1 <==>
            forall id <- gone :: id in t.rows ==> t.rows[id].slug != slug
    ensures Insert(cfg, t, slug, body, now).1 == Insert(cfg, u, slug, body, now).1 ==>
              Insert(cfg, u, slug, body, now).0.nextId == Insert(cfg, t, slug, body, now).0.nextId
              && Insert(cfg, u, slug, body, now).0.rows == Insert(cfg, t, slug, body, now).0.rows - gone
  {
    InsertMeaning(cfg, t, slug, body, now);
    InsertMeaning(cfg, u, slug, body, now);
    forall id | id in gone && id in t.rows && t.rows[id].slug == slug
      ensures Insert(cfg, u, slug, body, now).1
    {
      assert forall k <- u.rows :: k in t.rows && k != id;
    }
    assert forall id <- t.rows :: id !in gone ==> id in u.rows && u.rows[id] == t.rows[id];
  }

  lemma ReadLacks(cfg: Config, t: Table, u: Table, gone: set<nat>, slug: string, bump: bool, now: int)
    requires Lacks(t, u, gone, now)
    ensures var t1 := Get(cfg, t, slug, bump, now).0;
            && Get(cfg, u, slug, bump, now).0 == t1.(rows := t1.rows - gone)
            && forall id <- gone :: id in t1.rows ==> id in t.rows && t1.rows[id] == t.rows[id]
  {
    LacksAlike(t, u, gone, now, now);
    SelectAlike(t, u, slug, now);
    var hit := Select(t, slug, now);
    if hit.Some? {
      SelectMeaning(t, slug, now, hit.value);
    }
  }

  lemma StepLacks(cfg: Config, t: Table, u: Table, gone: set<nat>, e: Timed)
    requires Lacks(t, u, gone, e.now)
    requires e.op.Write? ==> forall id <- gone :: id in t.rows ==> t.rows[id].slug != e.op.slug
    ensures Lacks(Exec(cfg, t, e).0, Exec(cfg, u, e).0, gone, e.now)
  {
    ExecValid(cfg, t, e);
    ExecValid(cfg, u, e);
    match e.op {
      case Read(slug, bump) => ReadLacks(cfg, t, u, gone, slug, bump, e.now);
      case Write(slug, body) => InsertLacks(cfg, t, u, gone, slug, body, e.now);
      case Remove(slug) => assert DeleteSlug(u, slug).rows == DeleteSlug(t, slug).rows - gone;
      case PurgeExpired => assert Purge(u, e.now).rows == Purge(t, e.now).rows - gone;
      case Listing(_) =>
      case Statistics =>
    }
  }

  lemma {:induction false} PurgedWrites(cfg: Config, t: Table, u: Table, gone: set<nat>, events: seq<Timed>, now: int)
    requires Lacks(t, u, gone, now) && Nondecreasing(events) && After(events, now)
    ensures SameWrites(Play(cfg, t, events, false).1, Play(cfg, u, events, false).1) <==> Avoids(cfg, t, gone, events)
    decreases |events|
  {
    if events != [] {
      var e, rest := events[0], events[1..];
      LacksAlike(t, u, gone, now, e.now);
      StepAlike(cfg, t, false, u, false, e);
      var (t1, a) := Step(cfg, t, e, false);
      var (u1, b) := Step(cfg, u, e, false);
      var xs, ys := Play(cfg, t, events, false).1, Play(cfg, u, events, false).1;
      assert xs == [a] + Play(cfg, t1, rest, false).1 && ys == [b] + Play(cfg, u1, rest, false).1;
      SameWritesTail(xs, ys);
      if e.op.Write? {
        InsertLacks(cfg, t, u, gone, e.op.slug, e.op.body, e.now);
      }
      if a.Stored? || b.Stored? ==> a == b {
        StepLacks(cfg, t, u, gone, e);
        PurgedWrites(cfg, t1, u1, gone, rest, e.now);
      }
    }
  }

  // A purge slipped in anywhere is not seen by readers, then or later, exactly as
  // long as no later write comes upon a row it would have removed; then List and
  // Stats do not see it either.
  lemma PurgeInvisible(cfg: Config, t: Table, events: seq<Timed>, now: int)
    requires Valid(t) && Nondecreasing(events) && After(events, now)
    ensures ReadersAgree(cfg, t, false, Purge(t, now), false, events, now)
            <==> Avoids(cfg, t, ExpiredIds(t, now), events)
    ensures SameWrites(Play(cfg, t, events, false).1, Play(cfg, Purge(t, now), events, false).1)
            <==> Avoids(cfg, t, ExpiredIds(t, now), events)
    ensures Avoids(cfg, t, ExpiredIds(t, now), events)
            ==> SameViews(Play(cfg, t, events, false).1, Play(cfg, Purge(t, now), events, false).1)
  {
    PurgedValid(t, now);
    var gone := ExpiredIds(t, now);
    assert Purge(t, now) == t.(rows := t.rows - gone);
    PurgedWrites(cfg, t, Purge(t, now), gone, events, now);
    ReadersAgreeExactly(cfg, t, false, Purge(t, now), false, events, now);
    if Avoids(cfg, t, gone, events) {
      PlayAlike(cfg, t, false, Purge(t, now), false, events, now);
    }
  }

  // handlePost's probe and insert back to back. A probe that finds nothing does
  // not promise the insert: it fails exactly when an expired row still holds the
  // slug, and the handler does not try another key.
  lemma FreeProbeCanFail(cfg: Config, t: Table, slug: string, body: Body, now: int)
    requires Valid(t) && Get(cfg, t, slug, false, now).1.None?
    ensures !Insert(cfg, t, slug, body, now).1 <==> HasExpired(t, slug, now)
  {
    InsertMeaning(cfg, t, slug, body, now);
    forall id | id in t.rows && t.rows[id].slug == slug
      ensures !Live(t.rows[id], now)
    {
      SelectMeaning(t, slug, now, id);
    }
  }

  lemma FreeProbeFails() returns (t: Table)
    ensures Valid(t)
    ensures Get(Config(10, SQLite), t, "k", false, 20).1.None?
    ensures !Insert(Config(10, SQLite), t, "k", [1], 20).1
  {
    t := Insert(Config(10, SQLite), EMPTY, "k", [1], 0).0;
    assert t.rows[1] == Row("k", [1], 0, Some(10));
    assert Find(t.rows, "k", 2) == Some(1);
  }

  // A run in which a reader does see that a purge was slipped in: the write after
  // it is refused without the purge, and found by the read after it with it.
  lemma PurgeSeen() returns (t: Table, events: seq<Timed>)
    ensures Valid(t) && events == [Timed(Write("k", [2]), 20)]
    ensures ReadAfter(Config(10, SQLite), t, events, false, 1, "k", 20) == None
    ensures ReadAfter(Config(10, SQLite), Purge(t, 20), events, false, 1, "k", 20) == Some([2])
  {
    var cfg := Config(10, SQLite);
    t := FreeProbeFails();
    events := [Timed(Write("k", [2]), 20)];
    PurgedValid(t, 20);
    PurgeFreesExpiredSlugs(cfg, t, "k", [2], 20);
    FreeProbeCanFail(cfg, t, "k", [1], 20);
    FreeProbeCanFail(cfg, t, "k", [2], 20);
    FateShows(cfg, Purge(t, 20), t, "k", [2], 20);
    PlayFirst(cfg, t, events, false, 1);
    PlayFirst(cfg, Purge(t, 20), events, false, 1);
    assert events[1..][..0] == [];
  }

  // ---------------------------------------------------------------------------
  // Once expired, never back

  lemma {:induction false} ExpiredStaysExpired(cfg: Config, t: Table, events: seq<Timed>, id: nat, now: int)
    requires Valid(t) && Nondecreasing(events) && After(events, now)
    requires id < t.nextId && (id in t.rows ==> !Live(t.rows[id], now))
    ensures var u := Play(cfg, t, events, false).0;
            id < u.nextId && (id in u.rows ==> id in t.rows && u.rows[id] == t.rows[id])
    decreases |events|
  {
    if events != [] {
      var e := events[0];
      var u := Exec(cfg, t, e).0;
      ExecValid(cfg, t, e);
      assert id in u.rows ==> id in t.rows && u.rows[id] == t.rows[id];
      ExpiredStaysExpired(cfg, u, events[1..], id, e.now);
    }
  }

  // ---------------------------------------------------------------------------
  // The sliding deadline, from the history alone

  datatype Memo = Memo(body: Body, touched: int)

  // What a reader of the history remembers: per slug, the body last stored and
  // when it was stored or last read with bumping, until deleted or purged.
  function Recall(E: nat, memos: map<string, Memo>, events: seq<Timed>, answers: seq<Answer>): map<string, Memo>
    requires |events| == |answers|
    decreases |events|
  {
    if events == [] then memos
    else Recall(E, RecallOne(E, memos, events[0], answers[0]), events[1..], answers[1..])
  }

  function RecallOne(E: nat, memos: map<string, Memo>, e: Timed, a: Answer): map<string, Memo> {
    match e.op
    case Read(slug, true) =>
      if slug in memos && a.Document? && a.data.Some? then memos[slug := memos[slug].(touched := e.now)] else memos
    case Write(slug, body) => if a == Stored(true) then memos[slug := Memo(body, e.now)] else memos
    case Remove(slug) => memos - {slug}
    case PurgeExpired => map slug | slug in memos && memos[slug].touched + E > e.now :: memos[slug]
    case _ => memos
  }

  ghost predicate RowRemembered(E: nat, r: Row, memos: map<string, Memo>) {
    r.slug in memos && r.body == memos[r.slug].body && r.expires == Some(memos[r.slug].touched + E)
  }

  ghost predicate Held(t: Table, slug: string) {
    exists id <- t.rows :: t.rows[id].slug == slug
  }

  // Table and memory agree: a row's deadline is its last touch plus E.
  ghost predicate Remembers(E: nat, t: Table, memos: map<string, Memo>) {
    && (forall id <- t.rows :: RowRemembered(E, t.rows[id], memos))
    && (forall slug <- memos :: Held(t, slug))
  }

  lemma BumpRemembers(E: nat, t: Table, memos: map<string, Memo>, id: nat, now: int)
    requires Valid(t) && Remembers(E, t, memos) && id in t.rows
    ensures var slug := t.rows[id].slug;
            slug in memos && Remembers(E, Bump(t, id, now + E), memos[slug := memos[slug].(touched := now)])
  {
    assert RowRemembered(E, t.rows[id], memos);
    var slug := t.rows[id].slug;
    var u, memos' := Bump(t, id, now + E), memos[slug := memos[slug].(touched := now)];
    StillHeld(t, u, memos);
    forall k | k in u.rows
      ensures RowRemembered(E, u.rows[k], memos')
    {
      assert RowRemembered(E, t.rows[k], memos);
    }
  }

  lemma ReadRemembers(cfg: Config, t: Table, memos: map<string, Memo>, slug: string, bump: bool, now: int)
    requires Valid(t) && cfg.expire > 0 && Remembers(cfg.expire, t, memos)
    ensures var e := Timed(Read(slug, bump), now);
            Remembers(cfg.expire, Exec(cfg, t, e).0, RecallOne(cfg.expire, memos, e, Exec(cfg, t, e).1))
  {
    var s := Select(t, slug, now);
    if s.Some? && bump {
      assert RowRemembered(cfg.expire, t.rows[s.value], memos);
      BumpRemembers(cfg.expire, t, memos, s.value, now);
    }
  }

  // Changing deadlines and adding rows takes no slug away.
  lemma StillHeld(t: Table, u: Table, memos: map<string, Memo>)
    requires forall id <- t.rows :: id in u.rows && u.rows[id].slug == t.rows[id].slug
    requires forall slug <- memos :: Held(t, slug)
    ensures forall slug <- memos :: Held(u, slug)
  {
    forall slug | slug in memos
      ensures Held(u, slug)
    {
      var id :| id in t.rows && t.rows[id].slug == slug;
      assert u.rows[id].slug == slug;
    }
  }

  lemma InsertRemembers(cfg: Config, t: Table, memos: map<string, Memo>, slug: string, body: Body, now: int)
    requires Valid(t) && cfg.expire > 0 && Remembers(cfg.expire, t, memos)
    requires Insert(cfg, t, slug, body, now).1
    ensures Remembers(cfg.expire, Insert(cfg, t, slug, body, now).0, memos[slug := Memo(body, now)])
  {
    var u, memos' := Insert(cfg, t, slug, body, now).0, memos[slug := Memo(body, now)];
    InsertMeaning(cfg, t, slug, body, now);
    assert u.rows[t.nextId].slug == slug && Held(u, slug);
    StillHeld(t, u, memos);
    forall k | k in u.rows
      ensures RowRemembered(cfg.expire, u.rows[k], memos')
    {
      assert k != t.nextId ==> RowRemembered(cfg.expire, t.rows[k], memos) && t.rows[k].slug != slug;
    }
  }

  lemma WriteRemembers(cfg: Config, t: Table, memos: map<string, Memo>, slug: string, body: Body, now: int)
    requires Valid(t) && cfg.expire > 0 && Remembers(cfg.expire, t, memos)
    ensures var e := Timed(Write(slug, body), now);
            Remembers(cfg.expire, Exec(cfg, t, e).0, RecallOne(cfg.expire, memos, e, Exec(cfg, t, e).1))
  {
    if Insert(cfg, t, slug, body, now).1 {
      InsertRemembers(cfg, t, memos, slug, body, now);
    }
  }

  lemma RemoveRemembers(E: nat, t: Table, u: Table, memos: map<string, Memo>, memos': map<string, Memo>)
    requires Remembers(E, t, memos)
    requires forall id :: id in u.rows <==> id in t.rows && t.rows[id].slug in memos'
    requires forall id <- u.rows :: u.rows[id] == t.rows[id]
    requires forall slug <- memos' :: slug in memos && memos'[slug] == memos[slug]
    ensures Remembers(E, u, memos')
  {
    forall slug | slug in memos'
      ensures Held(u, slug)
    {
      var id :| id in t.rows && t.rows[id].slug == slug;
      assert u.rows[id].slug == slug;
    }
    assert forall k <- u.rows :: RowRemembered(E, t.rows[k], memos) ==> RowRemembered(E, u.rows[k], memos');
  }

  lemma ExecRemembers(cfg: Config, t: Table, memos: map<string, Memo>, e: Timed)
    requires Valid(t) && cfg.expire > 0 && Remembers(cfg.expire, t, memos)
    ensures Remembers(cfg.expire, Exec(cfg, t, e).0, RecallOne(cfg.expire, memos, e, Exec(cfg, t, e).1))
  {
    var (u, a) := Exec(cfg, t, e);
    var memos' := RecallOne(cfg.expire, memos, e, a);
    match e.op {
      case Read(slug, bump) => ReadRemembers(cfg, t, memos, slug, bump, e.now);
      case Write(slug, body) => WriteRemembers(cfg, t, memos, slug, body, e.now);
      case Remove(slug) => RemoveRemembers(cfg.expire, t, u, memos, memos');
      case PurgeExpired => RemoveRemembers(cfg.expire, t, u, memos, memos');
      case Listing(_) =>
      case Statistics =>
    }
  }

  lemma {:induction false} PlayRemembers(cfg: Config, t: Table, memos: map<string, Memo>, events: seq<Timed>)
    requires Valid(t) && cfg.expire > 0 && Remembers(cfg.expire, t, memos)
    ensures var (u, answers) := Play(cfg, t, events, false);
            Valid(u) && Remembers(cfg.expire, u, Recall(cfg.expire, memos, events, answers))
    decreases |events|
  {
    if events != [] {
      var (u, a) := Exec(cfg, t, events[0]);
      ExecRemembers(cfg, t, memos, events[0]);
      ExecValid(cfg, t, events[0]);
      PlayRemembers(cfg, u, RecallOne(cfg.expire, memos, events[0], a), events[1..]);
      assert Play(cfg, t, events, false).1[1..] == Play(cfg, u, events[1..], false).1;
    }
  }

  // A Get finds the paste exactly while less than E has passed since it was
  // stored or last read with bumping, and it finds the body then stored.
  lemma SlidingDeadline(cfg: Config, events: seq<Timed>, slug: string, bump: bool, now: int)
    requires cfg.expire > 0
    ensures var (t, answers) := Play(cfg, EMPTY, events, false);
            var memos := Recall(cfg.expire, map[], events, answers);
            Get(cfg, t, slug, bump, now).1 ==
            if slug in memos && now < memos[slug].touched + cfg.expire then Some(memos[slug].body) else None
  {
    PlayRemembers(cfg, EMPTY, map[], events);
    var (t, answers) := Play(cfg, EMPTY, events, false);
    var memos := Recall(cfg.expire, map[], events, answers);
    var s := Select(t, slug, now);
    if s.Some? {
      SelectMeaning(t, slug, now, s.value);
    }
    if slug in memos {
      var id :| id in t.rows && t.rows[id].slug == slug;
      SelectMeaning(t, slug, now, id);
    }
  }

  // Reads without bumping (chooseKey's probe, the preloaded keys) change nothing.
  lemma ProbesTouchNothing(cfg: Config, t: Table, slug: string, now: int)
    ensures Exec(cfg, t, Timed(Read(slug, false), now)).0 == t
  {
  }

  predicate DeadlinesWithin(t: Table, limit: int) {
    forall id <- t.rows :: t.rows[id].expires.Some? ==> t.rows[id].expires.value <= limit
  }

  // No deadline lies further ahead than a read at `now` would set it; there may be
  // such in a table kept from a time with a longer lifetime.
  predicate Current(cfg: Config, t: Table, now: int) {
    cfg.expire <= 0 || DeadlinesWithin(t, now + cfg.expire)
  }

  predicate NotSooner(t: Table, u: Table, id: nat) {
    id in t.rows && id in u.rows && t.rows[id].expires.Some? ==>
      u.rows[id].expires.Some? && t.rows[id].expires.value <= u.rows[id].expires.value
  }

  lemma ExecMovesForward(cfg: Config, t: Table, e: Timed, id: nat)
    requires Valid(t) && Current(cfg, t, e.now)
    ensures Current(cfg, Exec(cfg, t, e).0, e.now) && NotSooner(t, Exec(cfg, t, e).0, id)
  {
  }

  lemma {:induction false} PlayMovesForward(cfg: Config, t: Table, events: seq<Timed>, id: nat, now: int)
    requires Valid(t) && Nondecreasing(events) && After(events, now) && Current(cfg, t, now) && id in t.rows
    ensures NotSooner(t, Play(cfg, t, events, false).0, id)
    decreases |events|
  {
    if events != [] {
      var e := events[0];
      var t1 := Exec(cfg, t, e).0;
      ExecValid(cfg, t, e);
      ExecMovesForward(cfg, t, e, id);
      if id in t1.rows {
        PlayMovesForward(cfg, t1, events[1..], id, e.now);
      } else {
        RemovedForGood(cfg, t1, events[1..], id);
      }
    }
  }

  ghost predicate NeverSooner(cfg: Config, t: Table, now: int) {
    forall events, id :: Nondecreasing(events) && After(events, now) && id in t.rows ==>
      NotSooner(t, Play(cfg, t, events, false).0, id)
  }

  // One read is enough to bring a deadline back from further ahead.
  lemma ReadShortens(cfg: Config, t: Table, id: nat, now: int)
    requires Valid(t) && cfg.expire > 0
    requires id in t.rows && t.rows[id].expires.Some? && t.rows[id].expires.value > now + cfg.expire
    ensures !NotSooner(t, Play(cfg, t, [Timed(Read(t.rows[id].slug, true), now)], false).0, id)
  {
    var e := Timed(Read(t.rows[id].slug, true), now);
    SelectMeaning(t, t.rows[id].slug, now, id);
    assert [e][1..] == [];
    assert Play(cfg, t, [e], false).0 == Exec(cfg, t, e).0;
  }

  // With atomic operations and a clock that never goes back, no operation ever
  // shortens a paste's life exactly when none of the deadlines found at the
  // beginning lies further ahead than the lifetime.
  lemma DeadlinesMoveForward(cfg: Config, t: Table, now: int)
    requires Valid(t)
    ensures NeverSooner(cfg, t, now) <==> Current(cfg, t, now)
  {
    if Current(cfg, t, now) {
      forall events, id | Nondecreasing(events) && After(events, now) && id in t.rows
        ensures NotSooner(t, Play(cfg, t, events, false).0, id)
      {
        PlayMovesForward(cfg, t, events, id, now);
      }
    } else {
      var id :| id in t.rows && t.rows[id].expires.Some? && t.rows[id].expires.value > now + cfg.expire;
      ReadShortens(cfg, t, id, now);
      var events := [Timed(Read(t.rows[id].slug, true), now)];
      assert Nondecreasing(events) && After(events, now);
    }
  }

  lemma {:induction false} RemovedForGood(cfg: Config, t: Table, events: seq<Timed>, id: nat)
    requires Valid(t) && id < t.nextId && id !in t.rows
    ensures id !in Play(cfg, t, events, false).0.rows
    decreases |events|
  {
    if events != [] {
      ExecValid(cfg, t, events[0]);
      RemovedForGood(cfg, Exec(cfg, t, events[0]).0, events[1..], id);
    }
  }
}
