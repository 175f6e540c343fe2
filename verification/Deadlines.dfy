// What becomes of deadlines when SELECT and UPDATE are separate steps: exactly when
// they only move forward, and exactly when the expired stay expired.
module Deadlines {
  import opened Text
  import opened Pastes
  import opened Serving
  import opened Interleavings
  import opened Guarantees

  // The statement at position p writes the deadline of row id. The rows found count
  // as written where they were found.
  ghost predicate Writes(log: seq<Event>, p: nat, id: nat)
    requires p < |log|
  {
    Introduces(log[p], id) || (log[p].Updated? && log[p].id == id && id in Survivors(log[..p]))
  }

  // The deadline it writes.
  function Written(e: Event, id: nat): Option<int>
    requires Introduces(e, id) || e.Updated?
  {
    if e.Updated? then Some(e.deadline) else Introduced(e, id).expires
  }

  lemma WritesInFront(log: seq<Event>, e: Event, p: nat, id: nat)
    requires p < |log|
    ensures Writes(log + [e], p, id) <==> Writes(log, p, id)
  {
    assert (log + [e])[..p] == log[..p];
  }

  lemma {:induction false} LastWrite(log: seq<Event>, id: nat) returns (q: nat)
    requires id in Survivors(log)
    ensures q < |log| && Writes(log, q, id) && Survivors(log)[id].expires == Written(log[q], id)
    ensures forall r :: q < r < |log| ==> !Writes(log, r, id)
    decreases |log|
  {
    var n := |log| - 1;
    var front, e := log[..n], log[n];
    assert log == front + [e];
    if Writes(log, n, id) {
      q := n;
    } else {
      q := LastWrite(front, id);
      WritesInFront(front, e, q, id);
      forall r | q < r < n
        ensures !Writes(log, r, id)
      {
        WritesInFront(front, e, r, id);
      }
    }
  }

  lemma FinalTable(x: Execution)
    ensures Final(x).table.rows == Survivors(Final(x).log)
  {
    FinalInv(x);
  }

  // In every execution a row's deadline is what the last INSERT or UPDATE run on it
  // wrote, its clock reading plus the lifetime, or else what was found.
  lemma DeadlineIsLastWrite(x: Execution, id: nat) returns (q: nat)
    requires id in Final(x).table.rows
    ensures var log := Final(x).log;
            && q < |log| && Writes(log, q, id) && (forall r :: q < r < |log| ==> !Writes(log, r, id))
            && Final(x).table.rows[id].expires == Written(log[q], id)
            && (log[q].Inserted? ==> Written(log[q], id) == NewDeadline(x.cfg, log[q].now))
            && (log[q].Updated? ==> Written(log[q], id) == Some(log[q].now + x.cfg.store.expire))
  {
    FinalTable(x);
    q := LastWrite(Final(x).log, id);
    SoundAt(x, q);
  }

  // A pending bump shortens its paste's life exactly when its deadline comes before
  // the one written last, and brings the paste back to life exactly when that one
  // has passed and its own has not. Against a statement of this execution that is a
  // matter of the two clock readings alone.
  lemma StaleBump(x: Execution, i: nat, pick: string) returns (q: nat)
    requires i < |Final(x).requests| && Final(x).requests[i].phase.Bumping?
    requires Final(x).requests[i].phase.id in Final(x).table.rows
    ensures var s, u := Final(x), Final(Then(x, Advance(i, pick)));
            var id, now, E := s.requests[i].phase.id, s.requests[i].phase.now, x.cfg.store.expire;
            && q < |s.log| && Writes(s.log, q, id) && (forall r :: q < r < |s.log| ==> !Writes(s.log, r, id))
            && id in u.table.rows && s.table.rows[id].expires.Some? && u.table.rows[id].expires.Some?
            && Written(s.log[q], id).Some?
            && (u.table.rows[id].expires.value < s.table.rows[id].expires.value
                <==> now + E < Written(s.log[q], id).value)
            && (!s.log[q].Opened? ==> (now + E < Written(s.log[q], id).value <==> now < s.log[q].now))
            && (!Live(s.table.rows[id], s.seconds) && Live(u.table.rows[id], s.seconds)
                <==> Written(s.log[q], id).value <= s.seconds < now + E)
  {
    FinalInv(x);
    q := DeadlineIsLastWrite(x, Final(x).requests[i].phase.id);
    BumpStaysHome(x, i, pick);
  }

  // ---------------------------------------------------------------------------
  // Whole runs

  function Before(x: Execution, k: nat): State
    requires k <= |x.actions|
  {
    Final(x.(actions := x.actions[..k]))
  }

  // Time was taken: an earlier deadline, or one where there was none.
  predicate Sooner(earlier: Option<int>, later: Option<int>) {
    later.Some? && (earlier.None? || later.value < earlier.value)
  }

  // No row that stays loses time.
  predicate Lengthened(rows: map<nat, Row>, rows': map<nat, Row>) {
    forall id <- rows :: id in rows' ==> !Sooner(rows[id].expires, rows'[id].expires)
  }

  // No row that stays comes back to life.
  predicate NoneRevived(s: State, u: State) {
    forall id <- s.table.rows ::
      id in u.table.rows && Live(u.table.rows[id], u.seconds) ==> Live(s.table.rows[id], s.seconds)
  }

  ghost predicate NeverShortens(x: Execution) {
    forall k :: 0 <= k < |x.actions| ==> Lengthened(Before(x, k).table.rows, Before(x, k + 1).table.rows)
  }

  ghost predicate NeverRevives(x: Execution) {
    forall k :: 0 <= k < |x.actions| ==> NoneRevived(Before(x, k), Before(x, k + 1))
  }

  // The statements on each paste ran in the order of their clock readings.
  ghost predicate InClockOrder(log: seq<Event>) {
    forall p, q, id: nat ::
      0 <= p < q < |log| && Writes(log, p, id) && Writes(log, q, id) && !log[p].Opened? && !log[q].Opened? ==>
        log[p].now <= log[q].now
  }

  // No UPDATE set a row found in the database a deadline before the one found.
  ghost predicate FoundRespected(log: seq<Event>) {
    forall p, q, id: nat ::
      0 <= p < q < |log| && Writes(log, p, id) && Writes(log, q, id) && log[p].Opened? ==>
        !Sooner(Written(log[p], id), Written(log[q], id))
  }

  // Both at once: no statement writes a deadline before one written earlier.
  ghost predicate Rising(log: seq<Event>) {
    forall p, q, id: nat :: 0 <= p < q < |log| && Writes(log, p, id) && Writes(log, q, id) ==>
      !Sooner(Written(log[p], id), Written(log[q], id))
  }

  // An UPDATE that sets a deadline still ahead met a deadline still ahead.
  predicate Timely(alive: map<nat, Row>, e: Event) {
    e.Updated? && e.id in alive && e.at < e.deadline ==> Live(alive[e.id], e.at)
  }

  ghost predicate AllTimely(log: seq<Event>) {
    forall p :: 0 <= p < |log| ==> Timely(Survivors(log[..p]), log[p])
  }

  // The rows found come before all else, so an id is introduced once.
  lemma RisingSplits(cfg: Setup, log: seq<Event>, nextId: nat)
    requires LogSound(cfg, log) && IdsIncrease(log, nextId)
    ensures Rising(log) <==> InClockOrder(log) && FoundRespected(log)
  {
    forall p, q, id: nat |
      0 <= p < q < |log| && Writes(log, p, id) && Writes(log, q, id) && !log[p].Opened?
      ensures !log[q].Opened?
      ensures !Sooner(Written(log[p], id), Written(log[q], id)) <==> log[p].now <= log[q].now
    {
      LaterWrite(cfg, log, nextId, p, q, id);
    }
    forall p, q, id: nat | 0 <= p < q < |log| && Writes(log, p, id) && Writes(log, q, id)
      ensures !log[q].Opened?
    {
      LaterWrite(cfg, log, nextId, p, q, id);
    }
  }

  // A row written before is written again by an UPDATE only.
  lemma LaterWrite(cfg: Setup, log: seq<Event>, nextId: nat, p: nat, q: nat, id: nat)
    requires LogSound(cfg, log) && IdsIncrease(log, nextId)
    requires p < q < |log| && Writes(log, p, id) && Writes(log, q, id)
    ensures log[q].Updated? && cfg.store.expire > 0 && log[q].deadline == log[q].now + cfg.store.expire
    ensures !log[p].Opened? ==> Written(log[p], id) == Some(log[p].now + cfg.store.expire)
  {
    assert EventSound(cfg, Survivors(log[..p]), log[p]) && EventSound(cfg, Survivors(log[..q]), log[q]);
    if Introduces(log[q], id) {
      NotBefore(log, nextId, p, q, id);
      assert false;
    }
  }

  lemma NotBefore(log: seq<Event>, nextId: nat, p: nat, q: nat, id: nat)
    requires IdsIncrease(log, nextId) && p < q < |log| && Introduces(log[q], id)
    ensures !Writes(log, p, id)
  {
    assert forall k :: 0 <= k < p ==> log[..p][k] == log[k];
    if log[p].Updated? && id in Survivors(log[..p]) {
      var o := SurvivorOrigin(log[..p], id);
    }
  }

  lemma RisingSnoc(log: seq<Event>, e: Event)
    ensures Rising(log + [e]) <==>
            && Rising(log)
            && forall p, id: nat :: 0 <= p < |log| && Writes(log, p, id) && Writes(log + [e], |log|, id) ==>
                 !Sooner(Written(log[p], id), Written(e, id))
  {
    forall p, id: nat | 0 <= p < |log|
      ensures Writes(log + [e], p, id) <==> Writes(log, p, id)
    {
      WritesInFront(log, e, p, id);
    }
  }

  // Nothing has written to an id not handed out yet.
  lemma Unwritten(log: seq<Event>, nextId: nat, p: nat)
    requires IdsIncrease(log, nextId) && p < |log|
    ensures !Writes(log, p, nextId)
  {
    assert forall k :: 0 <= k < p ==> log[..p][k] == log[k];
    if log[p].Updated? && nextId in Survivors(log[..p]) {
      var o := SurvivorOrigin(log[..p], nextId);
    }
  }

  lemma LatestDeadline(log: seq<Event>, id: nat, deadline: int)
    requires Rising(log) && id in Survivors(log) && Survivors(log)[id].expires.Some?
    ensures !Sooner(Survivors(log)[id].expires, Some(deadline)) <==>
            forall p :: 0 <= p < |log| && Writes(log, p, id) ==> !Sooner(Written(log[p], id), Some(deadline))
  {
    var q := LastWrite(log, id);
    forall p | 0 <= p < |log| && Writes(log, p, id)
      ensures p == q || (p < q && !Sooner(Written(log[p], id), Written(log[q], id)))
    {
    }
  }

  // Under the log so far, one more event takes no time from a row exactly when the
  // log stays in order with it.
  lemma EventRises(cfg: Setup, log: seq<Event>, nextId: nat, e: Event)
    requires IdsIncrease(log, nextId) && Rising(log) && EventSound(cfg, Survivors(log), e) && !e.Opened?
    requires e.Inserted? ==> e.id == nextId
    ensures Lengthened(Survivors(log), Survivors(log + [e])) <==> Rising(log + [e])
  {
    SurvivorsSnoc(log, e);
    RisingSnoc(log, e);
    forall id: nat
      ensures Writes(log + [e], |log|, id) <==>
              (e.Inserted? && e.id == id) || (e.Updated? && e.id == id && id in Survivors(log))
    {
    }
    if e.Inserted? {
      forall p | 0 <= p < |log|
        ensures !Writes(log, p, e.id)
      {
        Unwritten(log, nextId, p);
      }
    } else if e.Updated? && e.id in Survivors(log) {
      LatestDeadline(log, e.id, e.deadline);
    }
  }

  // The log grows by what the step adds, one event at most.
  lemma NextLog(cfg: Setup, s: State, a: Action)
    requires Inv(cfg, s)
    ensures var u := Next(cfg, s, a);
            || u.log == s.log
            || (|u.log| == |s.log| + 1 && u.log == s.log + [u.log[|s.log|]] && u.seconds == s.seconds
                && !u.log[|s.log|].Opened? && (u.log[|s.log|].Inserted? ==> u.log[|s.log|].id == s.table.nextId)
                && (u.log[|s.log|].Updated? ==> u.log[|s.log|].at == s.seconds))
  {
    if a.Advance? && a.i < |s.requests| {
      var e := Act(cfg, s, a.i, a.pick);
      ActIsOneStatement(cfg, s, a.i, a.pick);
      assert e.events == [] || e.events == [e.events[0]];
    }
  }

  lemma StepLengthens(cfg: Setup, s: State, a: Action)
    requires Inv(cfg, s) && Rising(s.log)
    ensures Lengthened(s.table.rows, Next(cfg, s, a).table.rows) <==> Rising(Next(cfg, s, a).log)
  {
    var u := Next(cfg, s, a);
    NextKeepsInv(cfg, s, a);
    NextLog(cfg, s, a);
    if u.log != s.log {
      assert u.log[..|s.log|] == s.log;
      assert EventSound(cfg, Survivors(u.log[..|s.log|]), u.log[|s.log|]);
      EventRises(cfg, s.log, s.table.nextId, u.log[|s.log|]);
    }
  }

  lemma StepOrder(cfg: Setup, s: State, a: Action)
    requires Inv(cfg, s) && Rising(Next(cfg, s, a).log)
    ensures Rising(s.log)
  {
    NextLog(cfg, s, a);
    if Next(cfg, s, a).log != s.log {
      RisingSnoc(s.log, Next(cfg, s, a).log[|s.log|]);
    }
  }

  function Front(x: Execution): Execution
    requires x.actions != []
  {
    x.(actions := x.actions[..|x.actions| - 1])
  }

  lemma FinalOfFront(x: Execution)
    requires x.actions != []
    ensures Final(x) == Next(x.cfg, Final(Front(x)), x.actions[|x.actions| - 1])
    ensures Before(x, |x.actions|) == Final(x)
    ensures forall k :: 0 <= k < |x.actions| ==> Before(x, k) == Before(Front(x), k)
    ensures Before(Front(x), |x.actions| - 1) == Final(Front(x))
  {
    var n, a := |x.actions| - 1, x.actions[|x.actions| - 1];
    assert x.actions == Front(x).actions + [a];
    assert x == Then(Front(x), a);
    FinalThen(Front(x), a);
    assert x.actions[..n + 1] == x.actions && Front(x).actions[..n] == Front(x).actions;
    assert forall k :: 0 <= k <= n ==> x.actions[..k] == Front(x).actions[..k];
  }

  lemma NeverShortensSplits(x: Execution)
    requires x.actions != []
    ensures NeverShortens(x) <==> NeverShortens(Front(x)) && Lengthened(Final(Front(x)).table.rows, Final(x).table.rows)
  {
    FinalOfFront(x);
    var n := |x.actions| - 1;
    assert forall k :: 0 <= k < n ==>
        Lengthened(Before(x, k).table.rows, Before(x, k + 1).table.rows)
        == Lengthened(Before(Front(x), k).table.rows, Before(Front(x), k + 1).table.rows);
  }

  lemma BeginsRising(x: Execution)
    ensures Rising(Begin(x).log)
  {
    StartInv(x.cfg, x.found, x.key, x.document, x.seconds, x.millis);
    var log := Begin(x).log;
    forall p, q, id: nat | 0 <= p < q < |log| && Writes(log, q, id)
      ensures !Writes(log, p, id)
    {
      NotBefore(log, Begin(x).table.nextId, p, q, id);
    }
  }

  lemma {:induction false} ForwardExactlyWhenRising(x: Execution)
    ensures NeverShortens(x) <==> Rising(Final(x).log)
    decreases |x.actions|
  {
    if x.actions == [] {
      BeginsRising(x);
    } else {
      var front, a := Front(x), x.actions[|x.actions| - 1];
      ForwardExactlyWhenRising(front);
      NeverShortensSplits(x);
      FinalOfFront(x);
      FinalInv(front);
      if Rising(Final(front).log) {
        StepLengthens(x.cfg, Final(front), a);
      } else if Rising(Final(x).log) {
        StepOrder(x.cfg, Final(front), a);
      }
    }
  }

  // No deadline is ever shortened exactly when the statements on each paste run in
  // the order of their clock readings and no UPDATE sets a row found in the database
  // a deadline before the one found.
  lemma ForwardExactlyInOrder(x: Execution)
    ensures NeverShortens(x) <==> InClockOrder(Final(x).log) && FoundRespected(Final(x).log)
  {
    FinalInv(x);
    ForwardExactlyWhenRising(x);
    RisingSplits(x.cfg, Final(x).log, Final(x).table.nextId);
  }

  // ---------------------------------------------------------------------------
  // Coming back to life

  lemma TimelySnoc(log: seq<Event>, e: Event)
    ensures AllTimely(log + [e]) <==> AllTimely(log) && Timely(Survivors(log), e)
  {
    assert (log + [e])[..|log|] == log;
    assert forall p :: 0 <= p < |log| ==> (log + [e])[..p] == log[..p];
  }

  lemma EventRevives(s: State, u: State, e: Event)
    requires s.table.rows == Survivors(s.log) && u.table.rows == Survivors(u.log)
    requires u.log == s.log + [e] && u.seconds == s.seconds && !e.Opened?
    requires (e.Inserted? ==> e.id !in s.table.rows) && (e.Updated? ==> e.at == s.seconds)
    ensures NoneRevived(s, u) <==> Timely(Survivors(s.log), e)
  {
    SurvivorsSnoc(s.log, e);
  }

  lemma StepRevives(cfg: Setup, s: State, a: Action)
    requires Inv(cfg, s)
    ensures NoneRevived(s, Next(cfg, s, a)) && AllTimely(s.log) <==> AllTimely(Next(cfg, s, a).log)
  {
    var u := Next(cfg, s, a);
    NextKeepsInv(cfg, s, a);
    NextLog(cfg, s, a);
    if u.log == s.log {
      assert u.table.rows == s.table.rows && u.seconds >= s.seconds;
    } else {
      FreshId(s.table);
      hide Next, NoneRevived, Timely, AllTimely;
      EventRevives(s, u, u.log[|s.log|]);
      TimelySnoc(s.log, u.log[|s.log|]);
    }
  }

  lemma NeverRevivesSplits(x: Execution)
    requires x.actions != []
    ensures NeverRevives(x) <==> NeverRevives(Front(x)) && NoneRevived(Final(Front(x)), Final(x))
  {
    FinalOfFront(x);
    var n := |x.actions| - 1;
    assert forall k :: 0 <= k < n ==>
        NoneRevived(Before(x, k), Before(x, k + 1)) == NoneRevived(Before(Front(x), k), Before(Front(x), k + 1));
  }

  // No expired paste, stored or found, ever comes back to life exactly when every
  // UPDATE that sets a deadline still ahead ran before the one it replaced had
  // passed.
  lemma {:induction false} DeadStaysDeadExactlyWhenTimely(x: Execution)
    ensures NeverRevives(x) <==> AllTimely(Final(x).log)
    decreases |x.actions|
  {
    if x.actions == [] {
    } else {
      DeadStaysDeadExactlyWhenTimely(Front(x));
      NeverRevivesSplits(x);
      FinalOfFront(x);
      FinalInv(Front(x));
      StepRevives(x.cfg, Final(Front(x)), x.actions[|x.actions| - 1]);
    }
  }
}
