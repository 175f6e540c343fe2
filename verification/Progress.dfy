// How long a request takes: its own steps, whatever the others do in between. Only
// a key that is taken makes a POST try again; everything else moves forward.
module Progress {
  import opened Pastes
  import opened Serving
  import opened Interleavings
  import opened Guarantees
  import L = RateLimits

  // Steps from routing to the answer, if every key tried is free.
  function AfterRouting(ask: Ask): nat {
    match ask
    case Post(_, _) => 6
    case Fetch(_) => 3
    case Erase(_) => 1
    case Clean => 2
  }

  // The most a request takes, if every key tried is free.
  function Longest(cfg: Setup, ask: Ask): nat {
    AfterRouting(ask) + if cfg.limits.max > 0 && cfg.limits.window > 0 then 2 else 1
  }

  function StepsLeft(cfg: Setup, ask: Ask, phase: Phase): nat {
    match phase
    case AtGate => Longest(cfg, ask)
    case AtLimiter(_) => 1 + AfterRouting(ask)
    case Routed => AfterRouting(ask)
    case Charging(_, _) => 5
    case Choosing(_, _) => 4
    case Probing(_, _, _, _) => 3
    case Storing(_, _, _) => 2
    case Inserting(_, _, _, _) => 1
    case Selecting(_, _, _) => 2
    case Bumping(_, _, _, _) => 1
    case Purging(_) => 1
    case _ => 0
  }

  // A probe of request i that came upon a live paste.
  predicate TakenProbe(e: Event, i: nat) {
    e.Selected? && e.reader == i && !e.bump && e.hit.Some?
  }

  function TakenProbes(log: seq<Event>, i: nat): nat {
    if log == [] then 0
    else
      var e := log[|log| - 1];
      TakenProbes(log[..|log| - 1], i) + if TakenProbe(e, i) then 1 else 0
  }

  // A taken key costs two steps: the next one is chosen, and probed in turn.
  function Retries(log: seq<Event>, i: nat, ask: Ask): nat {
    if ask.Post? then 2 * TakenProbes(log, i) else 0
  }

  predicate IsTurn(s: State, a: Action, i: nat) {
    a.Advance? && a.i == i < |s.requests|
  }

  // How often a run lets request i take a step, and how often before its answer.
  function Turns(cfg: Setup, s: State, actions: seq<Action>, i: nat): nat
    decreases |actions|
  {
    if actions == [] then 0
    else (if IsTurn(s, actions[0], i) then 1 else 0) + Turns(cfg, Next(cfg, s, actions[0]), actions[1..], i)
  }

  function StepsTaken(cfg: Setup, s: State, actions: seq<Action>, i: nat): nat
    decreases |actions|
  {
    if actions == [] then 0
    else
      (if IsTurn(s, actions[0], i) && !Answered(s.requests[i].phase) then 1 else 0)
      + StepsTaken(cfg, Next(cfg, s, actions[0]), actions[1..], i)
  }

  // The phases of a POST that has not been refused.
  predicate Creating(phase: Phase) {
    || phase.AtGate? || phase.AtLimiter? || phase.Routed? || phase.Charging? || phase.Choosing?
    || phase.Probing? || phase.Storing? || phase.Inserting? || phase.Created?
  }

  // A step brings the answer nearer by at least one, and by precisely one on the way
  // to a created paste; only a probe that finds its key taken takes one step back.
  lemma StepCounts(cfg: Setup, s: State, i: nat, pick: string)
    requires i < |s.requests| && !Answered(s.requests[i].phase)
    ensures var r, e := s.requests[i], Act(cfg, s, i, pick);
            var left := StepsLeft(cfg, r.ask, e.phase);
            if r.phase.Probing? && |e.events| == 1 && TakenProbe(e.events[0], i)
            then left == StepsLeft(cfg, r.ask, r.phase) + 1
            else left < StepsLeft(cfg, r.ask, r.phase)
  {
    var phase := s.requests[i].phase;
    if phase.AtGate? || phase.AtLimiter? || phase.Routed? {
    } else {
      hide L.Serve, L.Active, Insert, Select, DeleteSlug, Purge, Bump, SlugIds, ExpiredIds, ReadBody, Acceptable;
      hide Longest, AfterRouting;
    }
  }

  lemma PostStepCounts(cfg: Setup, s: State, i: nat, pick: string)
    requires i < |s.requests| && !Answered(s.requests[i].phase) && s.requests[i].ask.Post?
    requires Creating(Act(cfg, s, i, pick).phase)
    ensures var r, e := s.requests[i], Act(cfg, s, i, pick);
            var left := StepsLeft(cfg, r.ask, e.phase);
            && Creating(r.phase)
            && if |e.events| == 1 && TakenProbe(e.events[0], i) then left == StepsLeft(cfg, r.ask, r.phase) + 1
               else left + 1 == StepsLeft(cfg, r.ask, r.phase)
  {
    hide L.Serve, Insert, Select, DeleteSlug, Purge, Bump, SlugIds, ExpiredIds, ReadBody, Acceptable;
  }

  // ---------------------------------------------------------------------------
  // The account of a run

  lemma TakenProbesAdd(log: seq<Event>, events: seq<Event>, i: nat)
    requires |events| <= 1
    ensures TakenProbes(log + events, i)
            == TakenProbes(log, i) + if |events| == 1 && TakenProbe(events[0], i) then 1 else 0
  {
    if events == [] {
      assert log + events == log;
    } else {
      assert (log + events)[..|log|] == log;
    }
  }

  // Request i, once it is there, has paid for its steps so far with what its kind
  // may take and two for each taken key.
  ghost predicate Balanced(cfg: Setup, s: State, i: nat, steps: nat, turns: nat) {
    if i >= |s.requests| then steps == turns == 0 && TakenProbes(s.log, i) == 0
    else
      var r := s.requests[i];
      var left, all := StepsLeft(cfg, r.ask, r.phase), Longest(cfg, r.ask) + Retries(s.log, i, r.ask);
      && steps + left <= all
      && (r.ask.Post? && Creating(r.phase) ==> steps + left == all)
      && (!Answered(r.phase) ==> steps == turns)
  }

  lemma ProbingPosts(cfg: Setup, s: State, i: nat)
    requires Inv(cfg, s) && i < |s.requests| && s.requests[i].phase.Probing?
    ensures s.requests[i].ask.Post?
  {
    assert RequestSound(cfg, s.log, i, s.requests[i]);
  }

  lemma EventsOf(cfg: Setup, s: State, j: nat, pick: string)
    requires j < |s.requests|
    ensures var events := Act(cfg, s, j, pick).events;
            && |events| <= 1
            && (forall i :: i != j && events != [] ==> !TakenProbe(events[0], i))
            && (Answered(s.requests[j].phase) ==> events == [] && Act(cfg, s, j, pick).phase == s.requests[j].phase)
  {
    hide L.Serve, L.Active, Insert, Select, DeleteSlug, Purge, Bump, SlugIds, ExpiredIds, ReadBody, Acceptable;
  }

  lemma TurnBalanced(cfg: Setup, s: State, i: nat, pick: string, steps: nat, turns: nat)
    requires Inv(cfg, s) && i < |s.requests| && Balanced(cfg, s, i, steps, turns)
    ensures Balanced(cfg, Next(cfg, s, Advance(i, pick)), i,
                      steps + if Answered(s.requests[i].phase) then 0 else 1, turns + 1)
  {
    hide Inv, Act, StepsLeft, TakenProbes, TakenProbe;
    var r, e := s.requests[i], Act(cfg, s, i, pick);
    EventsOf(cfg, s, i, pick);
    TakenProbesAdd(s.log, e.events, i);
    if !Answered(r.phase) {
      StepCounts(cfg, s, i, pick);
      if r.phase.Probing? {
        ProbingPosts(cfg, s, i);
      }
      if r.ask.Post? && Creating(e.phase) {
        PostStepCounts(cfg, s, i, pick);
      }
    }
  }

  lemma OtherBalanced(cfg: Setup, s: State, a: Action, i: nat, steps: nat, turns: nat)
    requires Balanced(cfg, s, i, steps, turns) && !IsTurn(s, a, i)
    ensures Balanced(cfg, Next(cfg, s, a), i, steps, turns)
  {
    hide Act, TakenProbes, TakenProbe;
    if a.Advance? && a.i < |s.requests| {
      EventsOf(cfg, s, a.i, a.pick);
      TakenProbesAdd(s.log, Act(cfg, s, a.i, a.pick).events, i);
    }
  }

  lemma {:induction false} RunBalanced(cfg: Setup, s: State, actions: seq<Action>, i: nat, steps: nat, turns: nat)
    requires Inv(cfg, s) && Balanced(cfg, s, i, steps, turns)
    ensures Balanced(cfg, Run(cfg, s, actions), i,
                      steps + StepsTaken(cfg, s, actions, i), turns + Turns(cfg, s, actions, i))
    decreases |actions|
  {
    hide Inv, Next, Balanced;
    if actions != [] {
      var a := actions[0];
      var step := if IsTurn(s, a, i) && !Answered(s.requests[i].phase) then 1 else 0;
      NextKeepsInv(cfg, s, a);
      if IsTurn(s, a, i) {
        TurnBalanced(cfg, s, i, a.pick, steps, turns);
      } else {
        OtherBalanced(cfg, s, a, i, steps, turns);
      }
      RunBalanced(cfg, Next(cfg, s, a), actions[1..], i, steps + step, turns + if IsTurn(s, a, i) then 1 else 0);
    }
  }

  function TurnsOf(x: Execution, i: nat): nat {
    Turns(x.cfg, Begin(x), x.actions, i)
  }

  function StepsOf(x: Execution, i: nat): nat {
    StepsTaken(x.cfg, Begin(x), x.actions, i)
  }

  lemma StartProbesNothing(x: Execution, i: nat)
    ensures TakenProbes(Begin(x).log, i) == 0 && Begin(x).requests == []
  {
    var log := Begin(x).log;
    assert log[..1][..0] == [];
    assert TakenProbes(log[..1], i) == 0;
    assert log == log[..1] || (|log| == 2 && log[..|log| - 1] == log[..1]);
  }

  // However the others interleave, a request is answered within a fixed number of
  // its own steps and two more for each key it found taken, and a POST that creates
  // a paste takes precisely that many.
  lemma RequestsFinish(x: Execution, i: nat)
    requires i < |Final(x).requests|
    ensures var r := Final(x).requests[i];
            var all := Longest(x.cfg, r.ask) + Retries(Final(x).log, i, r.ask);
            && StepsOf(x, i) + StepsLeft(x.cfg, r.ask, r.phase) <= all
            && (r.ask.Post? && Creating(r.phase) ==> StepsOf(x, i) + StepsLeft(x.cfg, r.ask, r.phase) == all)
            && (TurnsOf(x, i) >= all ==> Answered(r.phase))
  {
    hide Inv, Run, Start;
    StartProbesNothing(x, i);
    StartInv(x.cfg, x.found, x.key, x.document, x.seconds, x.millis);
    RunBalanced(x.cfg, Begin(x), x.actions, i, 0, 0);
  }

  // ---------------------------------------------------------------------------
  // Nothing blocks

  // A pending probe may still be about a key that is taken.
  function AloneBound(cfg: Setup, r: Request, key: string): nat {
    StepsLeft(cfg, r.ask, r.phase) + if r.phase.Probing? && r.phase.key != key then 2 else 0
  }

  lemma AloneBoundFalls(cfg: Setup, s: State, i: nat, key: string)
    requires i < |s.requests| && Unused(s.table.rows, key) && !Answered(s.requests[i].phase)
    ensures var r := s.requests[i];
            AloneBound(cfg, r.(phase := Act(cfg, s, i, key).phase), key) < AloneBound(cfg, r, key)
  {
    StepCounts(cfg, s, i, key);
  }

  // The server is never stuck: whatever the others are in the middle of, a request
  // gets its answer by its own steps alone once it is offered a key that no row has.
  lemma {:induction false} NeverStuck(cfg: Setup, s: State, i: nat, key: string) returns (n: nat)
    requires i < |s.requests| && Unused(s.table.rows, key)
    ensures n <= AloneBound(cfg, s.requests[i], key)
    ensures var u := Run(cfg, s, Steps(i, key, n));
            i < |u.requests| && Answered(u.requests[i].phase)
    decreases AloneBound(cfg, s.requests[i], key)
  {
    hide StepsLeft, Unused;
    var r := s.requests[i];
    if Answered(r.phase) {
      n := 0;
    } else {
      var s1 := Next(cfg, s, Advance(i, key));
      AloneBoundFalls(cfg, s, i, key);
      if Answered(s1.requests[i].phase) {
        n := 1;
        RunOne(cfg, s, Advance(i, key));
        assert Steps(i, key, 1) == [Advance(i, key)];
      } else {
        n := NeverStuck(cfg, s1, i, key);
        n := n + 1;
        assert Steps(i, key, n)[1..] == Steps(i, key, n - 1);
      }
    }
  }
}
