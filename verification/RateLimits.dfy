// The per-client fixed-window limiter (internal/handler/ratelimit.go) as functions
// on values; RateLimiter.dfy holds the mutable object that implements it.
module RateLimits {

  const SWEEP_THRESHOLD := 1024

  datatype Params = Params(max: int, maxBytes: int, window: int)

  datatype Window = Window(count: int, bytes: int, reset: int)

  type Windows = map<string, Window>

  // One call that reaches the limiter: middleware admission of a request, or the
  // handler charging n accepted bytes. `now` is the timestamp the caller passes.
  datatype Call =
    | Allow(ip: string, now: int)
    | Charge(ip: string, n: nat, now: int)

  datatype Budget = Requests | Bytes

  function Limit(p: Params, d: Budget): int {
    if d.Requests? then p.max else p.maxBytes
  }

  function Used(w: Window, d: Budget): int {
    if d.Requests? then w.count else w.bytes
  }

  function Cost(c: Call, d: Budget): nat {
    match c
    case Allow(_, _) => if d.Requests? then 1 else 0
    case Charge(_, n, _) => if d.Requests? then 0 else n
  }

  // A limit or a window that is not positive switches a budget off.
  predicate Active(p: Params, d: Budget) {
    Limit(p, d) > 0 && p.window > 0
  }

  function BudgetOf(c: Call): Budget {
    if c.Allow? then Requests else Bytes
  }

  predicate Expired(w: Window, now: int) {
    now > w.reset
  }

  function Sweep(m: Windows, now: int): Windows {
    if |m| < SWEEP_THRESHOLD then m
    else map ip | ip in m && !Expired(m[ip], now) :: m[ip]
  }

  predicate NeedsWindow(m: Windows, ip: string, now: int) {
    ip !in m || Expired(m[ip], now)
  }

  // getWindow: the client's window, opened afresh (and the map swept) when needed.
  // `sweeping` is false only in the reference limiter that never forgets.
  function Roll(p: Params, m: Windows, ip: string, now: int, sweeping: bool): (r: Windows)
    requires p.window >= 0
    ensures ip in r && !Expired(r[ip], now)
  {
    if NeedsWindow(m, ip, now) then
      var renewed := m[ip := Window(0, 0, now + p.window)];
      if sweeping then Sweep(renewed, now) else renewed
    else m
  }

  lemma RollOpens(p: Params, m: Windows, ip: string, now: int)
    requires p.window >= 0 && NeedsWindow(m, ip, now)
    ensures Roll(p, m, ip, now, true) == Sweep(m[ip := Window(0, 0, now + p.window)], now)
  {
  }

  // Charge the call to the client's current window, unless that exceeds its budget.
  function Spend(p: Params, m: Windows, c: Call): (Windows, bool)
    requires c.ip in m
  {
    var w := m[c.ip];
    match c
    case Allow(ip, _) =>
      if w.count >= p.max then (m, false)
      else (m[ip := w.(count := w.count + 1)], true)
    case Charge(ip, n, _) =>
      if w.bytes + n > p.maxBytes then (m, false)
      else (m[ip := w.(bytes := w.bytes + n)], true)
  }

  // Granted exactly when the cost still fits, and then counted in its own budget.
  lemma SpendMeaning(p: Params, m: Windows, c: Call)
    requires c.ip in m
    ensures var w, d := m[c.ip], BudgetOf(c);
            Spend(p, m, c) ==
            if Used(w, d) + Cost(c, d) <= Limit(p, d)
            then (m[c.ip := Window(w.count + Cost(c, Requests), w.bytes + Cost(c, Bytes), w.reset)], true)
            else (m, false)
  {
  }

  function Serve(p: Params, m: Windows, c: Call, sweeping: bool): (Windows, bool) {
    if !Active(p, BudgetOf(c)) then (m, true)
    else Spend(p, Roll(p, m, c.ip, c.now, sweeping), c)
  }

  // A run: the windows it ends with and the answer to each call.
  function Run(p: Params, m: Windows, calls: seq<Call>, sweeping: bool): (r: (Windows, seq<bool>))
    ensures |r.1| == |calls|
    decreases |calls|
  {
    if calls == [] then (m, [])
    else
      var (m1, ok) := Serve(p, m, calls[0], sweeping);
      var (m2, oks) := Run(p, m1, calls[1..], sweeping);
      (m2, [ok] + oks)
  }

  predicate Nondecreasing(calls: seq<Call>) {
    forall i, j :: 0 <= i < j < |calls| ==> calls[i].now <= calls[j].now
  }

  predicate After(calls: seq<Call>, t: int) {
    forall i :: 0 <= i < |calls| ==> t <= calls[i].now
  }

  // What client ip was granted from budget d with timestamps in [lo, hi].
  function Granted(calls: seq<Call>, oks: seq<bool>, d: Budget, ip: string, lo: int, hi: int): nat
    requires |oks| == |calls|
  {
    if calls == [] then 0
    else
      (if oks[0] && calls[0].ip == ip && lo <= calls[0].now <= hi then Cost(calls[0], d) else 0)
      + Granted(calls[1..], oks[1..], d, ip, lo, hi)
  }

  // Windows that matter over an interval of length L, with windows of length W:
  // the one already open and one every W + 1 ticks after it.
  function Factor(L: nat, W: nat): nat {
    (L + W) / (W + 1) + 1
  }

  // ---------------------------------------------------------------------------
  // The interval bound

  // Everything grantable by windows opened from now on, x ticks before the end.
  function Future(limit: nat, W: nat, x: int): nat
    decreases x + 1
  {
    if x < 0 then 0 else limit + Future(limit, W, x - (W + 1))
  }

  lemma {:induction false} FutureMonotone(limit: nat, W: nat, x: int, y: int)
    requires x <= y
    ensures Future(limit, W, x) <= Future(limit, W, y)
    decreases y + 1
  {
    if x >= 0 {
      FutureMonotone(limit, W, x - (W + 1), y - (W + 1));
    }
  }

  lemma AtLeastOnce(k: int, d: nat)
    requires k >= 1
    ensures k * d >= d
  {
    assert (k - 1) * d >= 0;
    assert k * d == (k - 1) * d + d;
  }

  lemma DivUnique(x: nat, d: nat, q: nat, r: nat)
    requires d > 0 && r < d && x == q * d + r
    ensures x / d == q
  {
    var p, s := x / d, x % d;
    assert p * d + s == q * d + r;
    assert (p - q) * d == p * d - q * d && (q - p) * d == q * d - p * d;
    if p > q {
      AtLeastOnce(p - q, d);
    } else if p < q {
      AtLeastOnce(q - p, d);
    }
  }

  lemma DivStep(x: nat, d: nat)
    requires d > 0
    ensures (x + d) / d == x / d + 1
  {
    var q := x / d;
    assert x == q * d + x % d;
    assert (q + 1) * d == q * d + d;
    DivUnique(x + d, d, q + 1, x % d);
  }

  lemma {:induction false} FutureClosedForm(limit: nat, W: nat, x: nat)
    ensures Future(limit, W, x) == limit * (x / (W + 1) + 1)
    decreases x
  {
    if x >= W + 1 {
      var y := x - (W + 1);
      FutureClosedForm(limit, W, y);
      DivStep(y, W + 1);
      assert limit + limit * (y / (W + 1) + 1) == limit * (x / (W + 1) + 1);
    } else {
      assert x / (W + 1) == 0;
    }
  }

  lemma Distribute(a: nat, b: int)
    ensures a + a * b == a * (b + 1)
  {
  }

  lemma WindowPlusFuture(limit: nat, W: nat, L: nat)
    ensures limit + Future(limit, W, L - 1) == limit * Factor(L, W)
    ensures Future(limit, W, L) <= limit * Factor(L, W)
  {
    FutureMonotone(limit, W, L - (W + 1), L - 1);
    if L == 0 {
      DivUnique(W, W + 1, 0, W);
    } else {
      FutureClosedForm(limit, W, L - 1);
      DivStep(L - 1, W + 1);
      assert L + W == L - 1 + (W + 1);
      Distribute(limit, Factor(L, W) - 1);
    }
  }

  // What client ip can still be granted from budget d up to hi, seen at time cur.
  function Potential(p: Params, m: Windows, d: Budget, ip: string, cur: int, hi: int): int
    requires Active(p, d)
  {
    if NeedsWindow(m, ip, cur) then Future(Limit(p, d), p.window, hi - cur)
    else Limit(p, d) - Used(m[ip], d) + Future(Limit(p, d), p.window, hi - (m[ip].reset + 1))
  }

  // No window has been granted more than a budget that is switched on.
  predicate WithinLimits(p: Params, m: Windows) {
    forall ip <- m ::
      && 0 <= m[ip].count && 0 <= m[ip].bytes
      && (Active(p, Requests) ==> m[ip].count <= p.max)
      && (Active(p, Bytes) ==> m[ip].bytes <= p.maxBytes)
  }

  lemma ServeWithinLimits(p: Params, m: Windows, c: Call, sweeping: bool)
    requires WithinLimits(p, m)
    ensures WithinLimits(p, Serve(p, m, c, sweeping).0)
  {
  }

  // Time passing without calls cannot create potential.
  lemma PotentialDecays(p: Params, m: Windows, d: Budget, ip: string, cur: int, later: int, hi: int)
    requires Active(p, d) && WithinLimits(p, m) && cur <= later
    ensures Potential(p, m, d, ip, later, hi) <= Potential(p, m, d, ip, cur, hi)
    ensures Potential(p, m, d, ip, cur, hi) >= 0
  {
    FutureMonotone(Limit(p, d), p.window, hi - later, hi - cur);
    if !NeedsWindow(m, ip, cur) && NeedsWindow(m, ip, later) {
      FutureMonotone(Limit(p, d), p.window, hi - later, hi - (m[ip].reset + 1));
    }
  }

  // Opening a window for one client leaves another's window alone, or drops it
  // when it is over.
  lemma RollKeeps(p: Params, m: Windows, ip: string, now: int, other: string, sweeping: bool)
    requires p.window >= 0
    ensures var r := Roll(p, m, ip, now, sweeping);
            && (other != ip && other in r ==> other in m && r[other] == m[other])
            && (other != ip && other in m && !Expired(m[other], now) ==> other in r)
            && (other != ip && other in m && !sweeping ==> other in r)
            && r[ip] == if NeedsWindow(m, ip, now) then Window(0, 0, now + p.window) else m[ip]
  {
  }

  // Opening a window costs no potential.
  lemma RollPays(p: Params, m: Windows, c: Call, sweeping: bool, d: Budget, ip: string, hi: int)
    requires Active(p, d) && p.window >= 0 && c.now <= hi
    ensures Potential(p, Roll(p, m, c.ip, c.now, sweeping), d, ip, c.now, hi) <= Potential(p, m, d, ip, c.now, hi)
  {
    RollKeeps(p, m, c.ip, c.now, ip, sweeping);
    var limit := Limit(p, d);
    assert Future(limit, p.window, hi - c.now) == limit + Future(limit, p.window, hi - (c.now + p.window + 1));
    hide Future, Roll;
  }

  // One call pays for its grant out of the potential, whoever makes it.
  lemma ServePays(p: Params, m: Windows, c: Call, sweeping: bool, d: Budget, ip: string, hi: int)
    requires Active(p, d) && WithinLimits(p, m) && c.now <= hi
    ensures var (m1, ok) := Serve(p, m, c, sweeping);
            (if ok && c.ip == ip then Cost(c, d) else 0)
            + Potential(p, m1, d, ip, c.now, hi)
            <= Potential(p, m, d, ip, c.now, hi)
  {
    if Active(p, BudgetOf(c)) {
      RollPays(p, m, c, sweeping, d, ip, hi);
      hide Future, Roll;
    }
  }

  lemma {:induction false} NothingAfter(calls: seq<Call>, oks: seq<bool>, d: Budget, ip: string, lo: int, hi: int)
    requires |oks| == |calls| && After(calls, hi + 1)
    ensures Granted(calls, oks, d, ip, lo, hi) == 0
  {
    if calls != [] {
      NothingAfter(calls[1..], oks[1..], d, ip, lo, hi);
    }
  }

  // From time cur inside the interval on, grants are bounded by the potential.
  lemma {:induction false} GrantedByPotential(p: Params, m: Windows, calls: seq<Call>, sweeping: bool,
                                              d: Budget, ip: string, lo: int, hi: int, cur: int)
    requires Active(p, d) && WithinLimits(p, m)
    requires Nondecreasing(calls) && After(calls, cur)
    ensures Granted(calls, Run(p, m, calls, sweeping).1, d, ip, lo, hi) <= Potential(p, m, d, ip, cur, hi)
    decreases |calls|
  {
    if calls == [] {
      PotentialDecays(p, m, d, ip, cur, cur, hi);
    } else if calls[0].now > hi {
      NothingAfter(calls, Run(p, m, calls, sweeping).1, d, ip, lo, hi);
      PotentialDecays(p, m, d, ip, cur, cur, hi);
    } else {
      var c := calls[0];
      var (m1, ok) := Serve(p, m, c, sweeping);
      PotentialDecays(p, m, d, ip, cur, c.now, hi);
      ServePays(p, m, c, sweeping, d, ip, hi);
      ServeWithinLimits(p, m, c, sweeping);
      GrantedByPotential(p, m1, calls[1..], sweeping, d, ip, lo, hi, c.now);
      assert Run(p, m, calls, sweeping).1[1..] == Run(p, m1, calls[1..], sweeping).1;
    }
  }

  lemma PotentialAtStart(p: Params, m: Windows, d: Budget, ip: string, lo: int, hi: int)
    requires Active(p, d) && WithinLimits(p, m) && lo <= hi
    ensures Potential(p, m, d, ip, lo, hi) <= Limit(p, d) * Factor(hi - lo, p.window)
  {
    WindowPlusFuture(Limit(p, d), p.window, hi - lo);
    if !NeedsWindow(m, ip, lo) {
      FutureMonotone(Limit(p, d), p.window, hi - (m[ip].reset + 1), hi - lo - 1);
    }
  }

  lemma {:induction false} GrantedFrom(p: Params, m: Windows, calls: seq<Call>, sweeping: bool,
                                       d: Budget, ip: string, lo: int, hi: int)
    requires Active(p, d) && WithinLimits(p, m) && Nondecreasing(calls) && lo <= hi
    ensures Granted(calls, Run(p, m, calls, sweeping).1, d, ip, lo, hi)
            <= Limit(p, d) * Factor(hi - lo, p.window)
    decreases |calls|
  {
    if calls == [] || lo <= calls[0].now {
      GrantedByPotential(p, m, calls, sweeping, d, ip, lo, hi, lo);
      PotentialAtStart(p, m, d, ip, lo, hi);
    } else {
      var (m1, ok) := Serve(p, m, calls[0], sweeping);
      ServeWithinLimits(p, m, calls[0], sweeping);
      GrantedFrom(p, m1, calls[1..], sweeping, d, ip, lo, hi);
      assert Run(p, m, calls, sweeping).1[1..] == Run(p, m1, calls[1..], sweeping).1;
    }
  }

  // The interval theorem: whatever the other clients do, over any closed interval
  // a client is granted at most so many times a budget that is positive.
  lemma IntervalBound(p: Params, m: Windows, calls: seq<Call>, sweeping: bool,
                      d: Budget, ip: string, lo: int, hi: int)
    requires p.window > 0 && (if d.Requests? then p.max else p.maxBytes) > 0
    requires WithinLimits(p, m) && Nondecreasing(calls) && lo <= hi
    ensures Granted(calls, Run(p, m, calls, sweeping).1, d, ip, lo, hi)
            <= (if d.Requests? then p.max else p.maxBytes) * ((hi - lo + p.window) / (p.window + 1) + 1)
  {
    GrantedFrom(p, m, calls, sweeping, d, ip, lo, hi);
  }

  // Within one window length the bound is twice the limit.
  lemma TwiceTheLimit(p: Params, m: Windows, calls: seq<Call>, sweeping: bool,
                      d: Budget, ip: string, lo: int, hi: int)
    requires p.window > 0 && (if d.Requests? then p.max else p.maxBytes) > 0
    requires WithinLimits(p, m) && Nondecreasing(calls) && 1 <= hi - lo <= p.window
    ensures Granted(calls, Run(p, m, calls, sweeping).1, d, ip, lo, hi)
            <= 2 * if d.Requests? then p.max else p.maxBytes
  {
    GrantedFrom(p, m, calls, sweeping, d, ip, lo, hi);
    DivStep(hi - lo - 1, p.window + 1);
    assert (hi - lo - 1) / (p.window + 1) == 0;
  }

  // ---------------------------------------------------------------------------
  // One window, counted plainly

  // A client's calls while one window lasts, against two plain counters; a budget
  // that is zero or less refuses nothing.
  function Counted(p: Params, count: nat, bytes: nat, calls: seq<Call>): (oks: seq<bool>)
    ensures |oks| == |calls|
    decreases |calls|
  {
    if calls == [] then []
    else
      match calls[0]
      case Allow(_, _) =>
        var ok := p.max <= 0 || count < p.max;
        [ok] + Counted(p, if ok then count + 1 else count, bytes, calls[1..])
      case Charge(_, n, _) =>
        var ok := p.maxBytes <= 0 || bytes + n <= p.maxBytes;
        [ok] + Counted(p, count, if ok then bytes + n else bytes, calls[1..])
  }

  // The window in m has seen this much, or is still to be opened.
  predicate Shows(p: Params, m: Windows, ip: string, t: int, count: nat, bytes: nat) {
    if NeedsWindow(m, ip, t) then (p.max > 0 ==> count == 0) && (p.maxBytes > 0 ==> bytes == 0)
    else
      && t + p.window <= m[ip].reset
      && (p.max > 0 ==> m[ip].count == count) && (p.maxBytes > 0 ==> m[ip].bytes == bytes)
  }

  lemma {:induction false} CountedFrom(p: Params, m: Windows, calls: seq<Call>, sweeping: bool, ip: string, t: int,
                                       count: nat, bytes: nat)
    requires p.window > 0 && Shows(p, m, ip, t, count, bytes)
    requires forall c <- calls :: c.ip == ip && t <= c.now <= t + p.window
    ensures Run(p, m, calls, sweeping).1 == Counted(p, count, bytes, calls)
    decreases |calls|
  {
    if calls != [] {
      var c := calls[0];
      assert c in calls;
      var (m1, ok) := Serve(p, m, c, sweeping);
      if Active(p, BudgetOf(c)) {
        RollKeeps(p, m, ip, c.now, ip, sweeping);
      }
      var count1 := if c.Allow? && (p.max <= 0 || count < p.max) then count + 1 else count;
      var bytes1 := if c.Charge? && (p.maxBytes <= 0 || bytes + c.n <= p.maxBytes) then bytes + c.n else bytes;
      CountedFrom(p, m1, calls[1..], sweeping, ip, t, count1, bytes1);
    }
  }

  // From a time at which a client has no window, and for one window length, its
  // calls are answered by the two counters.
  lemma WindowIsCounted(p: Params, m: Windows, calls: seq<Call>, sweeping: bool, ip: string, t: int)
    requires p.window > 0 && (ip !in m || t > m[ip].reset)
    requires forall c <- calls :: c.ip == ip && t <= c.now <= t + p.window
    ensures Run(p, m, calls, sweeping).1 == Counted(p, 0, 0, calls)
  {
    CountedFrom(p, m, calls, sweeping, ip, t, 0, 0);
  }

  lemma {:induction false} CountedAllows(p: Params, count: nat, bytes: nat, calls: seq<Call>, i: nat)
    requires (forall c <- calls :: c.Allow?) && i < |calls| && p.max > 0 && count <= p.max
    ensures Counted(p, count, bytes, calls)[i] <==> count + i < p.max
    decreases |calls|
  {
    assert calls[0] in calls;
    if i > 0 {
      CountedAllows(p, if count < p.max then count + 1 else count, bytes, calls[1..], i - 1);
    }
  }

  // So of the requests within one window the first max pass, and no other.
  lemma FirstMaxPass(p: Params, m: Windows, calls: seq<Call>, sweeping: bool, ip: string, t: int, i: nat)
    requires p.window > 0 && p.max > 0 && (ip !in m || t > m[ip].reset)
    requires forall c <- calls :: c.Allow? && c.ip == ip && t <= c.now <= t + p.window
    requires i < |calls|
    ensures Run(p, m, calls, sweeping).1[i] <==> i < p.max
  {
    WindowIsCounted(p, m, calls, sweeping, ip, t);
    CountedAllows(p, 0, 0, calls, i);
  }

  // A budget lets everything pass, and keeps no account of it, exactly when it or
  // the window is zero or less.
  lemma OffExactly(p: Params, d: Budget)
    ensures (forall m, c, sweeping :: BudgetOf(c) == d ==> Serve(p, m, c, sweeping) == (m, true)) <==>
            p.window <= 0 || (if d.Requests? then p.max else p.maxBytes) <= 0
  {
    var c := if d.Requests? then Allow("", 0) else Charge("", 1, 0);
    var m: Windows := map[];
    assert BudgetOf(c) == d;
    assert Active(p, d) ==> c.ip in Serve(p, m, c, false).0;
  }

  // ---------------------------------------------------------------------------
  // Runs and their parts

  lemma RunOne(p: Params, m: Windows, c: Call, sweeping: bool)
    ensures Run(p, m, [c], sweeping) == (Serve(p, m, c, sweeping).0, [Serve(p, m, c, sweeping).1])
  {
    var calls := [c];
    var (m1, ok) := Serve(p, m, c, sweeping);
    assert calls[1..] == [];
    assert Run(p, m1, [], sweeping) == (m1, []);
    assert [ok] + [] == [ok];
  }

  lemma {:induction false} RunAppend(p: Params, m: Windows, a: seq<Call>, b: seq<Call>, sweeping: bool)
    ensures var (m1, oks) := Run(p, m, a, sweeping);
            Run(p, m, a + b, sweeping) == (Run(p, m1, b, sweeping).0, oks + Run(p, m1, b, sweeping).1)
    decreases |a|
  {
    if a == [] {
      assert a + b == b;
      assert [] + Run(p, m, b, sweeping).1 == Run(p, m, b, sweeping).1;
    } else {
      var (m1, ok) := Serve(p, m, a[0], sweeping);
      assert (a + b)[1..] == a[1..] + b;
      RunAppend(p, m1, a[1..], b, sweeping);
      var (m2, oks) := Run(p, m1, a[1..], sweeping);
      var bOks := Run(p, m2, b, sweeping).1;
      assert [ok] + (oks + bOks) == ([ok] + oks) + bOks;
    }
  }

  lemma {:induction false} GrantedAppend(a: seq<Call>, aOks: seq<bool>, b: seq<Call>, bOks: seq<bool>,
                                         d: Budget, ip: string, lo: int, hi: int)
    requires |a| == |aOks| && |b| == |bOks|
    ensures Granted(a + b, aOks + bOks, d, ip, lo, hi)
            == Granted(a, aOks, d, ip, lo, hi) + Granted(b, bOks, d, ip, lo, hi)
    decreases |a|
  {
    if a == [] {
      assert a + b == b && aOks + bOks == bOks;
    } else {
      assert (a + b)[1..] == a[1..] + b && (aOks + bOks)[1..] == aOks[1..] + bOks;
      GrantedAppend(a[1..], aOks[1..], b, bOks, d, ip, lo, hi);
    }
  }

  // ---------------------------------------------------------------------------
  // The tightest bound

  // Charges no larger than the largest body, and none empty: blank bodies are
  // refused before they are charged. Any number of them can come at one moment,
  // from requests admitted over earlier windows.
  predicate Feasible(cap: nat, calls: seq<Call>) {
    forall c <- calls :: c.Charge? ==> 1 <= c.n <= cap
  }

  // The smallest call of a budget.
  function Unit(d: Budget, ip: string, t: int): Call {
    if d.Requests? then Allow(ip, t) else Charge(ip, 1, t)
  }

  function Units(d: Budget, ip: string, t: int, n: nat): seq<Call> {
    if n == 0 then [] else [Unit(d, ip, t)] + Units(d, ip, t, n - 1)
  }

  // The whole of one budget, asked for at time t.
  function Burst(p: Params, d: Budget, ip: string, t: int): seq<Call>
    requires Active(p, d)
  {
    Units(d, ip, t, Limit(p, d))
  }

  // Bursts at t and at every opening of a new window after it.
  function Waves(p: Params, d: Budget, ip: string, t: int, hi: int): seq<Call>
    requires Active(p, d)
    decreases hi - t + 1
  {
    if t > hi then [] else Burst(p, d, ip, t) + Waves(p, d, ip, t + p.window + 1, hi)
  }

  // No call can open a window without counting in this budget: the other one is
  // off, and every body fits an empty window.
  predicate Alone(p: Params, d: Budget, cap: nat) {
    if d.Requests? then !Active(p, Bytes) else !Active(p, Requests) && cap <= p.maxBytes
  }

  // A call that does: of the other budget, or too big to be granted.
  function Opener(p: Params, d: Budget, ip: string, t: int): Call
    requires Active(p, d)
  {
    if d.Requests? then Charge(ip, 1, t)
    else if Active(p, Requests) then Allow(ip, t)
    else Charge(ip, p.maxBytes + 1, t)
  }

  // The most an interval of length L can see granted: one less than the interval
  // bound where the budget is alone, unless L is a whole number of window periods.
  function Tight(p: Params, d: Budget, cap: nat, L: nat): int
    requires Active(p, d)
  {
    Limit(p, d) * Factor(L, p.window) - if Alone(p, d, cap) && L % (p.window + 1) != 0 then 1 else 0
  }

  predicate FullBudget(m: Windows, d: Budget, ip: string, t: int) {
    NeedsWindow(m, ip, t) || Used(m[ip], d) == 0
  }

  lemma UnitServed(p: Params, m: Windows, d: Budget, ip: string, t: int, sweeping: bool)
    requires Active(p, d) && ip in m && !Expired(m[ip], t) && Used(m[ip], d) < Limit(p, d)
    ensures var (m1, ok) := Serve(p, m, Unit(d, ip, t), sweeping);
            ok && ip in m1 && m1[ip].reset == m[ip].reset && Used(m1[ip], d) == Used(m[ip], d) + 1
  {
  }

  lemma {:induction false} UnitsGranted(p: Params, m: Windows, d: Budget, ip: string, t: int, n: nat, sweeping: bool,
                                        lo: int, hi: int)
    requires Active(p, d) && lo <= t <= hi
    requires ip in m && !Expired(m[ip], t) && Used(m[ip], d) + n <= Limit(p, d)
    ensures var (m1, oks) := Run(p, m, Units(d, ip, t, n), sweeping);
            && Granted(Units(d, ip, t, n), oks, d, ip, lo, hi) == n
            && ip in m1 && m1[ip].reset == m[ip].reset
    decreases n
  {
    if n > 0 {
      var m1 := Serve(p, m, Unit(d, ip, t), sweeping).0;
      UnitServed(p, m, d, ip, t, sweeping);
      UnitsGranted(p, m1, d, ip, t, n - 1, sweeping, lo, hi);
      assert Units(d, ip, t, n)[1..] == Units(d, ip, t, n - 1);
      assert Run(p, m, Units(d, ip, t, n), sweeping).1[1..] == Run(p, m1, Units(d, ip, t, n - 1), sweeping).1;
    }
  }

  lemma BurstGranted(p: Params, m: Windows, d: Budget, ip: string, t: int, sweeping: bool, lo: int, hi: int)
    requires Active(p, d) && lo <= t <= hi && FullBudget(m, d, ip, t)
    ensures var (m1, oks) := Run(p, m, Burst(p, d, ip, t), sweeping);
            && Granted(Burst(p, d, ip, t), oks, d, ip, lo, hi) == Limit(p, d)
            && ip in m1
            && m1[ip].reset == (if NeedsWindow(m, ip, t) then t + p.window else m[ip].reset)
  {
    var calls := Burst(p, d, ip, t);
    var rolled := Roll(p, m, ip, t, sweeping);
    assert Serve(p, m, calls[0], sweeping) == Serve(p, rolled, calls[0], sweeping);
    assert Run(p, m, calls, sweeping) == Run(p, rolled, calls, sweeping);
    UnitsGranted(p, rolled, d, ip, t, Limit(p, d), sweeping, lo, hi);
  }

  lemma {:induction false} WavesGranted(p: Params, m: Windows, d: Budget, ip: string, t: int, sweeping: bool,
                                        lo: int, hi: int)
    requires Active(p, d) && lo <= t && NeedsWindow(m, ip, t)
    ensures Granted(Waves(p, d, ip, t, hi), Run(p, m, Waves(p, d, ip, t, hi), sweeping).1, d, ip, lo, hi)
            == Future(Limit(p, d), p.window, hi - t)
    decreases hi - t + 1
  {
    if t <= hi {
      var first, next := Burst(p, d, ip, t), t + p.window + 1;
      var rest := Waves(p, d, ip, next, hi);
      BurstGranted(p, m, d, ip, t, sweeping, lo, hi);
      var (m1, oks) := Run(p, m, first, sweeping);
      WavesGranted(p, m1, d, ip, next, sweeping, lo, hi);
      RunAppend(p, m, first, rest, sweeping);
      GrantedAppend(first, oks, rest, Run(p, m1, rest, sweeping).1, d, ip, lo, hi);
    }
  }

  // In order, in the interval, and made of feasible calls.
  predicate Proper(cap: nat, calls: seq<Call>, from: int, to: int) {
    Nondecreasing(calls) && Feasible(cap, calls) && forall c <- calls :: from <= c.now <= to
  }

  lemma ProperAppend(cap: nat, a: seq<Call>, b: seq<Call>, x: int, y: int, z: int)
    requires Proper(cap, a, x, y) && Proper(cap, b, y, z) && x <= y <= z
    ensures Proper(cap, a + b, x, z)
  {
    assert forall i :: 0 <= i < |a| ==> a[i] in a;
    assert forall i :: 0 <= i < |b| ==> b[i] in b;
  }

  lemma {:induction false} UnitsProper(cap: nat, d: Budget, ip: string, t: int, n: nat)
    requires cap >= 1
    ensures Proper(cap, Units(d, ip, t, n), t, t)
  {
    if n > 0 {
      UnitsProper(cap, d, ip, t, n - 1);
      assert Proper(cap, [Unit(d, ip, t)], t, t);
      ProperAppend(cap, [Unit(d, ip, t)], Units(d, ip, t, n - 1), t, t, t);
    }
  }

  lemma {:induction false} WavesProper(cap: nat, p: Params, d: Budget, ip: string, t: int, hi: int)
    requires Active(p, d) && cap >= 1 && t <= hi + 1
    ensures Proper(cap, Waves(p, d, ip, t, hi), t, if t <= hi then hi else t)
    decreases hi - t + 1
  {
    if t <= hi {
      var next := t + p.window + 1;
      var rest := Waves(p, d, ip, next, hi);
      UnitsProper(cap, d, ip, t, Limit(p, d));
      if next <= hi + 1 {
        WavesProper(cap, p, d, ip, next, hi);
      }
      assert next > hi ==> rest == [];
      ProperAppend(cap, Burst(p, d, ip, t), rest, t, t, hi);
    }
  }

  // A first call at the opening, some at lo, and waves after it.
  lemma WorstProper(cap: nat, p: Params, d: Budget, ip: string, first: Call, n: nat, lo: int, hi: int)
    requires Active(p, d) && cap >= 1 && lo < hi
    requires first.now == lo - p.window && (first.Charge? ==> 1 <= first.n <= cap)
    ensures Proper(cap, [first] + (Units(d, ip, lo, n) + Waves(p, d, ip, lo + 1, hi)), lo - p.window, hi)
  {
    UnitsProper(cap, d, ip, lo, n);
    WavesProper(cap, p, d, ip, lo + 1, hi);
    ProperAppend(cap, Units(d, ip, lo, n), Waves(p, d, ip, lo + 1, hi), lo, lo, hi);
    assert Proper(cap, [first], lo - p.window, lo);
    ProperAppend(cap, [first], Units(d, ip, lo, n) + Waves(p, d, ip, lo + 1, hi), lo - p.window, lo, hi);
  }

  // The factor by the remainder of the interval's length.
  lemma FactorCases(L: nat, W: nat)
    ensures Factor(L, W) == L / (W + 1) + if L % (W + 1) == 0 then 1 else 2
  {
    var q, r := L / (W + 1), L % (W + 1);
    assert L == q * (W + 1) + r;
    if r == 0 {
      DivUnique(L + W, W + 1, q, W);
    } else {
      assert (q + 1) * (W + 1) == q * (W + 1) + (W + 1);
      DivUnique(L + W, W + 1, q + 1, r - 1);
    }
  }

  // The first call of a run opens a window and leaves that much of the budget used.
  lemma FirstCall(p: Params, d: Budget, c: Call, used: nat, sweeping: bool)
    requires Active(p, d) && Active(p, BudgetOf(c)) && used <= 1
    requires used == if Cost(c, BudgetOf(c)) <= Limit(p, BudgetOf(c)) then Cost(c, d) else 0
    ensures var (m, oks) := Run(p, map[], [c], sweeping);
            && c.ip in m && m[c.ip].reset == c.now + p.window && Used(m[c.ip], d) == used
            && forall lo, hi :: c.now < lo ==> Granted([c], oks, d, c.ip, lo, hi) == 0
  {
    var calls := [c];
    var (m, ok) := Serve(p, map[], c, sweeping);
    RunOne(p, map[], c, sweeping);
    forall lo, hi | c.now < lo
      ensures Granted(calls, [ok], d, c.ip, lo, hi) == 0
    {
      assert Granted(calls[1..], [ok][1..], d, c.ip, lo, hi) == 0;
    }
  }

  // What is left of a window over at lo, then whole windows.
  lemma RestThenWaves(p: Params, m: Windows, d: Budget, ip: string, n: nat, sweeping: bool, lo: int, hi: int)
    requires Active(p, d) && lo <= hi && ip in m && m[ip].reset == lo && Used(m[ip], d) + n == Limit(p, d)
    ensures var calls := Units(d, ip, lo, n) + Waves(p, d, ip, lo + 1, hi);
            Granted(calls, Run(p, m, calls, sweeping).1, d, ip, lo, hi)
            == n + Future(Limit(p, d), p.window, hi - (lo + 1))
  {
    var some, waves := Units(d, ip, lo, n), Waves(p, d, ip, lo + 1, hi);
    UnitsGranted(p, m, d, ip, lo, n, sweeping, lo, hi);
    var (m1, oks1) := Run(p, m, some, sweeping);
    WavesGranted(p, m1, d, ip, lo + 1, sweeping, lo, hi);
    RunAppend(p, m, some, waves, sweeping);
    GrantedAppend(some, oks1, waves, Run(p, m1, waves, sweeping).1, d, ip, lo, hi);
  }

  lemma WorstGranted(p: Params, d: Budget, first: Call, used: nat, lo: int, hi: int, sweeping: bool)
    requires Active(p, d) && Active(p, BudgetOf(first)) && lo < hi && used <= 1 && first.now == lo - p.window
    requires used == if Cost(first, BudgetOf(first)) <= Limit(p, BudgetOf(first)) then Cost(first, d) else 0
    ensures var calls := [first] + (Units(d, first.ip, lo, Limit(p, d) - used) + Waves(p, d, first.ip, lo + 1, hi));
            Granted(calls, Run(p, map[], calls, sweeping).1, d, first.ip, lo, hi)
            == Limit(p, d) * Factor(hi - lo, p.window) - used
  {
    hide Run, Granted, Waves, Future;
    WindowPlusFuture(Limit(p, d), p.window, hi - lo);
    var ip := first.ip;
    var rest := Units(d, ip, lo, Limit(p, d) - used) + Waves(p, d, ip, lo + 1, hi);
    FirstCall(p, d, first, used, sweeping);
    var (m0, oks0) := Run(p, map[], [first], sweeping);
    RestThenWaves(p, m0, d, ip, Limit(p, d) - used, sweeping, lo, hi);
    RunAppend(p, map[], [first], rest, sweeping);
    GrantedAppend([first], oks0, rest, Run(p, m0, rest, sweeping).1, d, ip, lo, hi);
  }

  lemma WavesAlone(p: Params, d: Budget, ip: string, lo: int, L: nat, sweeping: bool)
    requires Active(p, d) && L % (p.window + 1) == 0
    ensures var calls := Waves(p, d, ip, lo, lo + L);
            Granted(calls, Run(p, map[], calls, sweeping).1, d, ip, lo, lo + L) == Limit(p, d) * Factor(L, p.window)
  {
    WavesGranted(p, map[], d, ip, lo, sweeping, lo, lo + L);
    FutureClosedForm(Limit(p, d), p.window, L);
    FactorCases(L, p.window);
  }

  lemma WavesAttain(p: Params, d: Budget, cap: nat, ip: string, lo: int, L: nat, sweeping: bool)
      returns (calls: seq<Call>)
    requires Active(p, d) && cap >= 1 && L % (p.window + 1) == 0
    ensures Proper(cap, calls, lo, lo + L)
    ensures Granted(calls, Run(p, map[], calls, sweeping).1, d, ip, lo, lo + L) == Limit(p, d) * Factor(L, p.window)
  {
    hide Run, Granted, Waves, Factor;
    calls := Waves(p, d, ip, lo, lo + L);
    WavesProper(cap, p, d, ip, lo, lo + L);
    WavesAlone(p, d, ip, lo, L, sweeping);
  }

  // A first call as long before the interval as its window lasts, then all that is
  // left of that window, then whole windows.
  lemma OpeningAttains(p: Params, d: Budget, cap: nat, first: Call, used: nat, lo: int, hi: int, sweeping: bool)
      returns (calls: seq<Call>)
    requires Active(p, d) && Active(p, BudgetOf(first)) && cap >= 1 && lo < hi && used <= 1
    requires first.now == lo - p.window && (first.Charge? ==> 1 <= first.n <= cap)
    requires used == if Cost(first, BudgetOf(first)) <= Limit(p, BudgetOf(first)) then Cost(first, d) else 0
    ensures Proper(cap, calls, lo - p.window, hi)
    ensures Granted(calls, Run(p, map[], calls, sweeping).1, d, first.ip, lo, hi)
            == Limit(p, d) * Factor(hi - lo, p.window) - used
  {
    hide Run, Granted, Waves, Factor, Proper;
    calls := [first] + (Units(d, first.ip, lo, Limit(p, d) - used) + Waves(p, d, first.ip, lo + 1, hi));
    WorstProper(cap, p, d, first.ip, first, Limit(p, d) - used, lo, hi);
    WorstGranted(p, d, first, used, lo, hi, sweeping);
  }

  // The bound is the tightest there is: for every interval some run of feasible
  // calls is granted that much.
  lemma BoundAttained(p: Params, d: Budget, cap: nat, ip: string, lo: int, L: nat, sweeping: bool)
      returns (calls: seq<Call>)
    requires Active(p, d) && cap >= 1
    ensures Nondecreasing(calls) && Feasible(cap, calls)
    ensures Granted(calls, Run(p, map[], calls, sweeping).1, d, ip, lo, lo + L) == Tight(p, d, cap, L)
  {
    hide Run, Granted, Factor;
    if L % (p.window + 1) == 0 {
      calls := WavesAttain(p, d, cap, ip, lo, L, sweeping);
    } else if Alone(p, d, cap) {
      calls := OpeningAttains(p, d, cap, Unit(d, ip, lo - p.window), 1, lo, lo + L, sweeping);
    } else {
      calls := OpeningAttains(p, d, cap, Opener(p, d, ip, lo - p.window), 0, lo, lo + L, sweeping);
    }
  }

  // ---------------------------------------------------------------------------
  // And no run is granted more

  // Every window has been counted in, as it is where the budget is alone.
  predicate Begun(p: Params, d: Budget, cap: nat, m: Windows) {
    Alone(p, d, cap) ==> forall ip <- m :: Used(m[ip], d) >= 1
  }

  lemma ServeBegun(p: Params, d: Budget, cap: nat, m: Windows, c: Call, sweeping: bool)
    requires Active(p, d) && WithinLimits(p, m) && Begun(p, d, cap, m) && (c.Charge? ==> 1 <= c.n <= cap)
    ensures Begun(p, d, cap, Serve(p, m, c, sweeping).0)
  {
  }

  lemma TightAtStart(p: Params, d: Budget, cap: nat, m: Windows, ip: string, lo: int, hi: int)
    requires Active(p, d) && WithinLimits(p, m) && Begun(p, d, cap, m) && lo <= hi
    ensures Potential(p, m, d, ip, lo, hi) <= Tight(p, d, cap, hi - lo)
  {
    var L, W, limit := hi - lo, p.window, Limit(p, d);
    PotentialAtStart(p, m, d, ip, lo, hi);
    if Alone(p, d, cap) && L % (W + 1) != 0 {
      if NeedsWindow(m, ip, lo) {
        FutureClosedForm(limit, W, L);
        FactorCases(L, W);
        assert limit * (L / (W + 1) + 2) == limit * (L / (W + 1) + 1) + limit;
      } else {
        WindowPlusFuture(limit, W, L);
        FutureMonotone(limit, W, hi - (m[ip].reset + 1), L - 1);
      }
    }
  }

  // No run of feasible calls from an empty limiter is granted more than that.
  lemma {:induction false} TightBound(p: Params, cap: nat, m: Windows, calls: seq<Call>, sweeping: bool,
                                      d: Budget, ip: string, lo: int, hi: int)
    requires Active(p, d) && WithinLimits(p, m) && Begun(p, d, cap, m)
    requires Nondecreasing(calls) && Feasible(cap, calls) && lo <= hi
    ensures Granted(calls, Run(p, m, calls, sweeping).1, d, ip, lo, hi) <= Tight(p, d, cap, hi - lo)
    decreases |calls|
  {
    if calls == [] || lo <= calls[0].now {
      GrantedByPotential(p, m, calls, sweeping, d, ip, lo, hi, lo);
      TightAtStart(p, d, cap, m, ip, lo, hi);
    } else {
      var (m1, ok) := Serve(p, m, calls[0], sweeping);
      assert calls[0] in calls;
      ServeWithinLimits(p, m, calls[0], sweeping);
      ServeBegun(p, d, cap, m, calls[0], sweeping);
      TightBound(p, cap, m1, calls[1..], sweeping, d, ip, lo, hi);
      assert Run(p, m, calls, sweeping).1[1..] == Run(p, m1, calls[1..], sweeping).1;
    }
  }

  // ---------------------------------------------------------------------------
  // Sweeping and the other clients are invisible

  // The swept map m1 has forgotten only windows of m2 that are over.
  predicate Forgets(m1: Windows, m2: Windows, now: int) {
    && (forall ip <- m1 :: ip in m2 && m2[ip] == m1[ip])
    && (forall ip <- m2 :: ip in m1 || Expired(m2[ip], now))
  }

  lemma SweepStep(p: Params, m1: Windows, m2: Windows, c: Call, now: int)
    requires Forgets(m1, m2, now) && now <= c.now
    ensures var (n1, ok1) := Serve(p, m1, c, true);
            var (n2, ok2) := Serve(p, m2, c, false);
            ok1 == ok2 && Forgets(n1, n2, c.now)
  {
    if Active(p, BudgetOf(c)) {
      var r1, r2 := Roll(p, m1, c.ip, c.now, true), Roll(p, m2, c.ip, c.now, false);
      assert r1[c.ip] == r2[c.ip];
      assert Forgets(r1, r2, c.now);
    }
  }

  // The sweeping limiter answers as one that never deletes a window.
  lemma {:induction false} SweepInvisible(p: Params, m1: Windows, m2: Windows, calls: seq<Call>, now: int)
    requires Forgets(m1, m2, now) && Nondecreasing(calls) && After(calls, now)
    ensures Run(p, m1, calls, true).1 == Run(p, m2, calls, false).1
    decreases |calls|
  {
    if calls != [] {
      SweepStep(p, m1, m2, calls[0], now);
      SweepInvisible(p, Serve(p, m1, calls[0], true).0, Serve(p, m2, calls[0], false).0, calls[1..], calls[0].now);
    }
  }

  function CallsOf(calls: seq<Call>, ip: string): seq<Call> {
    if calls == [] then []
    else (if calls[0].ip == ip then [calls[0]] else []) + CallsOf(calls[1..], ip)
  }

  function AnswersOf(calls: seq<Call>, oks: seq<bool>, ip: string): seq<bool>
    requires |oks| == |calls|
  {
    if calls == [] then []
    else (if calls[0].ip == ip then [oks[0]] else []) + AnswersOf(calls[1..], oks[1..], ip)
  }

  predicate SameFor(m1: Windows, m2: Windows, ip: string, now: int) {
    || (NeedsWindow(m1, ip, now) && NeedsWindow(m2, ip, now))
    || (ip in m1 && ip in m2 && m1[ip] == m2[ip])
  }

  lemma SameForStep(p: Params, m1: Windows, m2: Windows, c: Call, ip: string, sweeping: bool, now: int)
    requires SameFor(m1, m2, ip, now) && now <= c.now
    ensures var (n1, ok1) := Serve(p, m1, c, sweeping);
            var (n2, ok2) := Serve(p, m2, c, sweeping);
            if c.ip == ip then ok1 == ok2 && SameFor(n1, n2, ip, c.now) else SameFor(n1, m2, ip, c.now)
  {
    if Active(p, BudgetOf(c)) {
      RollKeeps(p, m1, c.ip, c.now, ip, sweeping);
      RollKeeps(p, m2, c.ip, c.now, ip, sweeping);
    }
  }

  // A client's answers are those of a limiter fed only that client's calls.
  lemma {:induction false} ClientsIsolated(p: Params, m1: Windows, m2: Windows, calls: seq<Call>, ip: string,
                                           sweeping: bool, now: int)
    requires SameFor(m1, m2, ip, now) && Nondecreasing(calls) && After(calls, now)
    ensures AnswersOf(calls, Run(p, m1, calls, sweeping).1, ip) == Run(p, m2, CallsOf(calls, ip), sweeping).1
    decreases |calls|
  {
    if calls != [] {
      var c, rest := calls[0], calls[1..];
      SameForStep(p, m1, m2, c, ip, sweeping, now);
      var n1 := Serve(p, m1, c, sweeping).0;
      var n2 := if c.ip == ip then Serve(p, m2, c, sweeping).0 else m2;
      ClientsIsolated(p, n1, n2, rest, ip, sweeping, c.now);
      AnswersFirst(calls, Run(p, m1, calls, sweeping).1, ip);
    }
  }

  lemma AnswersFirst(calls: seq<Call>, oks: seq<bool>, ip: string)
    requires |oks| == |calls| > 0
    ensures calls[0].ip == ip ==> AnswersOf(calls, oks, ip) == [oks[0]] + AnswersOf(calls[1..], oks[1..], ip)
    ensures calls[0].ip == ip ==> CallsOf(calls, ip) == [calls[0]] + CallsOf(calls[1..], ip)
    ensures calls[0].ip != ip ==> AnswersOf(calls, oks, ip) == AnswersOf(calls[1..], oks[1..], ip)
    ensures calls[0].ip != ip ==> CallsOf(calls, ip) == CallsOf(calls[1..], ip)
  {
  }

  // ---------------------------------------------------------------------------
  // The map stays small or recent

  predicate OpenedBy(p: Params, m: Windows, now: int) {
    forall ip <- m :: m[ip].reset <= now + p.window
  }

  lemma {:induction false} RunOpenedBy(p: Params, m: Windows, calls: seq<Call>, sweeping: bool, now: int)
    requires OpenedBy(p, m, now) && Nondecreasing(calls) && After(calls, now)
    ensures OpenedBy(p, Run(p, m, calls, sweeping).0, if calls == [] then now else calls[|calls| - 1].now)
    decreases |calls|
  {
    if calls != [] {
      var m1 := Serve(p, m, calls[0], sweeping).0;
      assert OpenedBy(p, m1, calls[0].now);
      RunOpenedBy(p, m1, calls[1..], sweeping, calls[0].now);
    }
  }

  // Right after a call opens a window, the map is below the threshold or holds
  // only windows opened within the last window length.
  lemma MapSmallOrRecent(p: Params, calls: seq<Call>, c: Call)
    requires p.window > 0 && (if c.Allow? then p.max else p.maxBytes) > 0 && Nondecreasing(calls + [c])
    requires NeedsWindow(Run(p, map[], calls, true).0, c.ip, c.now)
    ensures var m := Run(p, map[], calls + [c], true).0;
            || |m| < 1024
            || forall ip <- m :: c.now - p.window <= m[ip].reset - p.window <= c.now
  {
    var all := calls + [c];
    assert forall i :: 0 <= i < |calls| ==> calls[i] == all[i];
    var m := Run(p, map[], calls, true).0;
    if calls != [] {
      assert all[|calls| - 1].now <= all[|calls|].now;
      RunOpenedBy(p, map[], calls, true, calls[0].now);
    }
    RunAppend(p, map[], calls, [c], true);
    var (m1, ok) := Serve(p, m, c, true);
    RunOne(p, m, c, true);
    var rolled := Roll(p, m, c.ip, c.now, true);
    assert m1.Keys == rolled.Keys;
    assert |m1| == |m1.Keys| == |rolled|;
  }
}
