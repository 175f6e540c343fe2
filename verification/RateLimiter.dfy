// The mutable limiter: a map from client to window object, updated in place.
// Every method is tied to the functions of RateLimits on the map's current value.
module RateLimiters {
  import opened RateLimits

  function Total(calls: seq<Call>, d: Budget): nat {
    if calls == [] then 0 else Total(calls[..|calls| - 1], d) + Cost(calls[|calls| - 1], d)
  }

  lemma TotalSnoc(calls: seq<Call>, c: Call)
    ensures Total(calls + [c], Requests) == Total(calls, Requests) + Cost(c, Requests)
    ensures Total(calls + [c], Bytes) == Total(calls, Bytes) + Cost(c, Bytes)
  {
    assert (calls + [c])[..|calls|] == calls;
  }

  // Spend, said of the one entry it changes.
  lemma SpentAt(p: Params, m: Windows, c: Call, w: Window, ok: bool)
    requires c.ip in m
    requires ok <==> Used(m[c.ip], BudgetOf(c)) + Cost(c, BudgetOf(c)) <= Limit(p, BudgetOf(c))
    requires w == if !ok then m[c.ip]
                  else m[c.ip].(count := m[c.ip].count + Cost(c, Requests), bytes := m[c.ip].bytes + Cost(c, Bytes))
    ensures (m[c.ip := w], ok) == Spend(p, m, c)
  {
    SpendMeaning(p, m, c);
    assert m[c.ip := m[c.ip]] == m;
  }

  class WindowObject {
    var count: int
    var bytes: int
    const reset: int
    // The calls granted against this very object.
    ghost var granted: seq<Call>

    constructor (reset: int)
      ensures Value() == Window(0, 0, reset) && granted == []
    {
      this.count, this.bytes, this.reset := 0, 0, reset;
      this.granted := [];
    }

    ghost function Value(): Window
      reads this
    {
      Window(count, bytes, reset)
    }

    // The counters are exactly what was granted, and within the budgets.
    ghost predicate Accounted(p: Params)
      reads this
    {
      && count == Total(granted, Requests)
      && bytes == Total(granted, Bytes)
      && (Active(p, Requests) ==> count <= p.max)
      && (Active(p, Bytes) ==> bytes <= p.maxBytes)
    }

    // Count the call, unless its budget would be exceeded.
    method Grant(p: Params, c: Call) returns (ok: bool)
      requires Accounted(p) && Active(p, BudgetOf(c))
      modifies this
      ensures Accounted(p)
      ensures ok <==> old(Used(Value(), BudgetOf(c))) + Cost(c, BudgetOf(c)) <= Limit(p, BudgetOf(c))
      ensures Value() == if !ok then old(Value())
                         else old(Value()).(count := old(count) + Cost(c, Requests),
                                            bytes := old(bytes) + Cost(c, Bytes))
      ensures granted == old(granted) + (if ok then [c] else [])
    {
      TotalSnoc(granted, c);
      match c {
        case Allow(_, _) =>
          if count >= p.max {
            return false;
          }
          count := count + 1;
        case Charge(_, n, _) =>
          if bytes + n > p.maxBytes {
            return false;
          }
          bytes := bytes + n;
      }
      granted := granted + [c];
      return true;
    }
  }

  class RateLimiter {
    const p: Params
    var windows: map<string, WindowObject>

    constructor (p: Params)
      ensures Valid() && View() == map[] && this.p == p
    {
      this.p := p;
      this.windows := map[];
    }

    ghost function View(): (v: Windows)
      reads this, windows.Values
      ensures v.Keys == windows.Keys
      ensures forall ip :: ip in windows ==> v[ip] == windows[ip].Value()
    {
      map ip | ip in windows :: windows[ip].Value()
    }

    // No two clients share a window object.
    ghost predicate Valid()
      reads this, windows.Values
    {
      && (forall a, b :: a in windows && b in windows && a != b ==> windows[a] != windows[b])
      && (forall ip :: ip in windows ==> windows[ip].Accounted(p))
    }

    // sweep
    method DropExpired(now: int)
      requires Valid()
      modifies this`windows
      ensures Valid() && View() == Sweep(old(View()), now)
      ensures forall ip :: ip in windows ==> ip in old(windows) && windows[ip] == old(windows)[ip]
      ensures forall ip :: ip in windows <==>
                ip in old(windows) && (|old(windows)| < 1024 || now <= old(windows[ip].reset))
    {
      assert |View().Keys| == |windows.Keys| by {
        assert View().Keys == windows.Keys;
      }
      if |windows| < SWEEP_THRESHOLD {
        return;
      }
      var all := windows;
      var todo := all.Keys;
      while todo != {}
        invariant todo <= all.Keys
        invariant forall ip :: ip in windows ==> ip in all && windows[ip] == all[ip]
        invariant forall ip :: ip in all ==> (ip in windows <==> ip in todo || now <= all[ip].reset)
        decreases todo
      {
        var ip :| ip in todo;
        if now > windows[ip].reset {
          windows := windows - {ip};
        }
        todo := todo - {ip};
      }
    }

    method InstallWindow(ip: string, now: int) returns (win: WindowObject)
      requires Valid()
      modifies this`windows
      ensures Valid()
      ensures windows == old(windows)[ip := win] && fresh(win) && win.granted == []
      ensures View() == old(View())[ip := Window(0, 0, now + p.window)]
    {
      win := new WindowObject(now + p.window);
      windows := windows[ip := win];
    }

    // A fresh window for the client, and the map swept.
    method OpenWindow(ip: string, now: int) returns (win: WindowObject)
      requires Valid() && p.window >= 0
      modifies this`windows
      ensures Valid()
      ensures ip in windows && windows[ip] == win && fresh(win) && win.granted == []
      ensures View() == Sweep(old(View())[ip := Window(0, 0, now + p.window)], now)
    {
      win := InstallWindow(ip, now);
      DropExpired(now);
      assert ip in View();
    }

    method GetWindow(ip: string, now: int) returns (win: WindowObject)
      requires Valid() && p.window >= 0
      modifies this`windows
      ensures Valid()
      ensures ip in windows && windows[ip] == win
      ensures View() == Roll(p, old(View()), ip, now, true)
      ensures if NeedsWindow(old(View()), ip, now) then fresh(win) && win.granted == []
              else windows == old(windows)
    {
      ghost var before := View();
      assert ip in before ==> before[ip].reset == windows[ip].reset;
      if ip !in windows || now > windows[ip].reset {
        win := OpenWindow(ip, now);
        RollOpens(p, before, ip, now);
      } else {
        win := windows[ip];
      }
    }

    // The window is the map's own object, so granting on it changes the map's value
    // at one client.
    method GrantInPlace(win: WindowObject, c: Call) returns (ok: bool)
      requires Valid() && c.ip in windows && windows[c.ip] == win && Active(p, BudgetOf(c))
      modifies win
      ensures Valid()
      ensures ok <==> old(Used(win.Value(), BudgetOf(c))) + Cost(c, BudgetOf(c)) <= Limit(p, BudgetOf(c))
      ensures win.Value() == if !ok then old(win.Value())
                             else old(win.Value()).(count := old(win.count) + Cost(c, Requests),
                                                    bytes := old(win.bytes) + Cost(c, Bytes))
      ensures View() == old(View())[c.ip := win.Value()]
      ensures win.granted == old(win.granted) + (if ok then [c] else [])
    {
      ok := win.Grant(p, c);
    }

    // Charge the call to a window of the map, in place.
    method Take(win: WindowObject, c: Call) returns (ok: bool)
      requires Valid() && c.ip in windows && windows[c.ip] == win && Active(p, BudgetOf(c))
      modifies win
      ensures Valid()
      ensures (View(), ok) == Spend(p, old(View()), c)
      ensures win.granted == old(win.granted) + (if ok then [c] else [])
    {
      ghost var before := View();
      assert before[c.ip] == win.Value();
      ok := GrantInPlace(win, c);
      SpentAt(p, before, c, win.Value(), ok);
    }

    method Allow(ip: string, now: int) returns (ok: bool)
      requires Valid() && p.max > 0 && p.window > 0
      modifies this, windows.Values
      ensures Valid()
      ensures (View(), ok) == Serve(p, old(View()), Call.Allow(ip, now), true)
      ensures ip in windows
      ensures windows[ip].granted ==
              (if NeedsWindow(old(View()), ip, now) then [] else old(windows[ip].granted))
              + (if ok then [Call.Allow(ip, now)] else [])
    {
      var win := GetWindow(ip, now);
      ok := Take(win, Call.Allow(ip, now));
    }

    method ChargeBytes(ip: string, n: nat, now: int) returns (ok: bool)
      requires Valid()
      modifies this, windows.Values
      ensures Valid()
      ensures (View(), ok) == Serve(p, old(View()), Charge(ip, n, now), true)
      ensures p.maxBytes <= 0 || p.window <= 0 ==> ok && View() == old(View())
      ensures p.maxBytes > 0 && p.window > 0 ==>
                && (ok <==> (if NeedsWindow(old(View()), ip, now) then 0 else old(View())[ip].bytes) + n <= p.maxBytes)
                && ip in windows
                && windows[ip].granted ==
                   (if NeedsWindow(old(View()), ip, now) then [] else old(windows[ip].granted))
                   + (if ok then [Charge(ip, n, now)] else [])
    {
      if p.maxBytes <= 0 || p.window <= 0 {
        return true;
      }
      var win := GetWindow(ip, now);
      ok := Take(win, Charge(ip, n, now));
    }

    // The middleware: a pass-through unless the request budget is on.
    method Admit(ip: string, now: int) returns (ok: bool)
      requires Valid()
      modifies this, windows.Values
      ensures Valid()
      ensures (View(), ok) == Serve(p, old(View()), Call.Allow(ip, now), true)
      ensures p.max <= 0 || p.window <= 0 ==> ok && View() == old(View())
      ensures p.max > 0 && p.window > 0 ==>
                (ok <==> (if NeedsWindow(old(View()), ip, now) then 0 else old(View())[ip].count) < p.max)
    {
      if p.max <= 0 || p.window <= 0 {
        return true;
      }
      ok := Allow(ip, now);
    }
  }
}
