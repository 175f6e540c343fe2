// The session store object and the logout that uses it.
module SessionStores {
  import opened Text
  import opened Sessions

  class SessionStore {
    var byID: map<string, Session>
    // Everything done to the store, in order.
    ghost var history: seq<Op>

    constructor ()
      ensures Valid() && history == []
    {
      byID := map[];
      history := [];
    }

    ghost predicate Valid()
      reads this
    {
      byID == Run(map[], history)
    }

    // sid is fresh randomness; expiry was computed before the lock was taken.
    method Create(sid: string, id: Identity, expiry: int, now: int)
      requires Valid()
      modifies this
      ensures Valid() && history == old(history) + [Op.Create(sid, Session(id, expiry), now)]
    {
      Record(Op.Create(sid, Session(id, expiry), now));
      byID := byID[sid := Session(id, expiry)];
      SweepLocked(now);
    }

    ghost method Record(op: Op)
      modifies this`history
      ensures history == old(history) + [op]
      ensures Run(map[], history) == Exec(Run(map[], old(history)), op).0
    {
      history := history + [op];
      assert history[..|history| - 1] == old(history);
    }

    method SweepLocked(now: int)
      modifies this`byID
      ensures byID == Sweep(old(byID), now)
      ensures forall sid :: sid in byID <==> sid in old(byID) && now <= old(byID)[sid].expiry
      ensures forall sid <- byID :: byID[sid] == old(byID)[sid]
    {
      var todo := byID.Keys;
      while todo != {}
        invariant todo <= old(byID).Keys
        invariant forall sid <- byID :: sid in old(byID) && byID[sid] == old(byID)[sid]
        invariant forall sid <- old(byID) :: sid in byID <==> sid in todo || now <= old(byID)[sid].expiry
        decreases todo
      {
        var sid :| sid in todo;
        if now > byID[sid].expiry {
          byID := byID - {sid};
        }
        todo := todo - {sid};
      }
    }

    // With the lock's clock going forward, the answer is what the history grants.
    method Get(sid: string, now: int) returns (found: Option<Session>)
      requires Valid()
      modifies this
      ensures Valid() && history == old(history) + [Op.Get(sid, now)]
      ensures found == Exec(old(byID), Op.Get(sid, now)).1
      ensures byID == if sid in old(byID) && now > old(byID)[sid].expiry then old(byID) - {sid} else old(byID)
      ensures ClockForward(old(history), now) ==>
                found == match Granted(old(history), sid)
                         case Some(session) => if now <= session.expiry then Some(session) else None
                         case None => None
    {
      if ClockForward(history, now) {
        GetMatchesHistory(history, sid, now);
      }
      Record(Op.Get(sid, now));
      if sid !in byID {
        return None;
      }
      if now > byID[sid].expiry {
        byID := byID - {sid};
        return None;
      }
      return Some(byID[sid]);
    }

    method Revoke(sid: string)
      requires Valid()
      modifies this
      ensures Valid() && history == old(history) + [Op.Revoke(sid)]
      ensures byID == old(byID) - {sid}
    {
      Record(Op.Revoke(sid));
      byID := byID - {sid};
    }

    // Manager.Logout with nothing in between. The answer is the identity
    // provider's logout URL to redirect to, or None for the logged-out page;
    // logoutURL is empty outside OIDC mode or when the provider offers none.
    method Logout(cookie: Option<string>, sign: string -> string, logoutURL: string, now: int)
        returns (redirect: Option<string>)
      requires Valid()
      modifies this
      ensures Valid()
      ensures ReadCookie(cookie, sign).Some? ==> ReadCookie(cookie, sign).value !in byID
      ensures ReadCookie(cookie, sign).None? ==> byID == old(byID)
      ensures redirect.Some? <==>
                && logoutURL != "" && ReadCookie(cookie, sign).Some?
                && Exec(old(byID), Op.Get(ReadCookie(cookie, sign).value, now)).1.Some?
      ensures redirect.Some? ==> redirect.value == logoutURL
    {
      var hadSession := false;
      match ReadCookie(cookie, sign) {
        case None =>
        case Some(sid) =>
          var live := Get(sid, now);
          hadSession := live.Some?;
          Revoke(sid);
      }
      if hadSession && logoutURL != "" {
        return Some(logoutURL);
      }
      return None;
    }
  }

  // The redirect of the first logout lands on a second one, which ends the loop.
  method LogoutTwice(s: SessionStore, cookie: Option<string>, sign: string -> string, logoutURL: string,
                     now: int, later: int)
      returns (first: Option<string>, second: Option<string>)
    requires s.Valid()
    modifies s
    ensures s.Valid() && second == None
  {
    first := s.Logout(cookie, sign, logoutURL, now);
    second := s.Logout(cookie, sign, logoutURL, later);
  }
}
