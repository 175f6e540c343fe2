// Admin sessions (internal/auth/session.go) and the signed cookie that names them
// (internal/auth/auth.go), against the history of what was created and revoked.
module Sessions {
  import opened Text

  datatype Identity = Identity(user: string, email: string, groups: seq<string>)

  datatype Session = Session(identity: Identity, expiry: int)

  type Live = map<string, Session>

  // The store's operations in the order of its lock; `now` is read under the lock,
  // `expiry` was computed from a reading before it.
  datatype Op =
    | Create(sid: string, session: Session, now: int)
    | Get(sid: string, now: int)
    | Revoke(sid: string)

  function Sweep(m: Live, now: int): Live {
    map sid | sid in m && now <= m[sid].expiry :: m[sid]
  }

  function Exec(m: Live, op: Op): (Live, Option<Session>) {
    match op
    case Create(sid, session, now) => (Sweep(m[sid := session], now), None)
    case Get(sid, now) =>
      if sid !in m then (m, None)
      else if now > m[sid].expiry then (m - {sid}, None)
      else (m, Some(m[sid]))
    case Revoke(sid) => (m - {sid}, None)
  }

  function Run(m: Live, ops: seq<Op>): Live {
    if ops == [] then m else Exec(Run(m, ops[..|ops| - 1]), ops[|ops| - 1]).0
  }

  // What the history says about sid: the session last created under it, unless
  // revoked since. Expiry plays no part.
  function Granted(ops: seq<Op>, sid: string): Option<Session> {
    if ops == [] then None
    else
      match ops[|ops| - 1]
      case Create(s, session, _) => if s == sid then Some(session) else Granted(ops[..|ops| - 1], sid)
      case Revoke(s) => if s == sid then None else Granted(ops[..|ops| - 1], sid)
      case Get(_, _) => Granted(ops[..|ops| - 1], sid)
  }

  function Reading(op: Op, before: int): int {
    match op
    case Create(_, _, now) => now
    case Get(_, now) => now
    case Revoke(_) => before
  }

  // The lock's clock readings never go back, and end at `now` or before.
  predicate ClockForward(ops: seq<Op>, now: int) {
    ops == [] ||
    (Reading(ops[|ops| - 1], now) <= now && ClockForward(ops[..|ops| - 1], Reading(ops[|ops| - 1], now)))
  }

  // The map holds what was granted and may have forgotten only expired sessions.
  lemma {:induction false} RunAgrees(ops: seq<Op>, sid: string, now: int)
    requires ClockForward(ops, now)
    ensures var m := Run(map[], ops);
            && (sid in m ==> Granted(ops, sid) == Some(m[sid]))
            && (sid !in m && Granted(ops, sid).Some? ==> now > Granted(ops, sid).value.expiry)
    decreases |ops|
  {
    if ops != [] {
      var last := ops[|ops| - 1];
      RunAgrees(ops[..|ops| - 1], sid, Reading(last, now));
      if last.Get? && last.sid == sid {
        RunAgrees(ops[..|ops| - 1], sid, last.now);
      }
    }
  }

  // get succeeds exactly while the session granted by the history has not passed
  // its fixed expiry: sweeping and lazy deletion are invisible.
  lemma GetMatchesHistory(ops: seq<Op>, sid: string, now: int)
    requires ClockForward(ops, now)
    ensures Exec(Run(map[], ops), Get(sid, now)).1 ==
            match Granted(ops, sid)
            case Some(session) => if now <= session.expiry then Some(session) else None
            case None => None
  {
    RunAgrees(ops, sid, now);
  }

  ghost predicate CreatedAt(ops: seq<Op>, i: nat, sid: string, session: Session) {
    && i < |ops| && ops[i].Create? && ops[i].sid == sid && ops[i].session == session
    && forall j :: i < j < |ops| ==> !Names(ops[j], sid)
  }

  // Granted, spelled out over positions: created, and neither revoked nor created
  // again since.
  lemma {:induction false} GrantedMeaning(ops: seq<Op>, sid: string, session: Session)
    ensures Granted(ops, sid) == Some(session) <==> exists i :: CreatedAt(ops, i, sid, session)
    decreases |ops|
  {
    if ops != [] {
      var front, last := ops[..|ops| - 1], |ops| - 1;
      GrantedMeaning(front, sid, session);
      if Names(ops[last], sid) {
        assert CreatedAt(ops, last, sid, session) <==> Granted(ops, sid) == Some(session);
      } else {
        assert forall i: nat :: CreatedAt(ops, i, sid, session) <==> CreatedAt(front, i, sid, session);
      }
    }
  }

  predicate Names(op: Op, sid: string) {
    (op.Create? || op.Revoke?) && op.sid == sid
  }

  // ---------------------------------------------------------------------------
  // Signing out

  predicate Creates(op: Op, sid: string) {
    op.Create? && op.sid == sid
  }

  // After a revocation of sid, whatever else happens, get fails until sid is
  // created again.
  lemma {:induction false} RevokedStaysRevoked(before: seq<Op>, sid: string, later: seq<Op>)
    requires forall op <- later :: !Creates(op, sid)
    ensures sid !in Run(map[], before + [Revoke(sid)] + later)
    decreases |later|
  {
    var ops := before + [Revoke(sid)] + later;
    if later == [] {
      assert ops[..|ops| - 1] == before;
    } else {
      var front := later[..|later| - 1];
      assert ops[..|ops| - 1] == before + [Revoke(sid)] + front;
      RevokedStaysRevoked(before, sid, front);
      assert ops[|ops| - 1] in later;
    }
  }

  // Session ids are fresh: no two creations share one.
  predicate FreshIds(ops: seq<Op>) {
    forall i, j :: 0 <= i < j < |ops| && ops[i].Create? && ops[j].Create? ==> ops[i].sid != ops[j].sid
  }

  // A Logout is a get and a revoke with other operations in between. One that
  // starts after another Logout of the same, once created, session has revoked it
  // finds no session: it renders the terminal page and never redirects.
  lemma SecondLogoutTerminates(before: seq<Op>, sid: string, between: seq<Op>, now: int)
    requires FreshIds(before + [Revoke(sid)] + between)
    requires exists op <- before :: Creates(op, sid)
    ensures Exec(Run(map[], before + [Revoke(sid)] + between), Get(sid, now)).1 == None
  {
    var ops := before + [Revoke(sid)] + between;
    var i :| 0 <= i < |before| && Creates(before[i], sid);
    forall op | op in between
      ensures !Creates(op, sid)
    {
      var k :| 0 <= k < |between| && between[k] == op;
      assert ops[i] == before[i] && ops[|before| + 1 + k] == op;
    }
    RevokedStaysRevoked(before, sid, between);
  }

  // ---------------------------------------------------------------------------
  // The cookie

  // setSessionCookie's value; sign is the HMAC under the configured key.
  function CookieValue(sid: string, sign: string -> string): string {
    sid + "." + sign(sid)
  }

  // readSessionCookie on the value found, None when there is no cookie.
  function ReadCookie(value: Option<string>, sign: string -> string): Option<string> {
    match value
    case None => None
    case Some(v) =>
      var i := IndexOf(v, '.');
      if i <= 0 then None
      else if v[i + 1..] == sign(v[..i]) then Some(v[..i])
      else None
  }

  // A value names sid exactly when it is sid, a dot and the signature of sid, with
  // sid nonempty and dot-free.
  lemma CookieAccepted(value: string, sid: string, sign: string -> string)
    ensures ReadCookie(Some(value), sign) == Some(sid) <==>
            sid != "" && '.' !in sid && value == sid + "." + sign(sid)
    ensures ReadCookie(None, sign) == None
  {
    var i := IndexOf(value, '.');
    if value == sid + "." + sign(sid) && sid != "" && '.' !in sid {
      assert value[..|sid|] == sid && value[|sid| + 1..] == sign(sid);
      FirstIndex(value, |sid|, '.');
    }
    if i > 0 {
      assert value == value[..i] + "." + value[i + 1..];
    }
  }

  // So the cookie set for an id is read back as that id, and one with any other
  // signature behind the id is read as none.
  lemma OwnCookieOnly(sid: string, sig: string, sign: string -> string)
    requires '.' !in sid
    ensures sid != "" ==> ReadCookie(Some(CookieValue(sid, sign)), sign) == Some(sid)
    ensures sig != sign(sid) ==> ReadCookie(Some(sid + "." + sig), sign) == None
  {
    CookieAccepted(CookieValue(sid, sign), sid, sign);
    var value := sid + "." + sig;
    assert value[..|sid|] == sid && value[|sid| + 1..] == sig;
    FirstIndex(value, |sid|, '.');
  }
}
