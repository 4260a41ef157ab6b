/** The session, user and reset-link tables and what each endpoint of
    `apps/api/src/modules/auth/auth.service.ts` does to them, one atomic call at a time.

    Hashes are injective, so a row stores the token (or password) itself. Random tokens arrive as
    parameters; a token that is already in the table trips the unique index and the call fails. */
module SessionTable {
  import opened Text

  type UserId = string
  type Token = string
  /** Milliseconds. */
  type Time = int

  const ROTATION_GRACE_MS: Time := 30_000
  const ROTATION_CHAIN_MAX_HOPS: nat := 10
  const RESET_TTL_MS: Time := 30 * 60 * 1000
  const HOUR_MS: Time := 60 * 60 * 1000

  datatype Reason = Rotated | TokenReuseDetected | UserLogout | UserLogoutAll | IdleTimeout | PasswordChanged | PasswordReset

  /** A session's id is its position in the table, which is the order of creation. */
  datatype Session = Session(
    userId: UserId, token: Token, expiresAt: Time,
    revokedAt: Option<Time>, revokedReason: Option<Reason>, lastSeenAt: Time, replacedById: Option<nat>)

  datatype User = User(active: bool, deleted: bool, hasEmail: bool, password: Option<string>)

  datatype ResetLink = ResetLink(userId: UserId, token: Token, createdAt: Time, expiresAt: Time, usedAt: Option<Time>)

  datatype Store = Store(users: map<UserId, User>, sessions: seq<Session>, links: seq<ResetLink>)

  /** `Issued` names the session the new token pair belongs to. */
  datatype Outcome = Issued(session: nat) | Denied

  predicate Live(s: Session) {
    s.revokedAt.None?
  }

  predicate TokenTaken(sessions: seq<Session>, token: Token) {
    exists i :: 0 <= i < |sessions| && sessions[i].token == token
  }

  function Lookup(sessions: seq<Session>, token: Token): (found: Option<nat>)
    ensures found.Some? ==> found.value < |sessions| && sessions[found.value].token == token
    ensures found.None? ==> !TokenTaken(sessions, token)
  {
    if sessions == [] then None
    else if sessions[|sessions| - 1].token == token then Some(|sessions| - 1)
    else Lookup(sessions[..|sessions| - 1], token)
  }

  function Opened(userId: UserId, token: Token, expiresAt: Time, now: Time): Session {
    Session(userId, token, expiresAt, None, None, now, None)
  }

  function Revoked(s: Session, reason: Option<Reason>, now: Time): Session {
    s.(revokedAt := Some(now), revokedReason := reason)
  }

  /** `updateMany` over the unrevoked sessions of one user. */
  function RevokeAll(sessions: seq<Session>, userId: UserId, reason: Option<Reason>, now: Time): (after: seq<Session>)
    ensures |after| == |sessions|
  {
    seq(|sessions|, i requires 0 <= i < |sessions| =>
      if sessions[i].userId == userId && Live(sessions[i]) then Revoked(sessions[i], reason, now) else sessions[i])
  }

  ghost function LiveSessions(sessions: seq<Session>, userId: UserId): set<nat> {
    set i: nat | i < |sessions| && sessions[i].userId == userId && Live(sessions[i])
  }

  /** The row count `updateMany` reports. */
  method CountLive(sessions: seq<Session>, userId: UserId) returns (count: nat)
    ensures count == |LiveSessions(sessions, userId)|
  {
    count := 0;
    var i := 0;
    assert LiveSessions(sessions[..0], userId) == {};
    while i < |sessions|
      invariant i <= |sessions|
      invariant count == |LiveSessions(sessions[..i], userId)|
    {
      var before, after := sessions[..i], sessions[..i + 1];
      if sessions[i].userId == userId && Live(sessions[i]) {
        assert LiveSessions(after, userId) == LiveSessions(before, userId) + {i};
        count := count + 1;
      } else {
        assert LiveSessions(after, userId) == LiveSessions(before, userId);
      }
      i := i + 1;
    }
    assert sessions[..i] == sessions;
  }

  // ---------------------------------------------------------------------------
  // Sign-in, refresh and rotation
  // ---------------------------------------------------------------------------

  function CompleteSignIn(st: Store, userId: UserId, issued: Token, expiresAt: Time, now: Time): (Store, Outcome) {
    if userId !in st.users || TokenTaken(st.sessions, issued) then (st, Denied)
    else (st.(sessions := st.sessions + [Opened(userId, issued, expiresAt, now)]), Issued(|st.sessions|))
  }

  /** The walk over `replacedById`, `hops` rows at most. */
  function FollowRotationChain(sessions: seq<Session>, id: nat, hops: nat): Option<nat>
    decreases hops
  {
    if hops == 0 || id >= |sessions| then None
    else if Live(sessions[id]) then Some(id)
    else if sessions[id].replacedById.None? then None
    else FollowRotationChain(sessions, sessions[id].replacedById.value, hops - 1)
  }

  /** The two writes of the rotation transaction: the successor is created, then the old row retired. */
  function RotateWrites(sessions: seq<Session>, id: nat, issued: Token, expiresAt: Time, now: Time): seq<Session>
    requires id < |sessions|
  {
    var created := sessions + [Opened(sessions[id].userId, issued, expiresAt, now)];
    created[id := Revoked(sessions[id], Some(Rotated), now).(replacedById := Some(|sessions|))]
  }

  function Rotate(st: Store, id: nat, issued: Token, expiresAt: Time, now: Time): (Store, Outcome) {
    if id >= |st.sessions| || !Live(st.sessions[id]) || st.sessions[id].expiresAt < now then (st, Denied)
    else if TokenTaken(st.sessions, issued) then (st, Denied)
    else (st.(sessions := RotateWrites(st.sessions, id, issued, expiresAt, now)), Issued(|st.sessions|))
  }

  predicate RotatedRecently(s: Session, now: Time) {
    s.revokedReason == Some(Rotated) && s.revokedAt.Some? && now - s.revokedAt.value <= ROTATION_GRACE_MS
  }

  /** Presenting the token of a session that has been revoked. */
  function RefreshRevoked(st: Store, s: Session, issued: Token, expiresAt: Time, now: Time): (Store, Outcome) {
    var successor := if RotatedRecently(s, now) && s.replacedById.Some?
                     then FollowRotationChain(st.sessions, s.replacedById.value, ROTATION_CHAIN_MAX_HOPS)
                     else None;
    if successor.Some? then Rotate(st, successor.value, issued, expiresAt, now)
    else (st.(sessions := RevokeAll(st.sessions, s.userId, Some(TokenReuseDetected), now)), Denied)
  }

  function Refresh(st: Store, token: Token, issued: Token, expiresAt: Time, idleMs: Time, now: Time): (Store, Outcome) {
    var found := Lookup(st.sessions, token);
    if found.None? then (st, Denied)
    else
      var id := found.value;
      var s := st.sessions[id];
      if !Live(s) then RefreshRevoked(st, s, issued, expiresAt, now)
      else if s.expiresAt < now then (st, Denied)
      else if s.userId !in st.users || !st.users[s.userId].active || st.users[s.userId].deleted then (st, Denied)
      else if now - s.lastSeenAt > idleMs then
        (st.(sessions := st.sessions[id := Revoked(s, Some(IdleTimeout), now)]), Denied)
      else Rotate(st, id, issued, expiresAt, now)
  }

  // ---------------------------------------------------------------------------
  // Signing out and changing credentials
  // ---------------------------------------------------------------------------

  function Logout(st: Store, id: nat, now: Time): Store {
    if id < |st.sessions| && Live(st.sessions[id])
    then st.(sessions := st.sessions[id := Revoked(st.sessions[id], Some(UserLogout), now)])
    else st
  }

  function LogoutEverywhere(st: Store, userId: UserId, now: Time): Store {
    st.(sessions := RevokeAll(st.sessions, userId, Some(UserLogoutAll), now))
  }

  function ChangePassword(st: Store, userId: UserId, current: string, new_: string, now: Time): (Store, bool) {
    if userId !in st.users || st.users[userId].deleted || st.users[userId].password != Some(current) then (st, false)
    else
      (st.(users := st.users[userId := st.users[userId].(password := Some(new_))],
           sessions := RevokeAll(st.sessions, userId, Some(PasswordChanged), now)), true)
  }

  function LinkLookup(links: seq<ResetLink>, token: Token): (found: Option<nat>)
    ensures found.Some? ==> found.value < |links| && links[found.value].token == token
    ensures found.None? ==> forall i :: 0 <= i < |links| ==> links[i].token != token
  {
    if links == [] then None
    else if links[|links| - 1].token == token then Some(|links| - 1)
    else LinkLookup(links[..|links| - 1], token)
  }

  function RecentLinks(links: seq<ResetLink>, userId: UserId, now: Time): nat {
    if links == [] then 0
    else (if links[0].userId == userId && links[0].createdAt >= now - HOUR_MS then 1 else 0) + RecentLinks(links[1..], userId, now)
  }

  /** Silent about everything: no account, inactive, no e-mail address, more than five links in the last hour. */
  function RequestPasswordReset(st: Store, userId: UserId, issued: Token, now: Time): Store {
    if userId !in st.users || st.users[userId].deleted || !st.users[userId].active || !st.users[userId].hasEmail then st
    else if RecentLinks(st.links, userId, now) >= 5 || LinkLookup(st.links, issued).Some? then st
    else st.(links := st.links + [ResetLink(userId, issued, now, now + RESET_TTL_MS, None)])
  }

  /** The link itself is marked used, and with it every unused link of the same user. */
  function SpendLinks(links: seq<ResetLink>, spent: nat, now: Time): (after: seq<ResetLink>)
    requires spent < |links|
    ensures |after| == |links|
  {
    seq(|links|, i requires 0 <= i < |links| =>
      if i == spent || (links[i].userId == links[spent].userId && links[i].usedAt.None?)
      then links[i].(usedAt := Some(now)) else links[i])
  }

  function ResetPassword(st: Store, token: Token, new_: string, now: Time): (Store, bool) {
    var found := LinkLookup(st.links, token);
    if found.None? then (st, false)
    else
      var link := st.links[found.value];
      if link.usedAt.Some? || link.expiresAt < now then (st, false)
      else if link.userId !in st.users || st.users[link.userId].deleted || !st.users[link.userId].active then (st, false)
      else
        (Store(st.users[link.userId := st.users[link.userId].(password := Some(new_))],
               RevokeAll(st.sessions, link.userId, Some(PasswordReset), now),
               SpendLinks(st.links, found.value, now)), true)
  }

  /** The session part of an administrator clearing somebody's second factor; no reason is recorded. */
  function ResetMfa(st: Store, userId: UserId, now: Time): Store {
    if userId !in st.users || st.users[userId].deleted then st
    else st.(sessions := RevokeAll(st.sessions, userId, None, now))
  }

  /** May this session id still act for this user? Answering also touches `lastSeenAt`. */
  predicate Resolves(st: Store, userId: UserId, id: nat, now: Time) {
    && userId in st.users && st.users[userId].active && !st.users[userId].deleted
    && id < |st.sessions| && st.sessions[id].userId == userId && Live(st.sessions[id]) && st.sessions[id].expiresAt > now
  }

  function Resolve(st: Store, userId: UserId, id: nat, now: Time): (Store, bool) {
    if Resolves(st, userId, id, now)
    then (st.(sessions := st.sessions[id := st.sessions[id].(lastSeenAt := now)]), true)
    else (st, false)
  }
}
