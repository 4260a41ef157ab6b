/** The service object: its methods update the tables in place, in the order the source does, and are
    proved to do what `SessionTable` says. */
module AuthService {
  import opened Text
  import opened SessionTable
  import opened SessionRuns

  class AuthService {
    var users: map<UserId, User>
    var sessions: seq<Session>
    var links: seq<ResetLink>
    const idleMs: Time

    constructor (idleMs: Time)
      ensures Snapshot() == Store(map[], [], []) && this.idleMs == idleMs && Valid(sessions)
    {
      users, sessions, links := map[], [], [];
      this.idleMs := idleMs;
    }

    ghost function Snapshot(): Store
      reads this
    {
      Store(users, sessions, links)
    }

    method SignIn(userId: UserId, token: Token, expiresAt: Time, now: Time) returns (outcome: Outcome)
      modifies this
      ensures (Snapshot(), outcome) == CompleteSignIn(old(Snapshot()), userId, token, expiresAt, now)
    {
      if userId !in users || TokenTaken(sessions, token) {
        return Denied;
      }
      outcome := Issued(|sessions|);
      sessions := sessions + [Opened(userId, token, expiresAt, now)];
    }

    /** Follows `replacedById` until a session that is not revoked turns up, looking at ten rows at most. */
    method FollowChain(startId: nat) returns (found: Option<nat>)
      ensures found == FollowRotationChain(sessions, startId, ROTATION_CHAIN_MAX_HOPS)
    {
      var id: Option<nat> := Some(startId);
      var hop: nat := 0;
      while hop < ROTATION_CHAIN_MAX_HOPS && id.Some?
        invariant hop <= ROTATION_CHAIN_MAX_HOPS
        invariant FollowRotationChain(sessions, startId, ROTATION_CHAIN_MAX_HOPS)
               == if id.Some? then FollowRotationChain(sessions, id.value, ROTATION_CHAIN_MAX_HOPS - hop) else None
        decreases ROTATION_CHAIN_MAX_HOPS - hop
      {
        if id.value >= |sessions| { return None; }
        var next := sessions[id.value];
        if next.revokedAt.None? { return id; }
        id := next.replacedById;
        hop := hop + 1;
      }
      return None;
    }

    method RotateSession(id: nat, token: Token, expiresAt: Time, now: Time) returns (outcome: Outcome)
      modifies this
      ensures (Snapshot(), outcome) == Rotate(old(Snapshot()), id, token, expiresAt, now)
    {
      if id >= |sessions| || sessions[id].revokedAt.Some? || sessions[id].expiresAt < now {
        return Denied;
      }
      if TokenTaken(sessions, token) {
        return Denied;
      }
      var created := |sessions|;
      sessions := sessions + [Opened(sessions[id].userId, token, expiresAt, now)];
      sessions := sessions[id := sessions[id].(revokedAt := Some(now), revokedReason := Some(Rotated), replacedById := Some(created))];
      outcome := Issued(created);
    }

    method RefreshTokens(presented: Token, token: Token, expiresAt: Time, now: Time) returns (outcome: Outcome)
      modifies this
      ensures (Snapshot(), outcome) == Refresh(old(Snapshot()), presented, token, expiresAt, idleMs, now)
    {
      var found := Lookup(sessions, presented);
      if found.None? || sessions[found.value].revokedAt.Some? || sessions[found.value].expiresAt < now {
        if found.Some? && sessions[found.value].revokedAt.Some? {
          var session := sessions[found.value];
          var rotatedRecently := session.revokedReason == Some(Rotated) && now - session.revokedAt.value <= ROTATION_GRACE_MS;
          if rotatedRecently && session.replacedById.Some? {
            var successor := FollowChain(session.replacedById.value);
            if successor.Some? {
              outcome := RotateSession(successor.value, token, expiresAt, now);
              return;
            }
          }
          sessions := RevokeAll(sessions, session.userId, Some(TokenReuseDetected), now);
        }
        return Denied;
      }
      var session := sessions[found.value];
      if session.userId !in users || !users[session.userId].active || users[session.userId].deleted {
        return Denied;
      }
      if now - session.lastSeenAt > idleMs {
        sessions := sessions[found.value := session.(revokedAt := Some(now), revokedReason := Some(IdleTimeout))];
        return Denied;
      }
      outcome := RotateSession(found.value, token, expiresAt, now);
    }

    /** The session part of `principal.service.ts`: may this session act? If so it counts as seen. */
    method ResolvePrincipal(userId: UserId, id: nat, now: Time) returns (ok: bool)
      modifies this
      ensures (Snapshot(), ok) == Resolve(old(Snapshot()), userId, id, now)
    {
      if userId !in users || users[userId].deleted { return false; }
      if !users[userId].active { return false; }
      if id >= |sessions| || sessions[id].userId != userId || sessions[id].revokedAt.Some? || sessions[id].expiresAt <= now {
        return false;
      }
      sessions := sessions[id := sessions[id].(lastSeenAt := now)];
      return true;
    }

    method LogoutSession(id: nat, now: Time)
      modifies this
      ensures Snapshot() == Logout(old(Snapshot()), id, now)
    {
      if id < |sessions| && sessions[id].revokedAt.None? {
        sessions := sessions[id := sessions[id].(revokedAt := Some(now), revokedReason := Some(UserLogout))];
      }
    }

    method LogoutAll(userId: UserId, now: Time) returns (count: nat)
      modifies this
      ensures Snapshot() == LogoutEverywhere(old(Snapshot()), userId, now)
      ensures count == |LiveSessions(old(sessions), userId)| && LiveSessions(sessions, userId) == {}
    {
      count := CountLive(sessions, userId);
      sessions := RevokeAll(sessions, userId, Some(UserLogoutAll), now);
    }

    method ChangeOwnPassword(userId: UserId, current: string, new_: string, now: Time) returns (ok: bool)
      modifies this
      ensures (Snapshot(), ok) == ChangePassword(old(Snapshot()), userId, current, new_, now)
    {
      if userId !in users || users[userId].deleted || users[userId].password.None? { return false; }
      if users[userId].password.value != current { return false; }
      users := users[userId := users[userId].(password := Some(new_))];
      sessions := RevokeAll(sessions, userId, Some(PasswordChanged), now);
      ok := true;
    }

    method RequestReset(userId: UserId, token: Token, now: Time)
      modifies this
      ensures Snapshot() == RequestPasswordReset(old(Snapshot()), userId, token, now)
    {
      if userId !in users || users[userId].deleted || !users[userId].active || !users[userId].hasEmail { return; }
      if RecentLinks(links, userId, now) >= 5 { return; }
      if LinkLookup(links, token).Some? { return; }
      links := links + [ResetLink(userId, token, now, now + RESET_TTL_MS, None)];
    }

    method ResetByLink(token: Token, new_: string, now: Time) returns (ok: bool)
      modifies this
      ensures (Snapshot(), ok) == ResetPassword(old(Snapshot()), token, new_, now)
    {
      var found := LinkLookup(links, token);
      if found.None? || links[found.value].usedAt.Some? || links[found.value].expiresAt < now { return false; }
      var userId := links[found.value].userId;
      if userId !in users || users[userId].deleted || !users[userId].active { return false; }
      links := SpendLinks(links, found.value, now);
      users := users[userId := users[userId].(password := Some(new_))];
      sessions := RevokeAll(sessions, userId, Some(PasswordReset), now);
      ok := true;
    }
  }
}
