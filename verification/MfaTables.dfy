/** The user and recovery-code rows and what each operation of `apps/api/src/modules/auth/mfa.service.ts`
    does to them. Hashes are injective, so a code row is keyed by the normal form its hash is taken of,
    and the unique index on the hash is the map itself. What the authenticator library says about six
    digits arrives as the parameter `valid`. */
module MfaTables {
  import opened Text
  import opened RecoveryCodes
  import opened SessionTable

  type Key = string

  datatype Account = Account(mfaEnabled: bool, mfaSecret: Option<string>, enrolledAt: Option<Time>, password: Option<string>, deleted: bool)

  datatype CodeRow = CodeRow(userId: UserId, usedAt: Option<Time>)

  datatype Mfa = Mfa(users: map<UserId, Account>, codes: map<Key, CodeRow>, sessions: seq<Session>)

  datatype EnableAnswer = On(codes: seq<string>) | AlreadyOn | WrongCode | Failed
  datatype DisableAnswer = Off | NotOn | Refused
  datatype ResetAnswer = Cleared(sessionsRevoked: nat) | OwnAccount | NoSuchUser

  const KEY_MIN: nat := 6

  predicate TotpMatches(valid: bool, code: string) {
    IsTotp(code) && valid
  }

  function Keys(codes: seq<string>): set<Key> {
    set i | 0 <= i < |codes| :: Normalise(codes[i])
  }

  function Without(codes: map<Key, CodeRow>, userId: UserId): map<Key, CodeRow> {
    map k | k in codes && codes[k].userId != userId :: codes[k]
  }

  function NewRows(keys: set<Key>, userId: UserId): map<Key, CodeRow> {
    map k | k in keys :: CodeRow(userId, None)
  }

  /** `drawn` is what the generator produced for this call. A hash that another user already holds
      trips the unique index and rolls the transaction back. */
  function Enable(st: Mfa, userId: UserId, secret: string, code: string, valid: bool, drawn: Option<seq<string>>, now: Time): (Mfa, EnableAnswer) {
    if userId in st.users && st.users[userId].mfaEnabled then (st, AlreadyOn)
    else if !TotpMatches(valid, code) then (st, WrongCode)
    else if drawn.None? || userId !in st.users then (st, Failed)
    else
      var others := Without(st.codes, userId);
      var keys := Keys(drawn.value);
      if others.Keys !! keys then
        var user := st.users[userId].(mfaEnabled := true, mfaSecret := Some(secret), enrolledAt := Some(now));
        (st.(users := st.users[userId := user], codes := others + NewRows(keys, userId)), On(drawn.value))
      else (st, Failed)
  }

  /** The single conditional update: an unused row of this user, found by the hash of what was typed. */
  predicate Consumable(codes: map<Key, CodeRow>, userId: UserId, code: string) {
    var normalised := Normalise(code);
    var hash := Normalise(normalised);
    |normalised| >= KEY_MIN && hash in codes && codes[hash].userId == userId && codes[hash].usedAt.None?
  }

  function Consume(codes: map<Key, CodeRow>, userId: UserId, code: string, now: Time): (map<Key, CodeRow>, bool) {
    if Consumable(codes, userId, code) then
      var hash := Normalise(Normalise(code));
      (codes[hash := codes[hash].(usedAt := Some(now))], true)
    else (codes, false)
  }

  /** Can this user be asked for a second factor at all? */
  predicate Enrolled(st: Mfa, userId: UserId) {
    userId in st.users && st.users[userId].mfaEnabled && st.users[userId].mfaSecret.Some?
  }

  function WithoutFactor(user: Account): Account {
    user.(mfaEnabled := false, mfaSecret := None, enrolledAt := None)
  }

  /** A recovery code is spent even when the password turns out to be wrong. */
  function Disable(st: Mfa, userId: UserId, password: string, code: string, valid: bool, now: Time): (Mfa, DisableAnswer) {
    if !Enrolled(st, userId) || st.users[userId].password.None? then (st, NotOn)
    else
      var passwordOk := st.users[userId].password == Some(password);
      var (codes, consumed) := if TotpMatches(valid, code) then (st.codes, false) else Consume(st.codes, userId, code, now);
      if !passwordOk || !(TotpMatches(valid, code) || consumed) then (st.(codes := codes), Refused)
      else (st.(users := st.users[userId := WithoutFactor(st.users[userId])], codes := Without(codes, userId)), Off)
  }

  function VerifySecondFactor(st: Mfa, userId: UserId, code: string, valid: bool, now: Time): (Mfa, bool) {
    if !Enrolled(st, userId) then (st, false)
    else if TotpMatches(valid, code) then (st, true)
    else
      var (codes, consumed) := Consume(st.codes, userId, code, now);
      (st.(codes := codes), consumed)
  }

  /** Never one's own account. Every session of the target goes too. */
  function AdminReset(st: Mfa, actorId: UserId, userId: UserId, now: Time): Mfa {
    if actorId == userId || userId !in st.users || st.users[userId].deleted then st
    else
      Mfa(st.users[userId := WithoutFactor(st.users[userId])], Without(st.codes, userId), RevokeAll(st.sessions, userId, None, now))
  }

  predicate Resettable(st: Mfa, actorId: UserId, userId: UserId) {
    actorId != userId && userId in st.users && !st.users[userId].deleted
  }

  /** The user has neither factor nor codes nor live sessions; everybody else is as before. */
  ghost predicate ClearedFor(before: Mfa, after: Mfa, userId: UserId) {
    && !Enrolled(after, userId) && LiveSessions(after.sessions, userId) == {}
    && (forall k <- after.codes :: after.codes[k].userId != userId)
    && (forall k <- before.codes :: before.codes[k].userId != userId ==> k in after.codes && after.codes[k] == before.codes[k])
    && (forall u <- before.users :: u != userId ==> u in after.users && after.users[u] == before.users[u])
    && (forall other: UserId :: other != userId ==> LiveSessions(after.sessions, other) == LiveSessions(before.sessions, other))
  }

  lemma ResetClears(st: Mfa, actorId: UserId, userId: UserId, now: Time)
    requires Resettable(st, actorId, userId)
    ensures ClearedFor(st, AdminReset(st, actorId, userId, now), userId)
  {
    forall other: UserId | other != userId
      ensures LiveSessions(RevokeAll(st.sessions, userId, None, now), other) == LiveSessions(st.sessions, other)
    {
    }
  }
}
