/** The service object of `apps/api/src/modules/auth/mfa.service.ts`: its methods update the rows in
    place, in the order the source does, and are proved to do what `MfaTables` says. */
module MfaService {
  import opened Text
  import opened RecoveryCodes
  import opened SessionTable
  import opened MfaTables

  class MfaService {
    var users: map<UserId, Account>
    var codes: map<Key, CodeRow>
    var sessions: seq<Session>

    constructor (users: map<UserId, Account>)
      ensures Snapshot() == Mfa(users, map[], [])
    {
      this.users, codes, sessions := users, map[], [];
    }

    ghost function Snapshot(): Mfa
      reads this
    {
      Mfa(users, codes, sessions)
    }

    method EnableFor(userId: UserId, secret: string, code: string, valid: bool, source: Source, now: Time)
      returns (answer: EnableAnswer)
      requires InRange(source)
      modifies this
      ensures (Snapshot(), answer) == Enable(old(Snapshot()), userId, secret, code, valid, Generated(source, CODE_COUNT), now)
      ensures answer.On? ==> IsIssue(answer.codes, CODE_COUNT)
    {
      if userId in users && users[userId].mfaEnabled {
        return AlreadyOn;
      }
      if !TotpMatches(valid, code) {
        return WrongCode;
      }
      var drawn := GenerateCodes(source, CODE_COUNT);
      if drawn.None? {
        return Failed;
      }
      GeneratedIsIssue(source, CODE_COUNT);
      if userId !in users {
        return Failed;
      }
      var before := codes;
      codes := Without(codes, userId);
      var keys := Keys(drawn.value);
      if !(codes.Keys !! keys) {
        codes := before;
        return Failed;
      }
      users := users[userId := users[userId].(mfaEnabled := true, mfaSecret := Some(secret), enrolledAt := Some(now))];
      codes := codes + NewRows(keys, userId);
      return On(drawn.value);
    }

    method ConsumeRecoveryCode(userId: UserId, code: string, now: Time) returns (consumed: bool)
      modifies `codes
      ensures (codes, consumed) == Consume(old(codes), userId, code, now)
    {
      var normalised := Normalise(code);
      if |normalised| < KEY_MIN {
        return false;
      }
      var hash := Normalise(normalised);
      if hash !in codes || codes[hash].userId != userId || codes[hash].usedAt.Some? {
        return false;
      }
      codes := codes[hash := codes[hash].(usedAt := Some(now))];
      return true;
    }

    method DisableFor(userId: UserId, password: string, code: string, valid: bool, now: Time) returns (answer: DisableAnswer)
      modifies this
      ensures (Snapshot(), answer) == Disable(old(Snapshot()), userId, password, code, valid, now)
    {
      if userId !in users || !users[userId].mfaEnabled || users[userId].mfaSecret.None? || users[userId].password.None? {
        return NotOn;
      }
      var passwordOk := users[userId].password == Some(password);
      var codeOk := TotpMatches(valid, code);
      if !codeOk {
        codeOk := ConsumeRecoveryCode(userId, code, now);
      }
      if !passwordOk || !codeOk {
        return Refused;
      }
      users := users[userId := WithoutFactor(users[userId])];
      codes := Without(codes, userId);
      return Off;
    }

    method Verify(userId: UserId, code: string, valid: bool, now: Time) returns (ok: bool)
      modifies `codes
      ensures (Snapshot(), ok) == VerifySecondFactor(old(Snapshot()), userId, code, valid, now)
    {
      if userId !in users || !users[userId].mfaEnabled || users[userId].mfaSecret.None? {
        return false;
      }
      if TotpMatches(valid, code) {
        return true;
      }
      ok := ConsumeRecoveryCode(userId, code, now);
    }

    method Reset(actorId: UserId, userId: UserId, now: Time) returns (answer: ResetAnswer)
      modifies this
      ensures Snapshot() == AdminReset(old(Snapshot()), actorId, userId, now)
      ensures answer.Cleared? <==> Resettable(old(Snapshot()), actorId, userId)
      ensures answer == OwnAccount <==> actorId == userId
      ensures answer == NoSuchUser <==> actorId != userId && (userId !in old(users) || old(users)[userId].deleted)
      ensures answer.Cleared? ==>
                answer.sessionsRevoked == |LiveSessions(old(sessions), userId)| && ClearedFor(old(Snapshot()), Snapshot(), userId)
    {
      if actorId == userId {
        return OwnAccount;
      }
      if userId !in users || users[userId].deleted {
        return NoSuchUser;
      }
      ResetClears(Snapshot(), actorId, userId, now);
      hide ClearedFor;
      users := users[userId := WithoutFactor(users[userId])];
      codes := Without(codes, userId);
      var count := CountLive(sessions, userId);
      sessions := RevokeAll(sessions, userId, None, now);
      return Cleared(count);
    }
  }
}
