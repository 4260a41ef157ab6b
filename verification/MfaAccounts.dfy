/** The accounts behind the second factor: when it goes on and off, what each call writes, and that it
    writes nothing of anybody else's. */
module MfaAccounts {
  import opened Text
  import opened RecoveryCodes
  import opened SessionTable
  import opened MfaTables
  import opened MfaRuns
  import Identity

  /** What the authenticator accepts: six digits, white space aside, that are right for the moment. */
  predicate RightTotp(valid: bool, code: string) {
    valid && |Keep(code, Identity.NotSpace)| == 6 && forall c <- Keep(code, Identity.NotSpace) :: '0' <= c <= '9'
  }

  /** Turning it on takes a known user who does not have it on, a right authenticator code, and drawn codes of which
      none is anybody else's. The account then carries the secret and the time, the drawn codes are the user's
      only ones, unused, and nothing else changes; every other answer changes nothing at all. */
  lemma EnablesIff(st: Mfa, userId: UserId, secret: string, code: string, valid: bool, drawn: Option<seq<string>>, now: Time)
    ensures var (after, answer) := Enable(st, userId, secret, code, valid, drawn, now);
            && (answer.On? <==>
                  && userId in st.users && !st.users[userId].mfaEnabled && RightTotp(valid, code) && drawn.Some?
                  && forall k <- Keys(drawn.value) :: k !in st.codes || st.codes[k].userId == userId)
            && (answer.AlreadyOn? <==> userId in st.users && st.users[userId].mfaEnabled)
            && (!answer.On? ==> after == st)
            && (answer.On? ==>
                  && answer.codes == drawn.value && after.sessions == st.sessions
                  && after.users == st.users[userId := st.users[userId].(mfaEnabled := true, mfaSecret := Some(secret), enrolledAt := Some(now))]
                  && (forall k <- Keys(drawn.value) :: k in after.codes && after.codes[k] == CodeRow(userId, None))
                  && (forall k <- after.codes :: after.codes[k].userId == userId ==> k in Keys(drawn.value))
                  && (forall k <- after.codes :: after.codes[k].userId != userId ==> k in st.codes && st.codes[k] == after.codes[k])
                  && (forall k <- st.codes :: st.codes[k].userId != userId ==> k in after.codes && after.codes[k] == st.codes[k]))
  {
    hide Keys, Keep, Normalise;
    TotpIsRight(valid, code);
    hide TotpMatches, RightTotp;
  }

  lemma TotpIsRight(valid: bool, code: string)
    ensures TotpMatches(valid, code) <==> RightTotp(valid, code)
  {
    hide Keep;
    var digits := Keep(code, Identity.NotSpace);
    assert forall i :: 0 <= i < |digits| ==> digits[i] in digits;
  }

  /** Turning it off leaves the account without secret and enrolment, the user without codes and everything else as it
      was. A refusal changes no account, and spends one code at most: the one that was typed. */
  lemma DisableWrites(st: Mfa, userId: UserId, password: string, code: string, valid: bool, now: Time)
    ensures var (after, answer) := Disable(st, userId, password, code, valid, now);
            && after.sessions == st.sessions
            && (answer.NotOn? <==> !(userId in st.users && st.users[userId].mfaEnabled && st.users[userId].mfaSecret.Some? && st.users[userId].password.Some?))
            && (answer.NotOn? ==> after == st)
            && (answer.Off? ==>
                  && after.users == st.users[userId := st.users[userId].(mfaEnabled := false, mfaSecret := None, enrolledAt := None)]
                  && (forall k <- after.codes :: after.codes[k].userId != userId && k in st.codes && st.codes[k] == after.codes[k])
                  && (forall k <- st.codes :: st.codes[k].userId != userId ==> k in after.codes))
            && (answer.Refused? ==>
                  && after.users == st.users
                  && var key := Normalise(code);
                     after.codes == if !RightTotp(valid, code) && |key| >= 6 && Works(st, userId, key)
                                    then st.codes[key := CodeRow(userId, Some(now))] else st.codes)
  {
    hide Keep, Normalise, Consume, Consumable;
    ConsumeOne(st.codes, userId, code, now);
    TotpIsRight(valid, code);
    hide TotpMatches, RightTotp;
  }

  /** A verification changes nothing but the recovery code it accepts, which is then used as of now. */
  lemma VerifyWrites(st: Mfa, userId: UserId, code: string, valid: bool, now: Time)
    ensures var (after, ok) := VerifySecondFactor(st, userId, code, valid, now);
            var on := userId in st.users && st.users[userId].mfaEnabled && st.users[userId].mfaSecret.Some?;
            var key := Normalise(code);
            && (ok <==> on && (RightTotp(valid, code) || (|key| >= 6 && Works(st, userId, key))))
            && after == if ok && !RightTotp(valid, code) then st.(codes := st.codes[key := CodeRow(userId, Some(now))]) else st
  {
    hide Keep, Normalise, Consume, Consumable;
    ConsumeOne(st.codes, userId, code, now);
    TotpIsRight(valid, code);
    hide TotpMatches, RightTotp;
  }

  /** An administrator clears anybody's second factor but their own: what is left of the account, the codes and the
      sessions; the sessions as the session table has it. */
  lemma AdminResetWrites(st: Mfa, actorId: UserId, userId: UserId, now: Time)
    ensures var after := AdminReset(st, actorId, userId, now);
            if actorId != userId && userId in st.users && !st.users[userId].deleted then
              && after.users == st.users[userId := st.users[userId].(mfaEnabled := false, mfaSecret := None, enrolledAt := None)]
              && (forall k <- after.codes :: after.codes[k].userId != userId && k in st.codes && st.codes[k] == after.codes[k])
              && (forall k <- st.codes :: st.codes[k].userId != userId ==> k in after.codes)
              && |after.sessions| == |st.sessions|
              && forall i :: 0 <= i < |st.sessions| ==>
                   after.sessions[i] == if st.sessions[i].userId == userId && Live(st.sessions[i])
                                        then st.sessions[i].(revokedAt := Some(now), revokedReason := None) else st.sessions[i]
            else after == st
  {
  }

  /** The two models of an administrator's reset agree on the sessions. */
  lemma ResetsAgree(st: Mfa, accounts: Store, actorId: UserId, userId: UserId, now: Time)
    requires st.sessions == accounts.sessions && actorId != userId
    requires userId in st.users <==> userId in accounts.users
    requires userId in st.users ==> (st.users[userId].deleted <==> accounts.users[userId].deleted)
    ensures AdminReset(st, actorId, userId, now).sessions == ResetMfa(accounts, userId, now).sessions
    ensures ResetMfa(accounts, userId, now).users == accounts.users && ResetMfa(accounts, userId, now).links == accounts.links
  {
    hide RevokeAll, Without;
  }

  // ---------------------------------------------------------------------------
  // One user's second factor is nobody else's business
  // ---------------------------------------------------------------------------

  ghost predicate LeftAlone(before: Mfa, after: Mfa, userId: UserId) {
    && (userId in before.users <==> userId in after.users)
    && (userId in before.users ==> after.users[userId] == before.users[userId])
    && (forall k <- before.codes :: before.codes[k].userId == userId ==> k in after.codes && after.codes[k] == before.codes[k])
    && (forall k <- after.codes :: after.codes[k].userId == userId ==> k in before.codes && before.codes[k] == after.codes[k])
    && |after.sessions| == |before.sessions|
    && forall i :: 0 <= i < |before.sessions| && before.sessions[i].userId == userId ==> after.sessions[i] == before.sessions[i]
  }

  lemma StepLeavesOthers(st: Mfa, call: Call, userId: UserId)
    requires call.userId != userId
    ensures LeftAlone(st, Step(st, call), userId)
  {
    hide Keys, Keep, Normalise, RightTotp, TotpMatches, Consume, Consumable, Without, NewRows, RevokeAll, Enable, Disable, VerifySecondFactor, AdminReset;
    match call
    case Enabling(u, secret, code, valid, drawn, now) => EnablesIff(st, u, secret, code, valid, drawn, now);
    case Disabling(u, password, code, valid, now) => DisableWrites(st, u, password, code, valid, now);
    case Verifying(u, code, valid, now) => VerifyWrites(st, u, code, valid, now);
    case Resetting(actorId, u, now) => AdminResetWrites(st, actorId, u, now);
  }

  ghost predicate SameUpTo(before: Mfa, after: Mfa, userId: UserId) {
    && LeftAlone(before, after, userId)
    && forall i :: 0 <= i < |before.sessions| ==> after.sessions[i].userId == before.sessions[i].userId
  }

  lemma StepKeepsOwners(st: Mfa, call: Call)
    ensures |Step(st, call).sessions| == |st.sessions|
    ensures forall i :: 0 <= i < |st.sessions| ==> Step(st, call).sessions[i].userId == st.sessions[i].userId
  {
    hide Keys, Keep, Normalise, TotpMatches, Consume, Consumable, Without, NewRows;
  }

  /** Over every run of calls about other people, a user's account, codes and sessions stay exactly as they are. */
  lemma {:induction false} OthersLeaveAlone(st: Mfa, calls: seq<Call>, userId: UserId)
    requires forall call <- calls :: call.userId != userId
    ensures SameUpTo(st, Run(st, calls), userId)
    decreases |calls|
  {
    hide Step;
    if calls != [] {
      var last := |calls| - 1;
      OthersLeaveAlone(st, calls[..last], userId);
      StepLeavesOthers(Run(st, calls[..last]), calls[last], userId);
      StepKeepsOwners(Run(st, calls[..last]), calls[last]);
    }
  }
}
