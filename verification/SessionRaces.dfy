/** Rotation with its read and its writes apart: `rotate` of `apps/api/src/modules/auth/auth.service.ts`
    reads the session outside its transaction. Which facts of `SessionRuns` that leaves standing, and
    exactly when a write does no harm. */
module SessionRaces {
  import opened Text
  import opened SessionTable
  import opened SessionRuns

  /** `WriteOf` is the transaction of a rotation whose checks were made in some earlier state: nothing
      is checked again, except by the unique index. */
  datatype FineCall = Whole(call: Call) | WriteOf(session: nat, token: Token, expiresAt: Time, now: Time)

  /** The row exists and the drawn token is new, so the transaction goes through. */
  predicate Writes(st: Store, call: FineCall) {
    call.WriteOf? && call.session < |st.sessions| && !TokenTaken(st.sessions, call.token)
  }

  function FineStep(st: Store, call: FineCall): Store {
    match call
    case Whole(c) => Step(st, c)
    case WriteOf(id, token, expiresAt, now) =>
      if Writes(st, call) then st.(sessions := RotateWrites(st.sessions, id, token, expiresAt, now)) else st
  }

  function FineRun(st: Store, calls: seq<FineCall>): Store
    decreases |calls|
  {
    if calls == [] then st else FineRun(FineStep(st, calls[0]), calls[1..])
  }

  // ---------------------------------------------------------------------------
  // What always survives
  // ---------------------------------------------------------------------------

  /** Rotated sessions name a later session of the same user, however the calls interleave. */
  ghost predicate RotatedForward(sessions: seq<Session>) {
    forall i: nat :: i < |sessions| && sessions[i].revokedReason == Some(Rotated) ==>
      && sessions[i].replacedById.Some? && i < sessions[i].replacedById.value < |sessions|
      && sessions[sessions[i].replacedById.value].userId == sessions[i].userId
  }

  /** No session is dropped or changes hands, and a revoked one never becomes live again. */
  ghost predicate NoneRevived(before: seq<Session>, after: seq<Session>) {
    |before| <= |after| && forall i: nat :: i < |before| ==>
      after[i].userId == before[i].userId && (!Live(before[i]) ==> !Live(after[i]))
  }

  lemma FineStepKeeps(st: Store, call: FineCall)
    requires RotatedForward(st.sessions)
    ensures RotatedForward(FineStep(st, call).sessions) && NoneRevived(st.sessions, FineStep(st, call).sessions)
  {
    hide Step;
    if call.Whole? {
      StepShape(st, call.call);
    }
  }

  lemma {:induction false} FineRunKeeps(st: Store, calls: seq<FineCall>)
    requires RotatedForward(st.sessions)
    ensures RotatedForward(FineRun(st, calls).sessions) && NoneRevived(st.sessions, FineRun(st, calls).sessions)
    decreases |calls|
  {
    if calls != [] {
      FineStepKeeps(st, calls[0]);
      FineRunKeeps(FineStep(st, calls[0]), calls[1..]);
    }
  }

  lemma FineStepValid(st: Store, call: FineCall)
    requires Valid(st.sessions)
    ensures Valid(FineStep(st, call).sessions)
  {
    hide Step, Valid, RotateWrites, TokenTaken;
    if call.Whole? {
      StepKeeps(st, call.call);
    } else if Writes(st, call) {
      WritesKeepValid(st.sessions, call.session, call.token, call.expiresAt, call.now);
    }
  }

  /** The whole invariant survives every interleaving: tokens stay distinct, rotated sessions name a later
      one of the same user, and no session has two predecessors. So a chain of `replacedById` links
      still has at most one live session, and two chains that meet are still one. */
  lemma {:induction false} FineRunValid(st: Store, calls: seq<FineCall>)
    requires Valid(st.sessions)
    ensures Valid(FineRun(st, calls).sessions)
    decreases |calls|
  {
    hide Valid, FineStep;
    if calls != [] {
      FineStepValid(st, calls[0]);
      FineRunValid(FineStep(st, calls[0]), calls[1..]);
    }
  }

  // ---------------------------------------------------------------------------
  // When a write does no harm
  // ---------------------------------------------------------------------------

  /** A write leaves the user as many live sessions as before exactly if the session it retires is still
      live; otherwise the user has one more. */
  lemma LiveCountKeptIff(sessions: seq<Session>, id: nat, token: Token, expiresAt: Time, now: Time)
    requires id < |sessions|
    ensures var after := RotateWrites(sessions, id, token, expiresAt, now);
            var user := sessions[id].userId;
            && (|LiveSessions(after, user)| == |LiveSessions(sessions, user)| <==> Live(sessions[id]))
            && (!Live(sessions[id]) ==> LiveSessions(after, user) == LiveSessions(sessions, user) + {|sessions|})
            && forall other: UserId :: other != user ==> LiveSessions(after, other) == LiveSessions(sessions, other)
  {
    if Live(sessions[id]) {
      RotationSwapsLive(sessions, id, token, expiresAt, now);
    } else {
      LateWriteAddsOne(sessions, id, token, expiresAt, now);
    }
    hide RotateWrites, LiveSessions;
    forall other: UserId | other != sessions[id].userId
      ensures LiveSessions(RotateWrites(sessions, id, token, expiresAt, now), other) == LiveSessions(sessions, other)
    {
      OthersUntouched(sessions, id, token, expiresAt, now, other);
    }
  }

  lemma LateWriteAddsOne(sessions: seq<Session>, id: nat, token: Token, expiresAt: Time, now: Time)
    requires id < |sessions| && !Live(sessions[id])
    ensures var after := RotateWrites(sessions, id, token, expiresAt, now);
            LiveSessions(after, sessions[id].userId) == LiveSessions(sessions, sessions[id].userId) + {|sessions|}
    ensures |sessions| !in LiveSessions(sessions, sessions[id].userId)
  {
  }

  lemma OthersUntouched(sessions: seq<Session>, id: nat, token: Token, expiresAt: Time, now: Time, other: UserId)
    requires id < |sessions| && other != sessions[id].userId
    ensures LiveSessions(RotateWrites(sessions, id, token, expiresAt, now), other) == LiveSessions(sessions, other)
  {
  }

  /** It leaves every revoked row alone exactly under the same condition. */
  lemma RowsKeptIff(sessions: seq<Session>, id: nat, token: Token, expiresAt: Time, now: Time)
    requires Valid(sessions) && id < |sessions| && !TokenTaken(sessions, token)
    ensures Kept(sessions, RotateWrites(sessions, id, token, expiresAt, now)) <==> Live(sessions[id])
  {
    var after := RotateWrites(sessions, id, token, expiresAt, now);
    if Live(sessions[id]) {
      RotationKeepsValid(sessions, id, token, expiresAt, now);
    } else {
      assert RowOk(sessions, id);
      assert after[id].replacedById == Some(|sessions|);
      assert !RowKept(sessions[id], after[id]);
    }
  }

  /** After a change of password or a reset, a write undoes the cut exactly if it retires one of the
      sessions cut off. */
  lemma CutOffKeptIff(sessions: seq<Session>, userId: UserId, n: nat, id: nat, token: Token, expiresAt: Time, now: Time)
    requires CutOff(sessions, userId, n) && n <= |sessions| && id < |sessions|
    ensures CutOff(RotateWrites(sessions, id, token, expiresAt, now), userId, n)
       <==> !(id < n && sessions[id].userId == userId)
  {
    var after := RotateWrites(sessions, id, token, expiresAt, now);
    assert !Live(after[id]) && after[id].revokedReason == Some(Rotated) && after[id].userId == sessions[id].userId;
  }

  /** Every write of the run retires a session that is live by then. */
  predicate WritesHitLive(st: Store, calls: seq<FineCall>)
    decreases |calls|
  {
    calls == [] || ((Writes(st, calls[0]) ==> Live(st.sessions[calls[0].session])) && WritesHitLive(FineStep(st, calls[0]), calls[1..]))
  }

  /** No step of the run drops, re-issues, revives or rewrites a session that was already revoked. */
  ghost predicate KeptThroughout(st: Store, calls: seq<FineCall>)
    decreases |calls|
  {
    calls == [] || (Kept(st.sessions, FineStep(st, calls[0]).sessions) && KeptThroughout(FineStep(st, calls[0]), calls[1..]))
  }

  lemma FineStepKeptIff(st: Store, call: FineCall)
    requires Valid(st.sessions)
    ensures Kept(st.sessions, FineStep(st, call).sessions) <==> (Writes(st, call) ==> Live(st.sessions[call.session]))
  {
    hide Step, Valid, RotateWrites, TokenTaken;
    if call.Whole? {
      StepKeeps(st, call.call);
    } else if Writes(st, call) {
      RowsKeptIff(st.sessions, call.session, call.token, call.expiresAt, call.now);
    }
  }

  /** Over a whole run: what the atomic calls never undo stays untouched at every step exactly if every
      write hits a live session. */
  lemma {:induction false} KeptThroughoutIff(st: Store, calls: seq<FineCall>)
    requires Valid(st.sessions)
    ensures KeptThroughout(st, calls) <==> WritesHitLive(st, calls)
    ensures WritesHitLive(st, calls) ==> Kept(st.sessions, FineRun(st, calls).sessions)
    decreases |calls|
  {
    hide Valid, FineStep, Kept, Writes;
    if calls == [] {
      KeptSame(st.sessions);
    } else {
      var next := FineStep(st, calls[0]);
      FineStepKeptIff(st, calls[0]);
      FineStepValid(st, calls[0]);
      KeptThroughoutIff(next, calls[1..]);
      if WritesHitLive(st, calls) {
        KeptTransitive(st.sessions, next.sessions, FineRun(next, calls[1..]).sessions);
      }
    }
  }

  lemma KeptSame(sessions: seq<Session>)
    ensures Kept(sessions, sessions)
  {
  }

  // ---------------------------------------------------------------------------
  // What becomes of a password change
  // ---------------------------------------------------------------------------

  /** The write retires one of the user's first `n` sessions. */
  predicate HitsCut(st: Store, call: FineCall, userId: UserId, n: nat) {
    Writes(st, call) && call.session < n && st.sessions[call.session].userId == userId
  }

  predicate SparesCut(st: Store, calls: seq<FineCall>, userId: UserId, n: nat)
    decreases |calls|
  {
    calls == [] || (!HitsCut(st, calls[0], userId, n) && SparesCut(FineStep(st, calls[0]), calls[1..], userId, n))
  }

  /** One of the user's first `n` sessions names a later one as its successor. */
  ghost predicate Escaped(sessions: seq<Session>, userId: UserId, n: nat) {
    exists i: nat :: i < n && i < |sessions| && sessions[i].userId == userId
      && sessions[i].replacedById.Some? && sessions[i].replacedById.value >= n
  }

  lemma EscapedIsNotCut(sessions: seq<Session>, userId: UserId, n: nat)
    requires Escaped(sessions, userId, n)
    ensures !CutOff(sessions, userId, n)
  {
  }

  lemma StaysEscaped(st: Store, call: FineCall, userId: UserId, n: nat)
    requires Valid(st.sessions) && n <= |st.sessions| && Escaped(st.sessions, userId, n)
    ensures n <= |FineStep(st, call).sessions| && Escaped(FineStep(st, call).sessions, userId, n)
  {
    hide Step;
    var after := FineStep(st, call).sessions;
    var i: nat :| i < n && i < |st.sessions| && st.sessions[i].userId == userId
      && st.sessions[i].replacedById.Some? && st.sessions[i].replacedById.value >= n;
    assert RowOk(st.sessions, i);
    if call.Whole? {
      StepKeeps(st, call.call);
      assert RowKept(st.sessions[i], after[i]);
    }
    assert after[i].userId == userId && after[i].replacedById.Some? && after[i].replacedById.value >= n;
  }

  lemma CutAfterStep(st: Store, call: FineCall, userId: UserId, n: nat)
    requires Valid(st.sessions) && CutOff(st.sessions, userId, n)
    ensures var after := FineStep(st, call).sessions;
            && n <= |after|
            && (!HitsCut(st, call, userId, n) ==> CutOff(after, userId, n))
            && (HitsCut(st, call, userId, n) ==> Escaped(after, userId, n))
  {
    hide Step, Valid;
    if call.Whole? {
      StepKeeps(st, call.call);
      CutOffKept(st.sessions, Step(st, call.call).sessions, userId, n);
    } else if Writes(st, call) {
      CutOffKeptIff(st.sessions, userId, n, call.session, call.token, call.expiresAt, call.now);
      if HitsCut(st, call, userId, n) {
        assert FineStep(st, call).sessions[call.session].replacedById == Some(|st.sessions|);
      }
    }
  }

  lemma {:induction false} EscapedForGood(st: Store, calls: seq<FineCall>, userId: UserId, n: nat)
    requires Valid(st.sessions) && n <= |st.sessions| && Escaped(st.sessions, userId, n)
    ensures Escaped(FineRun(st, calls).sessions, userId, n)
    decreases |calls|
  {
    hide Valid, FineStep, Escaped;
    if calls != [] {
      StaysEscaped(st, calls[0], userId, n);
      FineStepValid(st, calls[0]);
      EscapedForGood(FineStep(st, calls[0]), calls[1..], userId, n);
    }
  }

  /** The cut is still there after a run exactly if no write of the run retired one of the sessions cut
      off: once undone it is undone for good. */
  lemma {:induction false} CutOffStaysIff(st: Store, calls: seq<FineCall>, userId: UserId, n: nat)
    requires Valid(st.sessions) && CutOff(st.sessions, userId, n)
    ensures CutOff(FineRun(st, calls).sessions, userId, n) <==> SparesCut(st, calls, userId, n)
    decreases |calls|
  {
    hide Valid, FineStep, Escaped, CutOff, HitsCut;
    if calls != [] {
      var next := FineStep(st, calls[0]);
      CutAfterStep(st, calls[0], userId, n);
      FineStepValid(st, calls[0]);
      if HitsCut(st, calls[0], userId, n) {
        EscapedForGood(next, calls[1..], userId, n);
        EscapedIsNotCut(FineRun(next, calls[1..]).sessions, userId, n);
      } else {
        CutOffStaysIff(next, calls[1..], userId, n);
      }
    }
  }

  /** None of the user's first `n` tokens obtains anything, whenever and with whatever new token. */
  ghost predicate NothingObtained(st: Store, userId: UserId, n: nat) {
    forall id: nat, token: Token, expiresAt: Time, idleMs: Time, now: Time ::
      id < n && id < |st.sessions| && st.sessions[id].userId == userId ==>
        Refresh(st, st.sessions[id].token, token, expiresAt, idleMs, now).1 == Denied
  }

  ghost predicate NeverObtained(st: Store, calls: seq<FineCall>, userId: UserId, n: nat)
    decreases |calls|
  {
    NothingObtained(st, userId, n) && (calls == [] || NeverObtained(FineStep(st, calls[0]), calls[1..], userId, n))
  }

  lemma CutObtainsNothing(st: Store, userId: UserId, n: nat)
    requires Valid(st.sessions) && CutOff(st.sessions, userId, n)
    ensures NothingObtained(st, userId, n)
  {
    hide Valid, CutOff, Refresh;
    forall id: nat, token: Token, expiresAt: Time, idleMs: Time, now: Time |
      id < n && id < |st.sessions| && st.sessions[id].userId == userId
      ensures Refresh(st, st.sessions[id].token, token, expiresAt, idleMs, now).1 == Denied
    {
      CutOffTokenDenied(st, userId, n, id, token, expiresAt, idleMs, now);
    }
  }

  /** Right after a write the token of the session it retired obtains new tokens, for as long as the grace
      window and the session created last, whatever had been done to that session before. */
  lemma LateWriteIsHonoured(st: Store, call: FineCall, token: Token, expiresAt: Time, idleMs: Time, now: Time)
    requires Valid(st.sessions) && Writes(st, call)
    requires now <= call.expiresAt && now - call.now <= ROTATION_GRACE_MS
    requires !TokenTaken(st.sessions, token) && token != call.token
    ensures Refresh(FineStep(st, call), st.sessions[call.session].token, token, expiresAt, idleMs, now).1.Issued?
  {
    var after := FineStep(st, call);
    FineStepValid(st, call);
    TokenFindsIts(after.sessions, call.session);
    assert after.sessions[call.session].token == st.sessions[call.session].token;
    assert Live(after.sessions[|st.sessions|]);
    assert !TokenTaken(after.sessions, token);
  }

  /** A token that is not in the table. */
  lemma {:induction false} NewToken(sessions: seq<Session>) returns (token: Token)
    ensures forall i :: 0 <= i < |sessions| ==> |sessions[i].token| < |token|
  {
    if sessions == [] {
      token := "";
    } else {
      var earlier := NewToken(sessions[..|sessions| - 1]);
      token := earlier + sessions[|sessions| - 1].token + "+";
    }
  }

  lemma HitObtains(st: Store, call: FineCall, userId: UserId, n: nat)
    requires Valid(st.sessions) && HitsCut(st, call, userId, n)
    ensures !NothingObtained(FineStep(st, call), userId, n)
  {
    var after := FineStep(st, call);
    var token := NewToken(after.sessions);
    assert after.sessions[|st.sessions|].token == call.token;
    forall i | 0 <= i < |st.sessions| ensures st.sessions[i].token != token {
      assert after.sessions[i].token == st.sessions[i].token;
    }
    var now := if call.expiresAt < call.now then call.expiresAt else call.now;
    LateWriteIsHonoured(st, call, token, 0, 0, now);
    assert after.sessions[call.session].token == st.sessions[call.session].token && after.sessions[call.session].userId == userId;
    hide Refresh;
    assert Refresh(after, after.sessions[call.session].token, token, 0, 0, now).1 != Denied;
  }

  /** The promise of a new password, at this granularity: over every run that starts with the user's first
      `n` sessions cut off, their tokens never obtain anything at any moment exactly if no write of the run
      retires one of those sessions. */
  lemma {:induction false} NeverObtainedIff(st: Store, calls: seq<FineCall>, userId: UserId, n: nat)
    requires Valid(st.sessions) && CutOff(st.sessions, userId, n)
    ensures NeverObtained(st, calls, userId, n) <==> SparesCut(st, calls, userId, n)
    decreases |calls|
  {
    hide Valid, FineStep, Escaped, CutOff, HitsCut, NothingObtained;
    CutObtainsNothing(st, userId, n);
    if calls != [] {
      CutAfterStep(st, calls[0], userId, n);
      FineStepValid(st, calls[0]);
      if HitsCut(st, calls[0], userId, n) {
        HitObtains(st, calls[0], userId, n);
      } else {
        NeverObtainedIff(FineStep(st, calls[0]), calls[1..], userId, n);
      }
    }
  }

  /** So after a change of password, whatever interleaves, no token issued to the user before obtains
      anything exactly if no write that was still under way retires one of the sessions of before. */
  lemma ChangedPasswordHoldsIff(st: Store, userId: UserId, current: string, new_: string, at: Time, calls: seq<FineCall>)
    requires Valid(st.sessions) && ChangePassword(st, userId, current, new_, at).1
    ensures var changed := ChangePassword(st, userId, current, new_, at).0;
            NeverObtained(changed, calls, userId, |st.sessions|) <==> SparesCut(changed, calls, userId, |st.sessions|)
  {
    StepKeeps(st, ChangingPassword(userId, current, new_, at));
    RevokeAllCutsOff(st.sessions, userId, Some(PasswordChanged), at);
    NeverObtainedIff(ChangePassword(st, userId, current, new_, at).0, calls, userId, |st.sessions|);
  }

  /** The same after a reset link was spent. */
  lemma ResetPasswordHoldsIff(st: Store, link: Token, new_: string, at: Time, calls: seq<FineCall>)
    requires Valid(st.sessions) && ResetPassword(st, link, new_, at).1
    ensures var reset := ResetPassword(st, link, new_, at).0;
            var userId := st.links[LinkLookup(st.links, link).value].userId;
            NeverObtained(reset, calls, userId, |st.sessions|) <==> SparesCut(reset, calls, userId, |st.sessions|)
  {
    StepKeeps(st, ResettingPassword(link, new_, at));
    var userId := st.links[LinkLookup(st.links, link).value].userId;
    RevokeAllCutsOff(st.sessions, userId, Some(PasswordReset), at);
    NeverObtainedIff(ResetPassword(st, link, new_, at).0, calls, userId, |st.sessions|);
  }

  /** A run in which it does not hold: the session was read for a rotation, the password is changed, the
      rotation is written, and the token of before is presented again. */
  lemma PasswordChangeUndone(userId: UserId, password: string, new_: string, a: Token, b: Token, c: Token, now: Time)
    requires a != b && b != c && a != c
    ensures var st := Store(map[userId := User(true, false, true, Some(password))], [], []);
            var (signedIn, first) := CompleteSignIn(st, userId, a, now + 1, now);
            var (changed, ok) := ChangePassword(signedIn, userId, password, new_, now);
            var written := FineStep(changed, WriteOf(0, b, now + 1, now));
            && first == Issued(0) && ok && LiveSessions(changed.sessions, userId) == {}
            && Refresh(changed, a, c, now + 1, 0, now).1 == Denied
            && Refresh(written, a, c, now + 1, 0, now).1 == Issued(2)
  {
    var st := Store(map[userId := User(true, false, true, Some(password))], [], []);
    var signedIn := CompleteSignIn(st, userId, a, now + 1, now).0;
    var changed := ChangePassword(signedIn, userId, password, new_, now).0;
    var written := FineStep(changed, WriteOf(0, b, now + 1, now));
    assert |signedIn.sessions| == 1 && signedIn.sessions[0] == Opened(userId, a, now + 1, now);
    assert |changed.sessions| == 1 && !Live(changed.sessions[0]) && changed.sessions[0].token == a;
    assert |written.sessions| == 2 && written.sessions[0].token == a && written.sessions[1].token == b;
    assert written.sessions[0].replacedById == Some(1) && Live(written.sessions[1]);
    assert written.sessions[..1] == [written.sessions[0]];
    assert Lookup(written.sessions, a) == Some(0);
    assert Lookup(changed.sessions, a) == Some(0);
    assert FollowRotationChain(written.sessions, 1, ROTATION_CHAIN_MAX_HOPS) == Some(1);
    assert !TokenTaken(written.sessions, c);
  }

  // ---------------------------------------------------------------------------
  // Chains and sign-ins
  // ---------------------------------------------------------------------------

  /** The sessions no other one was rotated into. */
  ghost function Roots(sessions: seq<Session>): set<nat> {
    set i: nat | i < |sessions| && IsSignIn(sessions, i)
  }

  /** The session a sign-in call opens, if this is one and it succeeds. */
  function OpenedBy(st: Store, call: FineCall): set<nat> {
    if call.Whole? && call.call.SignIn?
       && CompleteSignIn(st, call.call.userId, call.call.token, call.call.expiresAt, call.call.now).1 == Issued(|st.sessions|)
    then {|st.sessions|} else {}
  }

  /** The sessions opened by the sign-in calls of a run. */
  function SignIns(st: Store, calls: seq<FineCall>): set<nat>
    decreases |calls|
  {
    if calls == [] then {} else OpenedBy(st, calls[0]) + SignIns(FineStep(st, calls[0]), calls[1..])
  }

  /** The write retires a session that has been rotated before, and takes its successor off it. */
  predicate Orphans(st: Store, call: FineCall) {
    Writes(st, call) && st.sessions[call.session].replacedById.Some?
  }

  predicate NeverOrphans(st: Store, calls: seq<FineCall>)
    decreases |calls|
  {
    calls == [] || (!Orphans(st, calls[0]) && NeverOrphans(FineStep(st, calls[0]), calls[1..]))
  }

  lemma RootsAfterMarks(before: seq<Session>, after: seq<Session>)
    requires Marks(before, after)
    ensures Roots(after) == Roots(before)
  {
    assert forall i: nat :: i < |before| ==> after[i].replacedById == before[i].replacedById;
    forall i: nat | i < |before| ensures IsSignIn(after, i) <==> IsSignIn(before, i) {
    }
  }

  lemma RootsAfterOpening(before: seq<Session>, after: seq<Session>)
    requires Valid(before) && Opens(before, after)
    ensures Roots(after) == Roots(before) + {|before|}
  {
    assert forall i: nat :: i < |before| ==> after[i] == before[i];
    assert after[|before|].replacedById.None?;
    forall k: nat | k < |after| ensures after[k].replacedById != Some(|before|) {
      if k < |before| { assert RowOk(before, k); }
    }
    forall i: nat | i < |before| ensures IsSignIn(after, i) <==> IsSignIn(before, i) {
    }
  }

  lemma RootsAfterWrites(before: seq<Session>, id: nat, token: Token, expiresAt: Time, now: Time)
    requires Valid(before) && id < |before|
    ensures var after := RotateWrites(before, id, token, expiresAt, now);
            var old_ := before[id].replacedById;
            && Roots(after) == Roots(before) + (if old_.Some? then {old_.value} else {})
            && (old_.Some? ==> old_.value < |before| && old_.value !in Roots(before))
  {
    var after := RotateWrites(before, id, token, expiresAt, now);
    var old_ := before[id].replacedById;
    assert RowOk(before, id);
    assert after[id].replacedById == Some(|before|);
    assert forall k: nat :: k < |before| && k != id ==> after[k] == before[k];
    forall i: nat | i < |before| ensures IsSignIn(after, i) <==> IsSignIn(before, i) || Some(i) == old_ {
      if IsSignIn(after, i) && !IsSignIn(before, i) {
        var k: nat :| k < |before| && before[k].replacedById == Some(i);
        assert after[k].replacedById != Some(i);
      }
      if Some(i) == old_ {
        forall k: nat | k < |after| ensures after[k].replacedById != Some(i) {
          if k < |before| && k != id {
            assert before[k].replacedById != before[id].replacedById;
          }
        }
      }
    }
    assert !IsSignIn(after, |before|);
  }

  lemma FineStepRoots(st: Store, call: FineCall)
    requires Valid(st.sessions)
    ensures var st' := FineStep(st, call);
            && Roots(st.sessions) + OpenedBy(st, call) <= Roots(st'.sessions) && |st.sessions| <= |st'.sessions|
            && (!Orphans(st, call) ==> Roots(st'.sessions) == Roots(st.sessions) + OpenedBy(st, call))
            && (Orphans(st, call) ==> exists i: nat :: i < |st.sessions| && i in Roots(st'.sessions) && i !in Roots(st.sessions))
  {
    hide Step, Valid, RotateWrites, TokenTaken, Roots;
    if call.Whole? {
      WholeStepRoots(st, call.call);
    } else if Writes(st, call) {
      RootsAfterWrites(st.sessions, call.session, call.token, call.expiresAt, call.now);
      assert |RotateWrites(st.sessions, call.session, call.token, call.expiresAt, call.now)| == |st.sessions| + 1 by {
        WritesAddOne(st.sessions, call.session, call.token, call.expiresAt, call.now);
      }
    }
  }

  lemma WritesAddOne(sessions: seq<Session>, id: nat, token: Token, expiresAt: Time, now: Time)
    requires id < |sessions|
    ensures |RotateWrites(sessions, id, token, expiresAt, now)| == |sessions| + 1
  {
  }

  lemma WholeStepRoots(st: Store, call: Call)
    requires Valid(st.sessions)
    ensures var after := Step(st, call).sessions;
            Roots(after) == Roots(st.sessions) + OpenedBy(st, Whole(call)) && |st.sessions| <= |after|
  {
    hide Valid, RotateWrites, Roots;
    var after := Step(st, call).sessions;
    StepShape(st, call);
    OpensIffSignIn(st, call);
    hide Step, OpenedBy;
    if Marks(st.sessions, after) {
      RootsAfterMarks(st.sessions, after);
    } else if Opens(st.sessions, after) {
      RootsAfterOpening(st.sessions, after);
    } else {
      var id: nat :| Rotates(st.sessions, after, id, call.token, call.expiresAt, call.now);
      RootsAfterWrites(st.sessions, id, call.token, call.expiresAt, call.now);
      WritesAddOne(st.sessions, id, call.token, call.expiresAt, call.now);
      assert RowOk(st.sessions, id) by { LiveHasNoLink(st.sessions, id); }
    }
  }

  lemma LiveHasNoLink(sessions: seq<Session>, id: nat)
    requires Valid(sessions) && id < |sessions|
    ensures RowOk(sessions, id)
  {
  }

  lemma OpensIffSignIn(st: Store, call: Call)
    ensures var after := Step(st, call).sessions;
            OpenedBy(st, Whole(call)) == if Opens(st.sessions, after) then {|st.sessions|} else {}
  {
    if call.SignIn? {
      var after := Step(st, call).sessions;
      assert |after| > |st.sessions| ==> after[..|st.sessions|] == st.sessions;
    } else if call.Refreshing? {
      RefreshOpensNone(st, call);
    }
  }

  lemma RefreshOpensNone(st: Store, call: Call)
    requires call.Refreshing?
    ensures !Opens(st.sessions, Step(st, call).sessions)
  {
    var after := Step(st, call).sessions;
    StepShape(st, call);
    hide Step;
    if !Marks(st.sessions, after) {
      var id: nat :| Rotates(st.sessions, after, id, call.token, call.expiresAt, call.now);
      assert !Live(after[id]) && Live(st.sessions[id]);
    }
  }

  lemma {:induction false} SignInsAreLater(st: Store, calls: seq<FineCall>)
    requires Valid(st.sessions)
    ensures forall i <- SignIns(st, calls) :: i >= |st.sessions|
    decreases |calls|
  {
    hide Valid, FineStep;
    if calls != [] {
      FineStepRoots(st, calls[0]);
      FineStepValid(st, calls[0]);
      SignInsAreLater(FineStep(st, calls[0]), calls[1..]);
    }
  }

  /** The sessions without a predecessor are exactly those that sign-in calls opened, beside those there
      were, if and only if no write of the run takes a successor off a session that already had one. */
  lemma {:induction false} RootsAreSignInsIff(st: Store, calls: seq<FineCall>)
    requires Valid(st.sessions)
    ensures Roots(st.sessions) + SignIns(st, calls) <= Roots(FineRun(st, calls).sessions)
    ensures Roots(FineRun(st, calls).sessions) == Roots(st.sessions) + SignIns(st, calls) <==> NeverOrphans(st, calls)
    decreases |calls|
  {
    hide Valid, FineStep, Orphans, Roots, OpenedBy;
    if calls != [] {
      var next := FineStep(st, calls[0]);
      FineStepRoots(st, calls[0]);
      FineStepValid(st, calls[0]);
      RootsAreSignInsIff(next, calls[1..]);
      SignInsAreLater(next, calls[1..]);
      if Orphans(st, calls[0]) {
        var i: nat :| i < |st.sessions| && i in Roots(next.sessions) && i !in Roots(st.sessions);
        SignInsAreLater(st, calls);
        assert i in Roots(FineRun(st, calls).sessions) && i !in Roots(st.sessions) + SignIns(st, calls);
      }
    }
  }

  /** So from an empty table, as long as no write orphans a successor, every session belongs to the chain
      of exactly one session that a sign-in call opened, and no two live ones to the same. Atomic calls
      never orphan one. */
  lemma SignInCallOf(st: Store, calls: seq<FineCall>, i: nat) returns (root: nat)
    requires st.sessions == [] && NeverOrphans(st, calls) && i < |FineRun(st, calls).sessions|
    ensures Valid(FineRun(st, calls).sessions)
    ensures root in SignIns(st, calls) && LeadsTo(FineRun(st, calls).sessions, root, i)
    ensures forall other <- SignIns(st, calls) :: LeadsTo(FineRun(st, calls).sessions, other, i) ==> other == root
    ensures var later := FineRun(st, calls).sessions;
            Live(later[i]) ==> forall j: nat :: LeadsTo(later, root, j) && Live(later[j]) ==> j == i
  {
    hide FineStep, OpenedBy, Orphans;
    FineRunValid(st, calls);
    RootsAreSignInsIff(st, calls);
    var later := FineRun(st, calls).sessions;
    root := SignInOf(later, i);
    if Live(later[i]) {
      forall j: nat | LeadsTo(later, root, j) && Live(later[j]) ensures j == i {
        OneLivePerChain(later, root, j, i);
      }
    }
  }

  function Wholes(calls: seq<Call>): (fine: seq<FineCall>)
    ensures |fine| == |calls|
  {
    seq(|calls|, i requires 0 <= i < |calls| => Whole(calls[i]))
  }

  /** A run of atomic calls is one of these runs, and none of the provisos above can fail in it. */
  lemma {:induction false} AtomicRunsAreFine(st: Store, calls: seq<Call>)
    ensures FineRun(st, Wholes(calls)) == Run(st, calls)
    ensures WritesHitLive(st, Wholes(calls)) && NeverOrphans(st, Wholes(calls))
    decreases |calls|
  {
    hide Step;
    if calls != [] {
      AtomicRunsAreFine(Step(st, calls[0]), calls[1..]);
      assert Wholes(calls)[1..] == Wholes(calls[1..]) && Wholes(calls)[0] == Whole(calls[0]);
    }
  }

  /** A run in which it goes wrong: two requests read the session before either writes. One sign-in call,
      two live sessions; the first successor is left without a predecessor. */
  lemma InterleavedRotationsFork(userId: UserId, a: Token, b: Token, c: Token, now: Time)
    requires a != b && b != c && a != c
    ensures var st := Store(map[userId := User(true, false, true, None)], [Opened(userId, a, now + 1, now)], []);
            var later := FineRun(st, [WriteOf(0, b, now + 1, now), WriteOf(0, c, now + 1, now)]);
            && Valid(st.sessions) && Roots(st.sessions) == {0}
            && LiveSessions(later.sessions, userId) == {1, 2} && Roots(later.sessions) == {0, 1}
  {
    var st := Store(map[userId := User(true, false, true, None)], [Opened(userId, a, now + 1, now)], []);
    var w1, w2 := WriteOf(0, b, now + 1, now), WriteOf(0, c, now + 1, now);
    var st1 := FineStep(st, w1);
    var st2 := FineStep(st1, w2);
    assert TokensDistinct(st.sessions) && RowOk(st.sessions, 0);
    assert st1.sessions[1].token == b && st1.sessions[0].token == a && |st1.sessions| == 2;
    assert [w1, w2][1..] == [w2] && [w2][1..] == [];
    assert FineRun(st1, [w2]) == st2;
    assert |st2.sessions| == 3 && Live(st2.sessions[1]) && Live(st2.sessions[2]) && !Live(st2.sessions[0]);
    assert FineRun(st, [w1, w2]) == st2;
    assert st2.sessions[0].replacedById == Some(2) && st2.sessions[1].replacedById.None? && st2.sessions[2].replacedById.None?;
    assert IsSignIn(st2.sessions, 0) && IsSignIn(st2.sessions, 1) && !IsSignIn(st2.sessions, 2);
  }
}
