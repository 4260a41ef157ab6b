/** Whose record, sessions and links a call may touch, and what passwords, principals, idle time and
    reset links are worth over every run of the calls in `SessionRuns`. */
module SessionAccess {
  import opened Text
  import opened SessionTable
  import opened SessionRuns

  // ---------------------------------------------------------------------------
  // One user's calls leave everybody else alone
  // ---------------------------------------------------------------------------

  /** The call names this user, or one of the user's sessions or links. */
  ghost predicate Concerns(st: Store, call: Call, userId: UserId) {
    match call
    case SignIn(u, _, _, _) => u == userId
    case Refreshing(presented, _, _, _, _) =>
      exists i :: 0 <= i < |st.sessions| && st.sessions[i].token == presented && st.sessions[i].userId == userId
    case SigningOut(id, _) => id < |st.sessions| && st.sessions[id].userId == userId
    case SigningOutEverywhere(u, _) => u == userId
    case ChangingPassword(u, _, _, _) => u == userId
    case RequestingReset(u, _, _) => u == userId
    case ResettingPassword(token, _, _) =>
      exists i :: 0 <= i < |st.links| && st.links[i].token == token && st.links[i].userId == userId
    case ResettingMfa(u, _) => u == userId
    case Resolving(u, _, _) => u == userId
    case Administering(u, _) => u == userId
  }

  ghost predicate SameSessions(before: seq<Session>, after: seq<Session>, userId: UserId) {
    && |before| <= |after|
    && (forall i: nat :: i < |before| && before[i].userId == userId ==> after[i] == before[i])
    && (forall i: nat :: i < |after| && after[i].userId == userId ==> i < |before| && before[i] == after[i])
  }

  ghost predicate SameLinks(before: seq<ResetLink>, after: seq<ResetLink>, userId: UserId) {
    && |before| <= |after|
    && (forall i: nat :: i < |before| && before[i].userId == userId ==> after[i] == before[i])
    && (forall i: nat :: i < |after| && after[i].userId == userId ==> i < |before| && before[i] == after[i])
  }

  ghost predicate SameRecord(before: Store, after: Store, userId: UserId) {
    && (userId in before.users <==> userId in after.users)
    && (userId in before.users ==> after.users[userId] == before.users[userId])
  }

  ghost predicate LeftAlone(before: Store, after: Store, userId: UserId) {
    SameRecord(before, after, userId) && SameSessions(before.sessions, after.sessions, userId) && SameLinks(before.links, after.links, userId)
  }

  lemma RefreshLeavesOthers(st: Store, presented: Token, token: Token, expiresAt: Time, idleMs: Time, now: Time, userId: UserId)
    requires Valid(st.sessions) && !Concerns(st, Refreshing(presented, token, expiresAt, idleMs, now), userId)
    ensures var after := Refresh(st, presented, token, expiresAt, idleMs, now).0;
            after.users == st.users && after.links == st.links && SameSessions(st.sessions, after.sessions, userId)
  {
    hide Valid, Lookup, Walk, WalkLength, LeadsTo, TokenTaken;
    var found := Lookup(st.sessions, presented);
    if found.Some? {
      var s := st.sessions[found.value];
      assert s.userId != userId;
      if !Live(s) && RotatedRecently(s, now) && s.replacedById.Some? {
        RowsOk(st.sessions, found.value);
        ChainKeepsOwner(st.sessions, s.replacedById.value);
      }
    }
  }

  lemma ChainKeepsOwner(sessions: seq<Session>, id: nat)
    requires Valid(sessions) && id < |sessions|
    ensures var end := FollowRotationChain(sessions, id, ROTATION_CHAIN_MAX_HOPS);
            end.Some? ==> end.value < |sessions| && sessions[end.value].userId == sessions[id].userId
  {
    hide Valid;
    BoundedWalkIsWalk(sessions, id, ROTATION_CHAIN_MAX_HOPS);
    WalkFindsLiveEnd(sessions, id);
    var end := FollowRotationChain(sessions, id, ROTATION_CHAIN_MAX_HOPS);
    if end.Some? {
      LeadsToLater(sessions, id, end.value);
    }
  }

  lemma StepLeavesOthers(st: Store, call: Call, userId: UserId)
    requires Valid(st.sessions) && !Concerns(st, call, userId)
    ensures LeftAlone(st, Step(st, call), userId)
  {
    if call.Refreshing? {
      hide Refresh, Valid;
      RefreshLeavesOthers(st, call.presented, call.token, call.expiresAt, call.idleMs, call.now, userId);
    } else {
      hide Valid, Refresh;
    }
  }

  ghost predicate NeverConcerns(st: Store, calls: seq<Call>, userId: UserId)
    decreases |calls|
  {
    calls == [] || (!Concerns(st, calls[0], userId) && NeverConcerns(Step(st, calls[0]), calls[1..], userId))
  }

  /** Whatever other people do: this user's record, sessions and links stay exactly as they are, and
      no session or link of the user appears. */
  lemma {:induction false} OthersLeaveAlone(st: Store, calls: seq<Call>, userId: UserId)
    requires Valid(st.sessions) && NeverConcerns(st, calls, userId)
    ensures LeftAlone(st, Run(st, calls), userId)
    decreases |calls|
  {
    hide Step, Concerns, Valid;
    if calls != [] {
      StepLeavesOthers(st, calls[0], userId);
      StepKeeps(st, calls[0]);
      OthersLeaveAlone(Step(st, calls[0]), calls[1..], userId);
    }
  }

  // ---------------------------------------------------------------------------
  // Passwords
  // ---------------------------------------------------------------------------

  /** A change is accepted exactly for the current password of a user who is not deleted. From then on, until
      the user's record is written again, the new password and no other is taken as the current one. */
  lemma ChangedPasswordIsCurrent(st: Store, userId: UserId, current: string, new_: string, at: Time, calls: seq<Call>,
                                 newer: string, later: Time)
    ensures var (changed, ok) := ChangePassword(st, userId, current, new_, at);
            && (ok <==> userId in st.users && !st.users[userId].deleted && st.users[userId].password == Some(current))
            && (!ok ==> changed == st)
            && (ok ==> changed.users == st.users[userId := st.users[userId].(password := Some(new_))])
            && (ok && NeverWritesUser(changed, calls, userId) ==>
                  forall c: string :: ChangePassword(Run(changed, calls), userId, c, newer, later).1 <==> c == new_)
  {
    hide Run, RevokeAll;
    var (changed, ok) := ChangePassword(st, userId, current, new_, at);
    if ok && NeverWritesUser(changed, calls, userId) {
      RunKeepsUser(changed, calls, userId);
    }
  }

  // ---------------------------------------------------------------------------
  // Who resolves
  // ---------------------------------------------------------------------------

  /** As long as nobody writes the record of a suspended or deleted user, no session id acts for the user. */
  lemma BarredNeverResolves(st: Store, userId: UserId, calls: seq<Call>, id: nat, now: Time)
    requires userId in st.users && (!st.users[userId].active || st.users[userId].deleted)
    requires NeverWritesUser(st, calls, userId)
    ensures Resolve(Run(st, calls), userId, id, now) == (Run(st, calls), false)
  {
    hide Run;
    RunKeepsUser(st, calls, userId);
  }

  /** A session never acts from its expiry on, nor for anybody but its owner, whatever happens meanwhile. */
  lemma ExpiredNeverResolves(st: Store, id: nat, calls: seq<Call>, userId: UserId, now: Time)
    requires Valid(st.sessions) && id < |st.sessions|
    requires st.sessions[id].expiresAt <= now || st.sessions[id].userId != userId
    ensures Resolve(Run(st, calls), userId, id, now) == (Run(st, calls), false)
  {
    RunKeeps(st, calls);
    hide Run;
    assert RowKept(st.sessions[id], Run(st, calls).sessions[id]);
  }

  // ---------------------------------------------------------------------------
  // Idle time
  // ---------------------------------------------------------------------------

  /** The call shows activity on session `id` at time `seen`: it opened the session, by sign-in or by refresh,
      or it resolved it. */
  predicate Shows(st: Store, call: Call, id: nat, seen: Time) {
    match call
    case SignIn(u, token, expiresAt, now) => now == seen && CompleteSignIn(st, u, token, expiresAt, now).1 == Issued(id)
    case Refreshing(presented, token, expiresAt, idleMs, now) =>
      now == seen && Refresh(st, presented, token, expiresAt, idleMs, now).1 == Issued(id)
    case Resolving(u, session, now) => now == seen && session == id && Resolve(st, u, id, now).1
    case _ => false
  }

  predicate NeverTouches(calls: seq<Call>, id: nat) {
    forall k :: 0 <= k < |calls| && calls[k].Resolving? ==> calls[k].session != id
  }

  lemma StepKeepsSeen(st: Store, call: Call, id: nat)
    requires id < |st.sessions| && (call.Resolving? ==> call.session != id)
    ensures id < |Step(st, call).sessions| && Step(st, call).sessions[id].lastSeenAt == st.sessions[id].lastSeenAt
  {
    hide FollowRotationChain, Lookup, SpendLinks;
  }

  lemma {:induction false} RunKeepsSeen(st: Store, calls: seq<Call>, id: nat)
    requires id < |st.sessions| && NeverTouches(calls, id)
    ensures id < |Run(st, calls).sessions| && Run(st, calls).sessions[id].lastSeenAt == st.sessions[id].lastSeenAt
    decreases |calls|
  {
    hide Step;
    if calls != [] {
      StepKeepsSeen(st, calls[0], id);
      RunKeepsSeen(Step(st, calls[0]), calls[1..], id);
    }
  }

  lemma ShowingIsSeen(st: Store, call: Call, id: nat, seen: Time)
    requires Shows(st, call, id, seen)
    ensures id < |Step(st, call).sessions| && Step(st, call).sessions[id].lastSeenAt == seen
  {
    hide FollowRotationChain, Lookup;
  }

  /** Idleness counts from the last activity: with the session still live and unexpired and its user able to act,
      the refresh succeeds exactly within the idle limit; beyond it, it ends the session. */
  lemma IdleSinceActivity(st: Store, call: Call, id: nat, seen: Time, calls: seq<Call>,
                          token: Token, expiresAt: Time, idleMs: Time, now: Time)
    requires Valid(st.sessions) && Shows(st, call, id, seen) && NeverTouches(calls, id)
    ensures var later := Run(Step(st, call), calls);
            && id < |later.sessions|
            && (Live(later.sessions[id]) && later.sessions[id].expiresAt >= now && MayAct(later, later.sessions[id].userId)
                && !TokenTaken(later.sessions, token) ==>
                  var (after, outcome) := Refresh(later, later.sessions[id].token, token, expiresAt, idleMs, now);
                  && (outcome.Issued? <==> now - seen <= idleMs)
                  && (outcome.Denied? ==> after == later.(sessions := later.sessions[id := after.sessions[id]])
                                          && after.sessions[id].revokedAt == Some(now) && after.sessions[id].revokedReason == Some(IdleTimeout)))
  {
    var first := Step(st, call);
    StepKeeps(st, call);
    ShowingIsSeen(st, call, id, seen);
    RunKeepsSeen(first, calls, id);
    RunKeeps(first, calls);
    var later := Run(first, calls);
    hide Step, Run, Valid, Lookup;
    TokenFindsIts(later.sessions, id);
  }

  // ---------------------------------------------------------------------------
  // What a call writes into the session table
  // ---------------------------------------------------------------------------

  /** A sign-in succeeds for every known user whose drawn token is new, and adds one fresh session. */
  lemma SignInIff(st: Store, userId: UserId, token: Token, expiresAt: Time, now: Time)
    ensures var (after, outcome) := CompleteSignIn(st, userId, token, expiresAt, now);
            && (outcome.Issued? <==> userId in st.users && forall i :: 0 <= i < |st.sessions| ==> st.sessions[i].token != token)
            && (outcome.Denied? ==> after == st)
            && (outcome.Issued? ==>
                  && outcome.session == |st.sessions|
                  && after == st.(sessions := st.sessions + [Session(userId, token, expiresAt, None, None, now, None)]))
  {
  }

  /** Tokens come with one fresh session of the presented token's owner; one live session of the owner is retired
      and names it, and no other row, record or link changes. */
  lemma IssuedSession(st: Store, id: nat, token: Token, expiresAt: Time, idleMs: Time, now: Time)
    returns (end: nat)
    requires Valid(st.sessions) && id < |st.sessions|
    requires Refresh(st, st.sessions[id].token, token, expiresAt, idleMs, now).1.Issued?
    ensures var (after, outcome) := Refresh(st, st.sessions[id].token, token, expiresAt, idleMs, now);
            var n := |st.sessions|;
            && outcome == Issued(n) && after.users == st.users && after.links == st.links
            && end < n && LeadsTo(st.sessions, id, end) && Live(st.sessions[end])
            && |after.sessions| == n + 1
            && after.sessions[n] == Session(st.sessions[id].userId, token, expiresAt, None, None, now, None)
            && after.sessions[end] == st.sessions[end].(revokedAt := Some(now), revokedReason := Some(Rotated), replacedById := Some(n))
            && forall i: nat :: i < n && i != end ==> after.sessions[i] == st.sessions[i]
  {
    hide Valid, Lookup, Walk, WalkLength;
    TokenFindsIts(st.sessions, id);
    end := id;
    if !Live(st.sessions[id]) {
      var next := st.sessions[id].replacedById.value;
      RowsOk(st.sessions, id);
      BoundedWalkIsWalk(st.sessions, next, ROTATION_CHAIN_MAX_HOPS);
      WalkFindsLiveEnd(st.sessions, next);
      end := Walk(st.sessions, next).value;
      LeadsToLater(st.sessions, id, end);
    }
  }

  lemma RowsOk(sessions: seq<Session>, id: nat)
    requires Valid(sessions) && id < |sessions|
    ensures RowOk(sessions, id)
  {
  }

  /** A token nobody holds gets nothing and changes nothing. */
  lemma UnknownTokenDenied(st: Store, presented: Token, token: Token, expiresAt: Time, idleMs: Time, now: Time)
    requires forall i :: 0 <= i < |st.sessions| ==> st.sessions[i].token != presented
    ensures Refresh(st, presented, token, expiresAt, idleMs, now) == (st, Denied)
  {
  }

  /** The reason a call may leave on a session it ends. */
  predicate Explains(call: Call, reason: Option<Reason>) {
    match call
    case Refreshing(_, _, _, _, _) => reason == Some(Rotated) || reason == Some(IdleTimeout) || reason == Some(TokenReuseDetected)
    case SigningOut(_, _) => reason == Some(UserLogout)
    case SigningOutEverywhere(_, _) => reason == Some(UserLogoutAll)
    case ChangingPassword(_, _, _, _) => reason == Some(PasswordChanged)
    case ResettingPassword(_, _, _) => reason == Some(PasswordReset)
    case ResettingMfa(_, _) => reason == None
    case _ => false
  }

  /** A call either ends a session, marking it with its own time and reason, or touches it, or leaves it. */
  lemma EndedRowsSayWhy(st: Store, call: Call, i: nat)
    requires Valid(st.sessions) && i < |st.sessions|
    ensures var before := st.sessions[i];
            i < |Step(st, call).sessions|
            && var after := Step(st, call).sessions[i];
               || after == before
               || (call.Resolving? && call.session == i && after == before.(lastSeenAt := call.now))
               || (&& Live(before) && !call.Administering? && Explains(call, after.revokedReason)
                   && after.revokedAt == Some(call.now)
                   && after == before.(revokedAt := after.revokedAt, revokedReason := after.revokedReason, replacedById := after.replacedById)
                   && (after.replacedById.Some? ==> after.revokedReason == Some(Rotated)))
  {
    hide Valid, FollowRotationChain, Lookup, SpendLinks;
    RowsOk(st.sessions, i);
  }

  /** Signing out everywhere, or losing the second factor to an administrator, makes every earlier session and
      token of the user worthless in every continuation. */
  lemma SignedOutEverywhereForGood(st: Store, call: Call, userId: UserId, calls: seq<Call>, id: nat,
                                   token: Token, expiresAt: Time, idleMs: Time, now: Time)
    requires Valid(st.sessions) && id < |st.sessions| && st.sessions[id].userId == userId
    requires (call.SigningOutEverywhere? || (call.ResettingMfa? && userId in st.users && !st.users[userId].deleted)) && call.userId == userId
    ensures var later := Run(Step(st, call), calls);
            && Refresh(later, st.sessions[id].token, token, expiresAt, idleMs, now).1 == Denied
            && !Resolve(later, userId, id, now).1
  {
    var reason := if call.SigningOutEverywhere? then Some(UserLogoutAll) else None;
    var after := Step(st, call);
    StepKeeps(st, call);
    RevokeAllCutsOff(st.sessions, userId, reason, call.now);
    CutOffForGood(after, userId, |st.sessions|, calls, id, token, expiresAt, idleMs, now);
    assert RowKept(st.sessions[id], after.sessions[id]);
  }

  // ---------------------------------------------------------------------------
  // Reset links
  // ---------------------------------------------------------------------------

  /** A link requested at `at` resets, after any run, exactly if it is unused, thirty minutes have not passed and
      the user may act; a text that is no link's token never does. */
  lemma LinkWorksIff(st: Store, userId: UserId, link: Token, at: Time, calls: seq<Call>, new_: string, now: Time)
    requires Valid(st.sessions) && LinksDistinct(st.links) && MayAct(st, userId) && st.users[userId].hasEmail
    requires RecentLinks(st.links, userId, at) < 5 && LinkLookup(st.links, link).None?
    ensures var later := Run(RequestPasswordReset(st, userId, link, at), calls);
            var (after, ok) := ResetPassword(later, link, new_, now);
            && |st.links| < |later.links|
            && (ok <==> later.links[|st.links|].usedAt.None? && now <= at + 1_800_000 && MayAct(later, userId))
            && (!ok ==> after == later)
  {
    var requested := RequestPasswordReset(st, userId, link, at);
    var n := |st.links|;
    assert requested.links[n] == ResetLink(userId, link, at, at + 1_800_000, None);
    RunKeepsLinksDistinct(requested, calls);
    RunKeeps(requested, calls);
    var later := Run(requested, calls);
    hide Run;
    var found := LinkLookup(later.links, link);
    assert found == Some(n) by { assert later.links[n].token == link; }
  }

  /** What a reset writes: the password, a mark with its own time on every unused link of the user, and the end of every
      live session of the user. */
  lemma ResetWrites(st: Store, link: Token, new_: string, now: Time)
    requires ResetPassword(st, link, new_, now).1
    ensures var after := ResetPassword(st, link, new_, now).0;
            var userId := st.links[LinkLookup(st.links, link).value].userId;
            && after.users == st.users[userId := st.users[userId].(password := Some(new_))]
            && |after.links| == |st.links| && |after.sessions| == |st.sessions|
            && (forall i :: 0 <= i < |st.links| ==>
                  after.links[i] == if st.links[i].userId == userId && st.links[i].usedAt == None then st.links[i].(usedAt := Some(now)) else st.links[i])
            && forall i :: 0 <= i < |st.sessions| ==>
                 after.sessions[i] == if st.sessions[i].userId == userId && st.sessions[i].revokedAt == None
                                      then st.sessions[i].(revokedAt := Some(now), revokedReason := Some(PasswordReset)) else st.sessions[i]
  {
  }

  /** Links are used by resets alone, and come from requests alone. */
  lemma LinksChangeOnlyBy(st: Store, call: Call)
    ensures !call.ResettingPassword? && !call.RequestingReset? ==> Step(st, call).links == st.links
    ensures call.RequestingReset? ==> st.links <= Step(st, call).links
  {
    hide Refresh;
    if call.Refreshing? { RefreshKeepsLinks(st, call); }
  }

  lemma RefreshKeepsLinks(st: Store, call: Call)
    requires call.Refreshing?
    ensures Step(st, call).links == st.links
  {
  }

  /** The user's links of the last hour, and any dated later. */
  ghost function LastHour(links: seq<ResetLink>, userId: UserId, now: Time): set<nat> {
    set i: nat | i < |links| && links[i].userId == userId && links[i].createdAt >= now - 3_600_000
  }

  lemma {:induction false} RecentIsSize(links: seq<ResetLink>, userId: UserId, now: Time)
    ensures RecentLinks(links, userId, now) == |LastHour(links, userId, now)|
    decreases |links|
  {
    if links == [] {
      assert LastHour(links, userId, now) == {};
    } else {
      var n: nat := |links| - 1;
      assert links == links[..n] + [links[n]];
      RecentSnoc(links[..n], links[n], userId, now);
      RecentIsSize(links[..n], userId, now);
      assert LastHour(links, userId, now)
          == LastHour(links[..n], userId, now) + if links[n].userId == userId && links[n].createdAt >= now - 3_600_000 then {n} else {};
    }
  }

  /** A request sends a link, good for thirty minutes, exactly to a user who may act, has an e-mail address and was sent
      fewer than five in the last hour; otherwise it changes nothing. The token drawn is new. */
  lemma RequestIff(st: Store, userId: UserId, token: Token, now: Time)
    requires forall i :: 0 <= i < |st.links| ==> st.links[i].token != token
    ensures RequestPasswordReset(st, userId, token, now) == (
              if && userId in st.users && st.users[userId].active && !st.users[userId].deleted && st.users[userId].hasEmail
                 && |LastHour(st.links, userId, now)| < 5
              then st.(links := st.links + [ResetLink(userId, token, now, now + 1_800_000, None)])
              else st)
  {
    hide LastHour, RecentLinks;
    RecentIsSize(st.links, userId, now);
  }

  /** How many of the user's links were made within the hour from `from` on. */
  function MadeWithin(links: seq<ResetLink>, userId: UserId, from: Time): nat {
    if links == [] then 0
    else
      var last := links[|links| - 1];
      MadeWithin(links[..|links| - 1], userId, from) + (if last.userId == userId && from <= last.createdAt <= from + 3_600_000 then 1 else 0)
  }

  ghost predicate Paced(links: seq<ResetLink>) {
    forall userId: UserId, from: Time :: MadeWithin(links, userId, from) <= 5
  }

  lemma {:induction false} RecentSnoc(links: seq<ResetLink>, last: ResetLink, userId: UserId, now: Time)
    ensures RecentLinks(links + [last], userId, now)
         == RecentLinks(links, userId, now) + (if last.userId == userId && last.createdAt >= now - 3_600_000 then 1 else 0)
    decreases |links|
  {
    if links == [] {
      assert ([] + [last])[1..] == [];
    } else {
      assert (links + [last])[1..] == links[1..] + [last];
      RecentSnoc(links[1..], last, userId, now);
    }
  }

  /** What a request counts includes every earlier link of an hour that ends no earlier than it does. */
  lemma {:induction false} WithinAreRecent(links: seq<ResetLink>, userId: UserId, from: Time, now: Time)
    requires now - 3_600_000 <= from
    ensures MadeWithin(links, userId, from) <= RecentLinks(links, userId, now)
    decreases |links|
  {
    if links != [] {
      var front, last := links[..|links| - 1], links[|links| - 1];
      assert links == front + [last];
      RecentSnoc(front, last, userId, now);
      WithinAreRecent(front, userId, from, now);
    }
  }

  lemma {:induction false} SpendingKeepsTimes(before: seq<ResetLink>, after: seq<ResetLink>, userId: UserId, from: Time)
    requires |after| == |before| && LinksKept(before, after)
    ensures MadeWithin(after, userId, from) == MadeWithin(before, userId, from)
    decreases |before|
  {
    if before != [] {
      var n: nat := |before| - 1;
      assert after[n] == before[n].(usedAt := after[n].usedAt);
      SpendingKeepsTimes(before[..n], after[..n], userId, from);
    }
  }

  lemma StepKeepsPaced(st: Store, call: Call)
    requires Paced(st.links)
    ensures Paced(Step(st, call).links)
  {
    hide Step, RequestPasswordReset, MadeWithin;
    var after := Step(st, call).links;
    StepKeepsLinks(st, call);
    forall userId: UserId, from: Time ensures MadeWithin(after, userId, from) <= 5 {
      assert MadeWithin(st.links, userId, from) <= 5;
      if call.RequestingReset? {
        RequestKeepsPaced(st, call.userId, call.token, call.now, userId, from);
      } else {
        LengthKept(st, call);
        SpendingKeepsTimes(st.links, after, userId, from);
      }
    }
  }

  lemma LengthKept(st: Store, call: Call)
    requires !call.RequestingReset?
    ensures |Step(st, call).links| == |st.links|
  {
    if !call.ResettingPassword? {
      LinksChangeOnlyBy(st, call);
    }
  }

  lemma RequestKeepsPaced(st: Store, requester: UserId, token: Token, now: Time, userId: UserId, from: Time)
    requires MadeWithin(st.links, userId, from) <= 5
    ensures Step(st, RequestingReset(requester, token, now)) == RequestPasswordReset(st, requester, token, now)
    ensures MadeWithin(RequestPasswordReset(st, requester, token, now).links, userId, from) <= 5
  {
    var after := RequestPasswordReset(st, requester, token, now).links;
    if after != st.links {
      assert after[..|after| - 1] == st.links;
      if requester == userId && from <= now <= from + 3_600_000 {
        WithinAreRecent(st.links, userId, from, now);
      }
    }
  }

  /** Over every run, and with clocks that need not be in order, nobody is ever sent more than five links within
      one hour. */
  lemma {:induction false} AtMostFivePerHour(st: Store, calls: seq<Call>)
    requires Paced(st.links)
    ensures Paced(Run(st, calls).links)
    decreases |calls|
  {
    hide Step, Paced;
    if calls != [] {
      StepKeepsPaced(st, calls[0]);
      AtMostFivePerHour(Step(st, calls[0]), calls[1..]);
    }
  }
}
