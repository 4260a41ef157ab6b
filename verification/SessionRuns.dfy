/** What holds over every run of the endpoints in `SessionTable`: rotation chains, the cut that a new
    password makes, and what presenting a superseded token leads to. The clock and the idle limit are
    arbitrary in every step. */
module SessionRuns {
  import opened Text
  import opened SessionTable

  /** One endpoint call, or a change by user administration. */
  datatype Call =
    | SignIn(userId: UserId, token: Token, expiresAt: Time, now: Time)
    | Refreshing(presented: Token, token: Token, expiresAt: Time, idleMs: Time, now: Time)
    | SigningOut(session: nat, now: Time)
    | SigningOutEverywhere(userId: UserId, now: Time)
    | ChangingPassword(userId: UserId, current: string, new_: string, now: Time)
    | RequestingReset(userId: UserId, token: Token, now: Time)
    | ResettingPassword(token: Token, new_: string, now: Time)
    | ResettingMfa(userId: UserId, now: Time)
    | Resolving(userId: UserId, session: nat, now: Time)
    | Administering(userId: UserId, user: User)

  function Step(st: Store, call: Call): Store {
    match call
    case SignIn(u, token, expiresAt, now) => CompleteSignIn(st, u, token, expiresAt, now).0
    case Refreshing(presented, token, expiresAt, idleMs, now) => Refresh(st, presented, token, expiresAt, idleMs, now).0
    case SigningOut(id, now) => Logout(st, id, now)
    case SigningOutEverywhere(u, now) => LogoutEverywhere(st, u, now)
    case ChangingPassword(u, current, new_, now) => ChangePassword(st, u, current, new_, now).0
    case RequestingReset(u, token, now) => RequestPasswordReset(st, u, token, now)
    case ResettingPassword(token, new_, now) => ResetPassword(st, token, new_, now).0
    case ResettingMfa(u, now) => ResetMfa(st, u, now)
    case Resolving(u, id, now) => Resolve(st, u, id, now).0
    case Administering(u, user) => st.(users := st.users[u := user])
  }

  function Run(st: Store, calls: seq<Call>): Store
    decreases |calls|
  {
    if calls == [] then st else Run(Step(st, calls[0]), calls[1..])
  }

  // ---------------------------------------------------------------------------
  // The invariant
  // ---------------------------------------------------------------------------

  ghost predicate TokensDistinct(sessions: seq<Session>) {
    forall i, j :: 0 <= i < j < |sessions| ==> sessions[i].token != sessions[j].token
  }

  /** A live session has no mark on it; a rotated one names a later session of the same user. */
  ghost predicate RowOk(sessions: seq<Session>, i: nat)
    requires i < |sessions|
  {
    var s := sessions[i];
    && (Live(s) ==> s.revokedReason.None? && s.replacedById.None?)
    && (s.replacedById.Some? <==> s.revokedReason == Some(Rotated))
    && (s.replacedById.Some? ==>
          i < s.replacedById.value < |sessions| && sessions[s.replacedById.value].userId == s.userId)
  }

  ghost predicate NeverBranches(sessions: seq<Session>) {
    forall i, j :: 0 <= i < j < |sessions| && sessions[i].replacedById.Some? ==>
      sessions[i].replacedById != sessions[j].replacedById
  }

  ghost predicate Valid(sessions: seq<Session>) {
    && TokensDistinct(sessions)
    && NeverBranches(sessions)
    && forall i: nat :: i < |sessions| ==> RowOk(sessions, i)
  }

  /** What no call may undo: sessions are never dropped or re-issued, and a revoked one stays as it
      is, up to the time it was last seen. */
  ghost predicate RowKept(before: Session, after: Session) {
    && after.userId == before.userId && after.token == before.token && after.expiresAt == before.expiresAt
    && (!Live(before) ==> after == before.(lastSeenAt := after.lastSeenAt))
  }

  ghost predicate Kept(before: seq<Session>, after: seq<Session>) {
    |before| <= |after| && forall i: nat :: i < |before| ==> RowKept(before[i], after[i])
  }

  ghost predicate LinksKept(before: seq<ResetLink>, after: seq<ResetLink>) {
    |before| <= |after| && forall i: nat :: i < |before| ==>
      && after[i] == before[i].(usedAt := after[i].usedAt)
      && (before[i].usedAt.Some? ==> after[i] == before[i])
  }

  /** Every write to existing rows other than a rotation: some live rows are revoked for a reason
      that is not a rotation, some rows are touched. */
  ghost predicate Marks(before: seq<Session>, after: seq<Session>) {
    && |after| == |before|
    && forall i: nat :: i < |before| ==>
      || after[i] == before[i].(lastSeenAt := after[i].lastSeenAt)
      || (Live(before[i]) && !Live(after[i]) && after[i].revokedReason != Some(Rotated)
          && after[i] == before[i].(revokedAt := after[i].revokedAt, revokedReason := after[i].revokedReason))
  }

  lemma MarksKeepValid(before: seq<Session>, after: seq<Session>)
    requires Valid(before) && Marks(before, after)
    ensures Valid(after) && Kept(before, after)
  {
    forall i: nat | i < |after| ensures RowOk(after, i) {
      assert RowOk(before, i);
    }
    forall i, j | 0 <= i < j < |after| && after[i].replacedById.Some?
      ensures after[i].replacedById != after[j].replacedById
    {
      assert before[i].replacedById == after[i].replacedById && before[j].replacedById == after[j].replacedById;
    }
  }

  lemma OpeningKeepsValid(before: seq<Session>, userId: UserId, token: Token, expiresAt: Time, now: Time)
    requires Valid(before) && !TokenTaken(before, token)
    ensures var after := before + [Opened(userId, token, expiresAt, now)];
            Valid(after) && Kept(before, after)
  {
    var after := before + [Opened(userId, token, expiresAt, now)];
    forall i: nat | i < |after| ensures RowOk(after, i) {
      if i < |before| { assert RowOk(before, i); }
    }
  }

  /** The two writes of a rotation keep the invariant whatever the state of the row they retire. */
  lemma WritesKeepValid(before: seq<Session>, id: nat, token: Token, expiresAt: Time, now: Time)
    requires Valid(before) && id < |before| && !TokenTaken(before, token)
    ensures Valid(RotateWrites(before, id, token, expiresAt, now))
  {
    var after := RotateWrites(before, id, token, expiresAt, now);
    forall i: nat | i < |after| ensures RowOk(after, i) {
      if i < |before| { assert RowOk(before, i); }
    }
    forall i, j | 0 <= i < j < |after| && after[i].replacedById.Some?
      ensures after[i].replacedById != after[j].replacedById
    {
      assert RowOk(after, i) && RowOk(after, j);
      if j < |before| {
        assert RowOk(before, i) && RowOk(before, j);
      }
    }
  }

  lemma RotationKeepsValid(before: seq<Session>, id: nat, token: Token, expiresAt: Time, now: Time)
    requires Valid(before) && id < |before| && Live(before[id]) && !TokenTaken(before, token)
    ensures var after := RotateWrites(before, id, token, expiresAt, now);
            Valid(after) && Kept(before, after)
  {
    WritesKeepValid(before, id, token, expiresAt, now);
  }

  /** Every call either marks existing rows, opens one session or rotates one live session. */
  ghost predicate Opens(before: seq<Session>, after: seq<Session>) {
    |after| == |before| + 1 && after[..|before|] == before && !TokenTaken(before, after[|before|].token)
    && after[|before|] == Opened(after[|before|].userId, after[|before|].token, after[|before|].expiresAt, after[|before|].lastSeenAt)
  }

  ghost predicate Rotates(before: seq<Session>, after: seq<Session>, id: nat, token: Token, expiresAt: Time, now: Time) {
    id < |before| && Live(before[id]) && !TokenTaken(before, token) && after == RotateWrites(before, id, token, expiresAt, now)
  }

  lemma StepShape(st: Store, call: Call)
    ensures var after := Step(st, call).sessions;
            || Marks(st.sessions, after)
            || (call.SignIn? && Opens(st.sessions, after))
            || (call.Refreshing? && exists id: nat :: Rotates(st.sessions, after, id, call.token, call.expiresAt, call.now))
  {
    var after := Step(st, call).sessions;
    if call.Refreshing? && !Marks(st.sessions, after) {
      var found := Lookup(st.sessions, call.presented).value;
      var s := st.sessions[found];
      var id := if Live(s) then found
                else FollowRotationChain(st.sessions, s.replacedById.value, ROTATION_CHAIN_MAX_HOPS).value;
      assert Rotates(st.sessions, after, id, call.token, call.expiresAt, call.now);
    }
  }

  lemma StepKeepsLinks(st: Store, call: Call)
    ensures LinksKept(st.links, Step(st, call).links)
  {
  }

  lemma StepKeeps(st: Store, call: Call)
    requires Valid(st.sessions)
    ensures var st' := Step(st, call);
            Valid(st'.sessions) && Kept(st.sessions, st'.sessions) && LinksKept(st.links, st'.links)
  {
    hide Step, Valid, RotateWrites;
    StepKeepsLinks(st, call);
    StepShape(st, call);
    var before, after := st.sessions, Step(st, call).sessions;
    if Marks(before, after) {
      MarksKeepValid(before, after);
    } else if Opens(before, after) {
      var row := after[|before|];
      OpeningKeepsValid(before, row.userId, row.token, row.expiresAt, row.lastSeenAt);
      assert after == before + [Opened(row.userId, row.token, row.expiresAt, row.lastSeenAt)];
    } else {
      var id: nat :| Rotates(before, after, id, call.token, call.expiresAt, call.now);
      RotationKeepsValid(before, id, call.token, call.expiresAt, call.now);
    }
  }

  lemma {:induction false} RunKeeps(st: Store, calls: seq<Call>)
    requires Valid(st.sessions)
    ensures var st' := Run(st, calls);
            Valid(st'.sessions) && Kept(st.sessions, st'.sessions) && LinksKept(st.links, st'.links)
    decreases |calls|
  {
    if calls != [] {
      StepKeeps(st, calls[0]);
      var mid := Step(st, calls[0]);
      RunKeeps(mid, calls[1..]);
      KeptTransitive(st.sessions, mid.sessions, Run(st, calls).sessions);
    }
  }

  lemma KeptTransitive(a: seq<Session>, b: seq<Session>, c: seq<Session>)
    requires Kept(a, b) && Kept(b, c)
    ensures Kept(a, c)
  {
    forall i: nat | i < |a| ensures RowKept(a[i], c[i]) {
      assert RowKept(a[i], b[i]) && RowKept(b[i], c[i]);
    }
  }

  // ---------------------------------------------------------------------------
  // Rotation chains
  // ---------------------------------------------------------------------------

  /** `to` is reached from `from` by following `replacedById` zero or more times. */
  ghost predicate LeadsTo(sessions: seq<Session>, from: nat, to: nat)
    requires Valid(sessions)
    decreases |sessions| - from
  {
    && from < |sessions| && to < |sessions|
    && (from == to || (RowOk(sessions, from) && sessions[from].replacedById.Some?
                       && LeadsTo(sessions, sessions[from].replacedById.value, to)))
  }

  lemma {:induction false} LeadsToLater(sessions: seq<Session>, from: nat, to: nat)
    requires Valid(sessions) && LeadsTo(sessions, from, to)
    ensures from <= to < |sessions| && sessions[from].userId == sessions[to].userId
    ensures from < to ==> !Live(sessions[from]) && sessions[from].revokedReason == Some(Rotated)
    decreases |sessions| - from
  {
    if from != to {
      LeadsToLater(sessions, sessions[from].replacedById.value, to);
    }
  }

  /** A sign-in's chain has at most one session that is not revoked, and it is where the chain ends. */
  lemma {:induction false} OneLivePerChain(sessions: seq<Session>, root: nat, a: nat, b: nat)
    requires Valid(sessions) && LeadsTo(sessions, root, a) && LeadsTo(sessions, root, b)
    requires Live(sessions[a]) && Live(sessions[b])
    ensures a == b
    decreases |sessions| - root
  {
    assert RowOk(sessions, root) && RowOk(sessions, a) && RowOk(sessions, b);
    if root != a && root != b {
      OneLivePerChain(sessions, sessions[root].replacedById.value, a, b);
    }
  }

  /** Two chains that meet are one chain: no session has two predecessors. */
  lemma {:induction false} ChainsNeverMeet(sessions: seq<Session>, a: nat, b: nat, meeting: nat)
    requires Valid(sessions) && LeadsTo(sessions, a, meeting) && LeadsTo(sessions, b, meeting)
    ensures LeadsTo(sessions, a, b) || LeadsTo(sessions, b, a)
    decreases meeting - a + (meeting - b), |sessions|
  {
    LeadsToLater(sessions, a, meeting);
    LeadsToLater(sessions, b, meeting);
    if a != meeting && b != meeting {
      var p := LastBefore(sessions, a, meeting);
      var q := LastBefore(sessions, b, meeting);
      LeadsToLater(sessions, a, p);
      LeadsToLater(sessions, b, q);
      OnePredecessor(sessions, p, q);
      ChainsNeverMeet(sessions, a, b, p);
    }
  }

  lemma OnePredecessor(sessions: seq<Session>, p: nat, q: nat)
    requires NeverBranches(sessions) && p < |sessions| && q < |sessions|
    requires sessions[p].replacedById.Some? && sessions[p].replacedById == sessions[q].replacedById
    ensures p == q
  {
  }

  lemma {:induction false} LastBefore(sessions: seq<Session>, from: nat, to: nat) returns (last: nat)
    requires Valid(sessions) && LeadsTo(sessions, from, to) && from != to
    ensures LeadsTo(sessions, from, last) && last < to && sessions[last].replacedById == Some(to)
    decreases |sessions| - from
  {
    var next := sessions[from].replacedById.value;
    if next == to {
      assert RowOk(sessions, from);
      return from;
    }
    last := LastBefore(sessions, next, to);
  }

  /** Every session is in the chain of exactly one session that replaced nothing: a sign-in. */
  ghost predicate IsSignIn(sessions: seq<Session>, i: nat) {
    i < |sessions| && forall k: nat :: k < |sessions| ==> sessions[k].replacedById != Some(i)
  }

  lemma {:induction false} SignInOf(sessions: seq<Session>, i: nat) returns (root: nat)
    requires Valid(sessions) && i < |sessions|
    ensures IsSignIn(sessions, root) && LeadsTo(sessions, root, i)
    ensures forall other: nat :: IsSignIn(sessions, other) && LeadsTo(sessions, other, i) ==> other == root
    decreases i
  {
    if IsSignIn(sessions, i) {
      root := i;
    } else {
      var k: nat :| k < |sessions| && sessions[k].replacedById == Some(i);
      assert RowOk(sessions, k);
      root := SignInOf(sessions, k);
      LeadsToStep(sessions, root, k, i);
    }
    forall other: nat | IsSignIn(sessions, other) && LeadsTo(sessions, other, i)
      ensures other == root
    {
      ChainsNeverMeet(sessions, other, root, i);
      if other != root {
        if LeadsTo(sessions, other, root) {
          var p := LastBefore(sessions, other, root);
        } else {
          var p := LastBefore(sessions, root, other);
        }
      }
    }
  }

  lemma {:induction false} LeadsToStep(sessions: seq<Session>, from: nat, mid: nat, to: nat)
    requires Valid(sessions) && LeadsTo(sessions, from, mid) && sessions[mid].replacedById == Some(to)
    ensures LeadsTo(sessions, from, to)
    decreases |sessions| - from
  {
    assert RowOk(sessions, from);
    LeadsToLater(sessions, from, mid);
    if from != mid {
      LeadsToStep(sessions, sessions[from].replacedById.value, mid, to);
    } else {
      assert LeadsTo(sessions, to, to);
    }
  }

  // ---------------------------------------------------------------------------
  // The bounded walk and the unbounded one
  // ---------------------------------------------------------------------------

  /** The walk without a bound, which the invariant makes terminate: the live end, if there is one. */
  function Walk(sessions: seq<Session>, id: nat): Option<nat>
    requires Valid(sessions) && id < |sessions|
    decreases |sessions| - id
  {
    if Live(sessions[id]) then Some(id)
    else if sessions[id].replacedById.None? then None
    else assert RowOk(sessions, id); Walk(sessions, sessions[id].replacedById.value)
  }

  /** How many rows the walk reads. */
  function WalkLength(sessions: seq<Session>, id: nat): nat
    requires Valid(sessions) && id < |sessions|
    decreases |sessions| - id
  {
    if Live(sessions[id]) || sessions[id].replacedById.None? then 1
    else assert RowOk(sessions, id); 1 + WalkLength(sessions, sessions[id].replacedById.value)
  }

  lemma {:induction false} WalkFindsLiveEnd(sessions: seq<Session>, id: nat)
    requires Valid(sessions) && id < |sessions|
    ensures Walk(sessions, id).Some? ==>
              LeadsTo(sessions, id, Walk(sessions, id).value) && Live(sessions[Walk(sessions, id).value])
    ensures Walk(sessions, id).None? ==> forall k: nat :: LeadsTo(sessions, id, k) ==> !Live(sessions[k])
    decreases |sessions| - id
  {
    if !Live(sessions[id]) && sessions[id].replacedById.Some? {
      assert RowOk(sessions, id);
      WalkFindsLiveEnd(sessions, sessions[id].replacedById.value);
    }
  }

  /** The bounded walk is the unbounded one when the end is within the bound, and nothing otherwise. */
  lemma {:induction false} BoundedWalkIsWalk(sessions: seq<Session>, id: nat, hops: nat)
    requires Valid(sessions) && id < |sessions|
    ensures FollowRotationChain(sessions, id, hops)
         == if WalkLength(sessions, id) <= hops then Walk(sessions, id) else None
    decreases hops
  {
    if hops > 0 && !Live(sessions[id]) && sessions[id].replacedById.Some? {
      assert RowOk(sessions, id);
      BoundedWalkIsWalk(sessions, sessions[id].replacedById.value, hops - 1);
    }
  }

  // ---------------------------------------------------------------------------
  // A new password cuts everything older off
  // ---------------------------------------------------------------------------

  /** All of the user's first `n` sessions are revoked, and their chains stay among the first `n`. */
  ghost predicate CutOff(sessions: seq<Session>, userId: UserId, n: nat) {
    && n <= |sessions|
    && forall i: nat :: i < n && sessions[i].userId == userId ==>
      !Live(sessions[i]) && (sessions[i].replacedById.Some? ==> sessions[i].replacedById.value < n)
  }

  lemma RevokeAllCutsOff(sessions: seq<Session>, userId: UserId, reason: Option<Reason>, now: Time)
    requires Valid(sessions)
    ensures CutOff(RevokeAll(sessions, userId, reason, now), userId, |sessions|)
  {
    var after := RevokeAll(sessions, userId, reason, now);
    forall i: nat | i < |sessions| && after[i].userId == userId
      ensures !Live(after[i]) && (after[i].replacedById.Some? ==> after[i].replacedById.value < |sessions|)
    {
      assert RowOk(sessions, i);
    }
  }

  lemma CutOffKept(before: seq<Session>, after: seq<Session>, userId: UserId, n: nat)
    requires CutOff(before, userId, n) && Kept(before, after)
    ensures CutOff(after, userId, n)
  {
    forall i: nat | i < n && after[i].userId == userId
      ensures !Live(after[i]) && (after[i].replacedById.Some? ==> after[i].replacedById.value < n)
    {
      assert RowKept(before[i], after[i]);
    }
  }

  lemma {:induction false} CutOffWalkFails(sessions: seq<Session>, userId: UserId, n: nat, id: nat, hops: nat)
    requires Valid(sessions) && CutOff(sessions, userId, n) && id < n && sessions[id].userId == userId
    ensures FollowRotationChain(sessions, id, hops).None?
    decreases hops
  {
    if hops > 0 && sessions[id].replacedById.Some? {
      assert RowOk(sessions, id);
      CutOffWalkFails(sessions, userId, n, sessions[id].replacedById.value, hops - 1);
    }
  }

  lemma LookupUnique(sessions: seq<Session>, id: nat)
    requires TokensDistinct(sessions) && id < |sessions|
    ensures Lookup(sessions, sessions[id].token) == Some(id)
  {
    var found := Lookup(sessions, sessions[id].token).value;
    if found < id || id < found {
      assert sessions[found].token == sessions[id].token;
    }
  }

  /** A token of a cut-off session gets nothing, whenever it is presented. */
  lemma CutOffTokenDenied(st: Store, userId: UserId, n: nat, id: nat,
                          token: Token, expiresAt: Time, idleMs: Time, now: Time)
    requires Valid(st.sessions) && CutOff(st.sessions, userId, n) && id < n && st.sessions[id].userId == userId
    ensures Refresh(st, st.sessions[id].token, token, expiresAt, idleMs, now).1 == Denied
  {
    LookupUnique(st.sessions, id);
    var s := st.sessions[id];
    if s.replacedById.Some? {
      assert RowOk(st.sessions, id);
      CutOffWalkFails(st.sessions, userId, n, s.replacedById.value, ROTATION_CHAIN_MAX_HOPS);
    }
  }

  /** After a successful password change, and after any further calls, no token issued to the user
      before it obtains new tokens, grace window or not, and no earlier session id resolves. */
  lemma ChangedPasswordCutsOff(st: Store, userId: UserId, current: string, new_: string, at: Time, calls: seq<Call>, id: nat,
                               token: Token, expiresAt: Time, idleMs: Time, now: Time)
    requires Valid(st.sessions) && ChangePassword(st, userId, current, new_, at).1
    requires id < |st.sessions| && st.sessions[id].userId == userId
    ensures var later := Run(ChangePassword(st, userId, current, new_, at).0, calls);
            && Refresh(later, st.sessions[id].token, token, expiresAt, idleMs, now).1 == Denied
            && !Resolve(later, userId, id, now).1
  {
    var changed := ChangePassword(st, userId, current, new_, at).0;
    StepKeeps(st, ChangingPassword(userId, current, new_, at));
    RevokeAllCutsOff(st.sessions, userId, Some(PasswordChanged), at);
    CutOffForGood(changed, userId, |st.sessions|, calls, id, token, expiresAt, idleMs, now);
    assert RowKept(st.sessions[id], changed.sessions[id]);
  }

  lemma CutOffForGood(st: Store, userId: UserId, n: nat, calls: seq<Call>, id: nat,
                      token: Token, expiresAt: Time, idleMs: Time, now: Time)
    requires Valid(st.sessions) && CutOff(st.sessions, userId, n) && id < n && st.sessions[id].userId == userId
    ensures var later := Run(st, calls);
            && Refresh(later, st.sessions[id].token, token, expiresAt, idleMs, now).1 == Denied
            && !Resolve(later, userId, id, now).1
  {
    var later := Run(st, calls);
    RunKeeps(st, calls);
    CutOffKept(st.sessions, later.sessions, userId, n);
    assert RowKept(st.sessions[id], later.sessions[id]);
    CutOffTokenDenied(later, userId, n, id, token, expiresAt, idleMs, now);
  }

  /** The same after a reset link was spent; and no link the user had been sent works any more. */
  lemma ResetPasswordCutsOff(st: Store, link: Token, new_: string, at: Time, calls: seq<Call>, id: nat,
                             token: Token, expiresAt: Time, idleMs: Time, now: Time)
    requires Valid(st.sessions) && ResetPassword(st, link, new_, at).1
    requires id < |st.sessions| && st.sessions[id].userId == st.links[LinkLookup(st.links, link).value].userId
    ensures var later := Run(ResetPassword(st, link, new_, at).0, calls);
            && Refresh(later, st.sessions[id].token, token, expiresAt, idleMs, now).1 == Denied
            && !Resolve(later, st.sessions[id].userId, id, now).1
  {
    var userId := st.sessions[id].userId;
    var reset := ResetPassword(st, link, new_, at).0;
    StepKeeps(st, ResettingPassword(link, new_, at));
    RevokeAllCutsOff(st.sessions, userId, Some(PasswordReset), at);
    CutOffForGood(reset, userId, |st.sessions|, calls, id, token, expiresAt, idleMs, now);
    assert RowKept(st.sessions[id], reset.sessions[id]);
  }

  /** Reset links carry distinct tokens. */
  ghost predicate LinksDistinct(links: seq<ResetLink>) {
    forall i, j :: 0 <= i < j < |links| ==> links[i].token != links[j].token
  }

  lemma {:induction false} RunKeepsLinksDistinct(st: Store, calls: seq<Call>)
    requires LinksDistinct(st.links)
    ensures LinksDistinct(Run(st, calls).links)
    decreases |calls|
  {
    if calls != [] {
      RunKeepsLinksDistinct(Step(st, calls[0]), calls[1..]);
    }
  }

  lemma ResetSpendsAllLinks(st: Store, link: Token, new_: string, at: Time, calls: seq<Call>, k: nat, again: string, now: Time)
    requires Valid(st.sessions) && LinksDistinct(st.links) && ResetPassword(st, link, new_, at).1
    requires k < |st.links| && st.links[k].userId == st.links[LinkLookup(st.links, link).value].userId
    ensures !ResetPassword(Run(ResetPassword(st, link, new_, at).0, calls), st.links[k].token, again, now).1
  {
    var reset := ResetPassword(st, link, new_, at).0;
    StepKeeps(st, ResettingPassword(link, new_, at));
    var later := Run(reset, calls);
    RunKeeps(reset, calls);
    RunKeepsLinksDistinct(reset, calls);
    assert reset.links[k].usedAt.Some?;
    assert later.links[k] == reset.links[k];
    var found := LinkLookup(later.links, st.links[k].token).value;
    assert found == k;
  }

  // ---------------------------------------------------------------------------
  // Presenting a token that was already revoked
  // ---------------------------------------------------------------------------

  /** The live session that a token rotated at most thirty seconds ago may still be traded for. */
  function Successor(sessions: seq<Session>, id: nat, now: Time): Option<nat>
    requires Valid(sessions) && id < |sessions|
  {
    var s := sessions[id];
    assert RowOk(sessions, id);
    if s.revokedReason == Some(Rotated) && s.revokedAt.Some? && now - s.revokedAt.value <= 30_000
       && WalkLength(sessions, s.replacedById.value) <= 10
    then Walk(sessions, s.replacedById.value)
    else None
  }

  /** Exactly two things can happen to a revoked token. Within the grace window, with the live end of
      its chain at most ten rows away: that session is rotated, which leaves the user as many live
      sessions as before, or it has expired (or the drawn token collides) and nothing changes. In all
      other cases the call fails and the user has no live session left. */
  lemma RevokedTokenOutcomes(st: Store, id: nat, token: Token, expiresAt: Time, idleMs: Time, now: Time)
    requires Valid(st.sessions) && id < |st.sessions| && !Live(st.sessions[id])
    ensures var (st', outcome) := Refresh(st, st.sessions[id].token, token, expiresAt, idleMs, now);
            var user := st.sessions[id].userId;
            match Successor(st.sessions, id, now)
            case Some(end) =>
              && LeadsTo(st.sessions, id, end) && Live(st.sessions[end])
              && (if st.sessions[end].expiresAt < now || TokenTaken(st.sessions, token) then
                    outcome == Denied && st' == st
                  else
                    && outcome == Issued(|st.sessions|) && st'.sessions[|st.sessions|].token == token
                    && LiveSessions(st'.sessions, user) == LiveSessions(st.sessions, user) - {end} + {|st.sessions|}
                    && |LiveSessions(st'.sessions, user)| == |LiveSessions(st.sessions, user)|)
            case None =>
              outcome == Denied && LiveSessions(st'.sessions, user) == {}
  {
    var s := st.sessions[id];
    LookupUnique(st.sessions, id);
    assert RowOk(st.sessions, id);
    if RotatedRecently(s, now) {
      var next := s.replacedById.value;
      BoundedWalkIsWalk(st.sessions, next, ROTATION_CHAIN_MAX_HOPS);
      WalkFindsLiveEnd(st.sessions, next);
    }
    var end := Successor(st.sessions, id, now);
    if end.Some? {
      LeadsToLater(st.sessions, id, end.value);
      if !(st.sessions[end.value].expiresAt < now || TokenTaken(st.sessions, token)) {
        RotationSwapsLive(st.sessions, end.value, token, expiresAt, now);
      }
    }
  }

  /** May this user act at all? */
  predicate MayAct(st: Store, userId: UserId) {
    userId in st.users && st.users[userId].active && !st.users[userId].deleted
  }

  /** The check on the user is made after the branch for revoked tokens. So somebody who may not act obtains
      new tokens exactly through a token rotated moments ago, whose chain still ends in an unexpired live
      session within reach. */
  lemma BarredUserObtainsIff(st: Store, id: nat, token: Token, expiresAt: Time, idleMs: Time, now: Time)
    requires Valid(st.sessions) && id < |st.sessions| && !MayAct(st, st.sessions[id].userId)
    ensures Refresh(st, st.sessions[id].token, token, expiresAt, idleMs, now).1.Issued? <==>
              && !Live(st.sessions[id]) && !TokenTaken(st.sessions, token)
              && var end := Successor(st.sessions, id, now);
                 end.Some? && end.value < |st.sessions| && st.sessions[end.value].expiresAt >= now
  {
    if Live(st.sessions[id]) {
      LiveTokenOutcomes(st, id, token, expiresAt, idleMs, now);
    } else {
      RevokedTokenOutcomes(st, id, token, expiresAt, idleMs, now);
      var end := Successor(st.sessions, id, now);
      if end.Some? {
        LeadsToLater(st.sessions, id, end.value);
      }
    }
  }

  /** A case: sign-in, refresh, suspension; the second token is refused, the first one is honoured. */
  lemma SuspendedUserRefreshes(userId: UserId, a: Token, b: Token, c: Token, now: Time)
    requires a != b && b != c && a != c
    ensures var user := User(true, false, true, None);
            var calls := [SignIn(userId, a, now + 1, now), Refreshing(a, b, now + 1, 0, now),
                          Administering(userId, user.(active := false))];
            var later := Run(Store(map[userId := user], [], []), calls);
            && !MayAct(later, userId)
            && Refresh(later, b, c, now + 1, 0, now).1 == Denied
            && Refresh(later, a, c, now + 1, 0, now).1 == Issued(2)
  {
    var user := User(true, false, true, None);
    var st := Store(map[userId := user], [], []);
    var c1, c2 := SignIn(userId, a, now + 1, now), Refreshing(a, b, now + 1, 0, now);
    var c3 := Administering(userId, user.(active := false));
    var st1 := Step(st, c1);
    assert st1.sessions == [Opened(userId, a, now + 1, now)];
    assert Lookup(st1.sessions, a) == Some(0);
    var st2 := Step(st1, c2);
    assert |st2.sessions| == 2 && st2.sessions[0].token == a && st2.sessions[1] == Opened(userId, b, now + 1, now);
    var st3 := Step(st2, c3);
    RunThree(st, c1, c2, c3);
    assert st3.sessions[..1] == [st3.sessions[0]];
    assert Lookup(st3.sessions, a) == Some(0) && Lookup(st3.sessions, b) == Some(1);
    assert FollowRotationChain(st3.sessions, 1, ROTATION_CHAIN_MAX_HOPS) == Some(1);
    assert !TokenTaken(st3.sessions, c);
  }

  lemma RunThree(st: Store, a: Call, b: Call, c: Call)
    ensures Run(st, [a, b, c]) == Step(Step(Step(st, a), b), c)
  {
    hide Step;
    assert [a, b, c][1..] == [b, c] && [b, c][1..] == [c] && [c][1..] == [];
    assert Run(Step(Step(st, a), b), [c]) == Step(Step(Step(st, a), b), c);
    assert Run(Step(st, a), [b, c]) == Run(Step(Step(st, a), b), [c]);
  }

  /** What a live token is worth: nothing once it has expired or its user may not act, the end of the
      session once it has been idle too long, and otherwise a new token at the end of the same chain, the
      number of live sessions staying as it was. */
  lemma LiveTokenOutcomes(st: Store, id: nat, token: Token, expiresAt: Time, idleMs: Time, now: Time)
    requires Valid(st.sessions) && id < |st.sessions| && Live(st.sessions[id])
    ensures var (st', outcome) := Refresh(st, st.sessions[id].token, token, expiresAt, idleMs, now);
            var user := st.sessions[id].userId;
            if st.sessions[id].expiresAt < now || !MayAct(st, user) then
              outcome == Denied && st' == st
            else if now - st.sessions[id].lastSeenAt > idleMs then
              && outcome == Denied && LiveSessions(st'.sessions, user) == LiveSessions(st.sessions, user) - {id}
              && forall other: nat :: other < |st.sessions| && other != id ==> st'.sessions[other] == st.sessions[other]
            else if TokenTaken(st.sessions, token) then
              outcome == Denied && st' == st
            else
              && outcome == Issued(|st.sessions|) && st'.sessions[|st.sessions|].token == token
              && Valid(st'.sessions) && LeadsTo(st'.sessions, id, |st.sessions|)
              && LiveSessions(st'.sessions, user) == LiveSessions(st.sessions, user) - {id} + {|st.sessions|}
              && |LiveSessions(st'.sessions, user)| == |LiveSessions(st.sessions, user)|
  {
    hide Valid, TokenTaken, Lookup;
    TokenFindsIts(st.sessions, id);
    if !TokenTaken(st.sessions, token) {
      RotationSwapsLive(st.sessions, id, token, expiresAt, now);
      RotationKeepsValid(st.sessions, id, token, expiresAt, now);
      var after := RotateWrites(st.sessions, id, token, expiresAt, now);
      assert after[id].replacedById == Some(|st.sessions|);
      LeadsToStep(after, id, id, |st.sessions|);
    }
  }

  /** A sign-in opens a session whose token can be refreshed and whose id resolves, in time. */
  lemma SignInWorks(st: Store, userId: UserId, token: Token, expiresAt: Time, at: Time,
                    next: Token, nextExpiry: Time, idleMs: Time, now: Time)
    requires Valid(st.sessions) && MayAct(st, userId)
    requires !TokenTaken(st.sessions, token) && !TokenTaken(st.sessions, next) && next != token
    requires now <= at + idleMs && expiresAt > now
    ensures var (after, outcome) := CompleteSignIn(st, userId, token, expiresAt, at);
            && outcome == Issued(|st.sessions|)
            && Refresh(after, token, next, nextExpiry, idleMs, now).1.Issued?
            && Resolve(after, userId, |st.sessions|, now).1
            && LiveSessions(after.sessions, userId) == LiveSessions(st.sessions, userId) + {|st.sessions|}
  {
    hide Valid, Lookup, Refresh, LiveSessions, LeadsTo, Kept;
    OpeningKeepsValid(st.sessions, userId, token, expiresAt, at);
    OpeningAddsOne(st.sessions, userId, token, expiresAt, at);
    var after := CompleteSignIn(st, userId, token, expiresAt, at).0;
    assert !TokenTaken(after.sessions, next) by { assert after.sessions[..|st.sessions|] == st.sessions; }
    hide TokenTaken;
    LiveTokenOutcomes(after, |st.sessions|, next, nextExpiry, idleMs, now);
  }

  lemma OpeningAddsOne(sessions: seq<Session>, userId: UserId, token: Token, expiresAt: Time, now: Time)
    ensures LiveSessions(sessions + [Opened(userId, token, expiresAt, now)], userId) == LiveSessions(sessions, userId) + {|sessions|}
  {
  }

  /** A session that was ended for any reason but rotation is worth nothing in any continuation. */
  lemma EndedForGood(st: Store, id: nat, calls: seq<Call>, token: Token, expiresAt: Time, idleMs: Time, now: Time)
    requires Valid(st.sessions) && id < |st.sessions| && !Live(st.sessions[id]) && st.sessions[id].revokedReason != Some(Rotated)
    ensures var later := Run(st, calls);
            && Refresh(later, st.sessions[id].token, token, expiresAt, idleMs, now).1 == Denied
            && !Resolve(later, st.sessions[id].userId, id, now).1
  {
    RunKeeps(st, calls);
    var later := Run(st, calls);
    hide Run;
    assert RowKept(st.sessions[id], later.sessions[id]);
    TokenFindsIts(later.sessions, id);
  }

  /** Signing out ends that session for good, and no other. */
  lemma LoggedOutForGood(st: Store, id: nat, at: Time, calls: seq<Call>, token: Token, expiresAt: Time, idleMs: Time, now: Time)
    requires Valid(st.sessions) && id < |st.sessions| && Live(st.sessions[id])
    ensures var out := Logout(st, id, at);
            var later := Run(out, calls);
            && LiveSessions(out.sessions, st.sessions[id].userId) == LiveSessions(st.sessions, st.sessions[id].userId) - {id}
            && Refresh(later, st.sessions[id].token, token, expiresAt, idleMs, now).1 == Denied
            && !Resolve(later, st.sessions[id].userId, id, now).1
  {
    StepKeeps(st, SigningOut(id, at));
    EndedForGood(Logout(st, id, at), id, calls, token, expiresAt, idleMs, now);
  }

  /** The call writes this user's record: a password change or reset that succeeds, or user administration. */
  predicate WritesUser(st: Store, call: Call, userId: UserId) {
    match call
    case ChangingPassword(u, current, new_, now) => u == userId && ChangePassword(st, u, current, new_, now).1
    case ResettingPassword(token, new_, now) =>
      ResetPassword(st, token, new_, now).1 && st.links[LinkLookup(st.links, token).value].userId == userId
    case Administering(u, user) => u == userId
    case _ => false
  }

  predicate NeverWritesUser(st: Store, calls: seq<Call>, userId: UserId)
    decreases |calls|
  {
    calls == [] || (!WritesUser(st, calls[0], userId) && NeverWritesUser(Step(st, calls[0]), calls[1..], userId))
  }

  lemma StepKeepsUser(st: Store, call: Call, userId: UserId)
    requires userId in st.users && !WritesUser(st, call, userId)
    ensures userId in Step(st, call).users && Step(st, call).users[userId] == st.users[userId]
  {
    hide RevokeAll, SpendLinks, RotateWrites;
  }

  lemma {:induction false} RunKeepsUser(st: Store, calls: seq<Call>, userId: UserId)
    requires userId in st.users && NeverWritesUser(st, calls, userId)
    ensures userId in Run(st, calls).users && Run(st, calls).users[userId] == st.users[userId]
    decreases |calls|
  {
    hide Step, WritesUser;
    if calls != [] {
      StepKeepsUser(st, calls[0], userId);
      RunKeepsUser(Step(st, calls[0]), calls[1..], userId);
    }
  }

  /** A requested link, used in time, sets the password. From then on, until the user's record is written
      again, that password and no other is taken as the current one. */
  lemma RequestedLinkResets(st: Store, userId: UserId, link: Token, at: Time, new_: string, now: Time, calls: seq<Call>,
                            newer: string, later: Time)
    requires MayAct(st, userId) && st.users[userId].hasEmail
    requires RecentLinks(st.links, userId, at) < 5 && LinkLookup(st.links, link).None? && at <= now <= at + 30 * 60 * 1000
    ensures var requested := RequestPasswordReset(st, userId, link, at);
            var (reset, ok) := ResetPassword(requested, link, new_, now);
            && ok
            && (NeverWritesUser(reset, calls, userId) ==>
                  forall current: string :: ChangePassword(Run(reset, calls), userId, current, newer, later).1 <==> current == new_)
  {
    hide Run;
    var requested := RequestPasswordReset(st, userId, link, at);
    assert requested.links[|requested.links| - 1].token == link;
    var reset := ResetPassword(requested, link, new_, now).0;
    assert reset.users[userId] == st.users[userId].(password := Some(new_));
    if NeverWritesUser(reset, calls, userId) {
      RunKeepsUser(reset, calls, userId);
    }
  }

  lemma TokenFindsIts(sessions: seq<Session>, id: nat)
    requires Valid(sessions) && id < |sessions|
    ensures Lookup(sessions, sessions[id].token) == Some(id)
  {
    LookupUnique(sessions, id);
  }

  lemma RotationSwapsLive(sessions: seq<Session>, id: nat, token: Token, expiresAt: Time, now: Time)
    requires id < |sessions| && Live(sessions[id])
    ensures var after := RotateWrites(sessions, id, token, expiresAt, now);
            var user := sessions[id].userId;
            && LiveSessions(after, user) == LiveSessions(sessions, user) - {id} + {|sessions|}
            && |LiveSessions(after, user)| == |LiveSessions(sessions, user)|
  {
    var after := RotateWrites(sessions, id, token, expiresAt, now);
    var user := sessions[id].userId;
    assert LiveSessions(after, user) == LiveSessions(sessions, user) - {id} + {|sessions|};
  }
}
