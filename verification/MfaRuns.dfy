/** What holds over every run of the operations in `MfaTables`: which recovery codes work, and how many
    are left. */
module MfaRuns {
  import opened Text
  import opened RecoveryCodes
  import opened SessionTable
  import opened MfaTables

  datatype Call =
    | Enabling(userId: UserId, secret: string, code: string, valid: bool, drawn: Option<seq<string>>, now: Time)
    | Disabling(userId: UserId, password: string, code: string, valid: bool, now: Time)
    | Verifying(userId: UserId, code: string, valid: bool, now: Time)
    | Resetting(actorId: UserId, userId: UserId, now: Time)

  function Step(st: Mfa, call: Call): Mfa {
    match call
    case Enabling(u, secret, code, valid, drawn, now) => Enable(st, u, secret, code, valid, drawn, now).0
    case Disabling(u, password, code, valid, now) => Disable(st, u, password, code, valid, now).0
    case Verifying(u, code, valid, now) => VerifySecondFactor(st, u, code, valid, now).0
    case Resetting(actorId, u, now) => AdminReset(st, actorId, u, now)
  }

  function Run(st: Mfa, calls: seq<Call>): Mfa
    decreases |calls|
  {
    if calls == [] then st else Step(Run(st, calls[..|calls| - 1]), calls[|calls| - 1])
  }

  /** Codes come from the generator. */
  ghost predicate Possible(call: Call) {
    call.Enabling? && call.drawn.Some? ==> IsIssue(call.drawn.value, CODE_COUNT)
  }

  // ---------------------------------------------------------------------------
  // What a call does to one code
  // ---------------------------------------------------------------------------

  /** An unused row of this user. */
  predicate Works(st: Mfa, userId: UserId, key: Key) {
    key in st.codes && st.codes[key] == CodeRow(userId, None)
  }

  /** The call hands this user a code with this normal form. */
  predicate Issues(st: Mfa, call: Call, userId: UserId, key: Key) {
    && call.Enabling? && call.userId == userId
    && var answer := Enable(st, userId, call.secret, call.code, call.valid, call.drawn, call.now).1;
       answer.On? && key in Keys(answer.codes)
  }

  /** The call takes this code from this user in place of an authenticator code. */
  predicate Accepts(st: Mfa, call: Call, userId: UserId, key: Key) {
    match call
    case Verifying(u, code, valid, now) =>
      u == userId && Normalise(code) == key && !TotpMatches(valid, code) && VerifySecondFactor(st, u, code, valid, now).1
    case Disabling(u, password, code, valid, now) =>
      && u == userId && Normalise(code) == key && !TotpMatches(valid, code)
      && Disable(st, u, password, code, valid, now).1 != NotOn && Consume(st.codes, u, code, now).1
    case _ => false
  }

  /** The call ends this user's enrolment, or starts a new one. */
  predicate Voids(st: Mfa, call: Call, userId: UserId) {
    match call
    case Enabling(u, secret, code, valid, drawn, now) => u == userId && Enable(st, u, secret, code, valid, drawn, now).1.On?
    case Disabling(u, password, code, valid, now) => u == userId && Disable(st, u, password, code, valid, now).1.Off?
    case Verifying(_, _, _, _) => false
    case Resetting(actorId, u, _) => u == userId && Resettable(st, actorId, u)
  }

  lemma ConsumeOne(codes: map<Key, CodeRow>, userId: UserId, code: string, now: Time)
    ensures var (after, consumed) := Consume(codes, userId, code, now);
            && consumed == (|Normalise(code)| >= KEY_MIN && Normalise(code) in codes && codes[Normalise(code)] == CodeRow(userId, None))
            && after == if consumed then codes[Normalise(code) := CodeRow(userId, Some(now))] else codes
  {
    hide Normalise;
    NormaliseTwice(code);
  }

  lemma StepWorks(st: Mfa, call: Call, userId: UserId, key: Key)
    ensures Works(Step(st, call), userId, key)
       <==> (Issues(st, call, userId, key) || (Works(st, userId, key) && !Accepts(st, call, userId, key) && !Voids(st, call, userId)))
  {
    hide Normalise, Keys, Consumable, Consume, TotpMatches, RevokeAll;
    match call
    case Enabling(u, secret, code, valid, drawn, now) =>
    case Disabling(u, password, code, valid, now) => ConsumeOne(st.codes, u, code, now);
    case Verifying(u, code, valid, now) => ConsumeOne(st.codes, u, code, now);
    case Resetting(actorId, u, now) =>
  }

  // ---------------------------------------------------------------------------
  // Which codes work
  // ---------------------------------------------------------------------------

  function Before(st: Mfa, calls: seq<Call>, n: nat): Mfa
    requires n <= |calls|
  {
    Run(st, calls[..n])
  }

  /** Neither spent nor voided by the n-th call. */
  predicate Survives(st: Mfa, calls: seq<Call>, n: nat, userId: UserId, key: Key)
    requires n < |calls|
  {
    !Accepts(Before(st, calls, n), calls[n], userId, key) && !Voids(Before(st, calls, n), calls[n], userId)
  }

  /** The m-th call issued the code, and nothing since has spent or voided it. */
  ghost predicate GoodSince(st: Mfa, calls: seq<Call>, m: nat, userId: UserId, key: Key)
    requires m < |calls|
  {
    && Issues(Before(st, calls, m), calls[m], userId, key)
    && forall n: nat :: m < n < |calls| ==> Survives(st, calls, n, userId, key)
  }

  ghost predicate Good(st: Mfa, calls: seq<Call>, userId: UserId, key: Key) {
    exists m: nat :: m < |calls| && GoodSince(st, calls, m, userId, key)
  }

  lemma GoodOneMore(st: Mfa, calls: seq<Call>, userId: UserId, key: Key)
    requires calls != []
    ensures var last := |calls| - 1;
            Good(st, calls, userId, key)
            <==> (Issues(Before(st, calls, last), calls[last], userId, key)
                  || (Good(st, calls[..last], userId, key) && Survives(st, calls, last, userId, key)))
  {
    hide Issues, Accepts, Voids, Run;
    var last := |calls| - 1;
    var earlier := calls[..last];
    forall n: nat | n <= last ensures calls[..n] == earlier[..n] { }
    assert forall n: nat :: n < last ==> Survives(st, calls, n, userId, key) == Survives(st, earlier, n, userId, key);
    if Good(st, calls, userId, key) {
      var m: nat :| m < |calls| && GoodSince(st, calls, m, userId, key);
      if m < last {
        assert Survives(st, calls, last, userId, key);
        assert GoodSince(st, earlier, m, userId, key);
      }
    }
    if Issues(Before(st, calls, last), calls[last], userId, key) {
      assert GoodSince(st, calls, last, userId, key);
    }
    if Good(st, earlier, userId, key) && Survives(st, calls, last, userId, key) {
      var m: nat :| m < last && GoodSince(st, earlier, m, userId, key);
      assert GoodSince(st, calls, m, userId, key);
    }
  }

  /** From an empty code table, a code works for a user exactly when one of that user's enrolments issued
      it and since then it has not been accepted and the enrolment has not ended. */
  lemma {:induction false} WorksIff(st: Mfa, calls: seq<Call>, userId: UserId, key: Key)
    requires st.codes == map[]
    ensures Works(Run(st, calls), userId, key) <==> Good(st, calls, userId, key)
    decreases |calls|
  {
    hide Issues, Accepts, Voids;
    if calls != [] {
      var last := |calls| - 1;
      WorksIff(st, calls[..last], userId, key);
      StepWorks(Run(st, calls[..last]), calls[last], userId, key);
      GoodOneMore(st, calls, userId, key);
    }
  }

  lemma AcceptsWorks(st: Mfa, call: Call, userId: UserId, key: Key)
    requires Accepts(st, call, userId, key)
    ensures Works(st, userId, key)
    ensures forall u, k :: !Issues(st, call, u, k)
  {
    hide Normalise, Consume, Consumable;
    if call.Verifying? || call.Disabling? {
      ConsumeOne(st.codes, call.userId, call.code, call.now);
    }
  }

  /** At most once: between two acceptances of one code, by whomever, it has been issued again, to the
      second of them. */
  lemma AcceptedOnce(st: Mfa, calls: seq<Call>, i: nat, j: nat, first: UserId, second: UserId, key: Key)
    requires st.codes == map[] && i < j < |calls|
    requires Accepts(Before(st, calls, i), calls[i], first, key)
    requires Accepts(Before(st, calls, j), calls[j], second, key)
    ensures exists m: nat :: i < m < j && Issues(Before(st, calls, m), calls[m], second, key)
  {
    hide Accepts, Issues, Voids, Run;
    AcceptsWorks(Before(st, calls, i), calls[i], first, key);
    AcceptsWorks(Before(st, calls, j), calls[j], second, key);
    var m := LastIssue(st, calls, j, second, key);
    if m < i {
      WorksSince(st, calls, m, i, second, key);
      assert first == second;
    }
    assert m < i ==> Survives(st, calls, i, second, key);
  }

  /** After an enrolment has ended, none of its codes is accepted until it is issued again. */
  lemma VoidedForGood(st: Mfa, calls: seq<Call>, i: nat, j: nat, userId: UserId, key: Key)
    requires st.codes == map[] && i < j < |calls|
    requires Voids(Before(st, calls, i), calls[i], userId)
    requires Accepts(Before(st, calls, j), calls[j], userId, key)
    ensures exists m: nat :: i <= m < j && Issues(Before(st, calls, m), calls[m], userId, key)
  {
    hide Accepts, Issues, Voids, Run;
    AcceptsWorks(Before(st, calls, j), calls[j], userId, key);
    var m := LastIssue(st, calls, j, userId, key);
    assert m < i ==> Survives(st, calls, i, userId, key);
  }

  lemma LastIssue(st: Mfa, calls: seq<Call>, j: nat, userId: UserId, key: Key) returns (m: nat)
    requires st.codes == map[] && j <= |calls| && Works(Before(st, calls, j), userId, key)
    ensures m < j && Issues(Before(st, calls, m), calls[m], userId, key)
    ensures forall n: nat :: m < n < j ==> Survives(st, calls, n, userId, key)
  {
    hide Accepts, Issues, Voids, Run, Works;
    var past := calls[..j];
    WorksIff(st, past, userId, key);
    m :| m < |past| && GoodSince(st, past, m, userId, key);
    forall n: nat | n < j ensures past[..n] == calls[..n] { }
    assert forall n: nat :: n < j ==> Survives(st, past, n, userId, key) == Survives(st, calls, n, userId, key);
  }

  lemma WorksSince(st: Mfa, calls: seq<Call>, m: nat, i: nat, userId: UserId, key: Key)
    requires st.codes == map[] && m < i <= |calls|
    requires Issues(Before(st, calls, m), calls[m], userId, key)
    requires forall n: nat :: m < n < i ==> Survives(st, calls, n, userId, key)
    ensures Works(Before(st, calls, i), userId, key)
  {
    hide Accepts, Issues, Voids, Run, Works;
    var past := calls[..i];
    forall n: nat | n < i ensures past[..n] == calls[..n] { }
    assert forall n: nat :: n < i ==> Survives(st, past, n, userId, key) == Survives(st, calls, n, userId, key);
    assert GoodSince(st, past, m, userId, key);
    WorksIff(st, past, userId, key);
  }

  /** Somebody known, not yet enrolled and with the right authenticator code gets the codes drawn, unless
      one of them is another user's; and then every one of them works. */
  lemma EnablingIssues(st: Mfa, userId: UserId, secret: string, code: string, valid: bool, codes: seq<string>, now: Time, key: Key)
    requires userId in st.users && !st.users[userId].mfaEnabled && TotpMatches(valid, code)
    requires forall k <- Keys(codes) :: k !in st.codes || st.codes[k].userId == userId
    requires key in Keys(codes)
    ensures var (after, answer) := Enable(st, userId, secret, code, valid, Some(codes), now);
            answer == On(codes) && Enrolled(after, userId) && after.users[userId].mfaSecret == Some(secret) && Works(after, userId, key)
  {
    hide Keys, TotpMatches;
  }

  /** Turning it off takes the password and one of the two kinds of code, and then nothing is left of it. */
  lemma DisablesIff(st: Mfa, userId: UserId, password: string, code: string, valid: bool, now: Time)
    ensures var (after, answer) := Disable(st, userId, password, code, valid, now);
            && (answer.Off? <==>
                  && Enrolled(st, userId) && st.users[userId].password == Some(password)
                  && (TotpMatches(valid, code) || (|Normalise(code)| >= KEY_MIN && Works(st, userId, Normalise(code)))))
            && (answer.Off? ==> !Enrolled(after, userId) && forall k <- after.codes :: after.codes[k].userId != userId)
            && (answer.Refused? ==> forall u <- st.users :: u in after.users && after.users[u] == st.users[u])
  {
    hide Normalise, TotpMatches, Consume, Consumable;
    ConsumeOne(st.codes, userId, code, now);
  }

  // ---------------------------------------------------------------------------
  // How many are left
  // ---------------------------------------------------------------------------

  function Rows(codes: map<Key, CodeRow>, userId: UserId): set<Key> {
    set k | k in codes && codes[k].userId == userId
  }

  function Remaining(codes: map<Key, CodeRow>, userId: UserId): set<Key> {
    set k | k in codes && codes[k] == CodeRow(userId, None)
  }

  /** Ten rows while the second factor is on, none while it is off. */
  ghost predicate Counted(st: Mfa, userId: UserId) {
    |Rows(st.codes, userId)| == if Enrolled(st, userId) then 10 else 0
  }

  ghost predicate SecretsKept(st: Mfa) {
    forall u <- st.users :: st.users[u].mfaEnabled ==> st.users[u].mfaSecret.Some?
  }

  lemma {:induction false} KeysCount(codes: seq<string>)
    requires Distinct(codes) && forall code <- codes :: IsCode(code)
    ensures |Keys(codes)| == |codes|
  {
    hide Keys, Normalise, IsCode;
    if codes == [] {
      KeysNone();
    } else {
      var last := |codes| - 1;
      KeysCount(codes[..last]);
      KeysSnoc(codes[..last], codes[last]);
      assert codes == codes[..last] + [codes[last]];
    }
  }

  lemma KeysNone()
    ensures Keys([]) == {}
  {
  }

  lemma KeysSnoc(before: seq<string>, code: string)
    requires IsCode(code) && code !in before && forall c <- before :: IsCode(c)
    ensures Normalise(code) !in Keys(before)
    ensures Keys(before + [code]) == Keys(before) + {Normalise(code)}
  {
    hide Normalise, IsCode;
    var after := before + [code];
    forall i | 0 <= i < |before| ensures Normalise(before[i]) != Normalise(code) && after[i] == before[i] {
      NormaliseInjective(before[i], code);
    }
    assert after[|before|] == code;
    forall k <- Keys(after) ensures k in Keys(before) + {Normalise(code)} {
      var i :| 0 <= i < |after| && k == Normalise(after[i]);
    }
    forall k <- Keys(before) ensures k in Keys(after) {
      var i :| 0 <= i < |before| && k == Normalise(before[i]);
      assert k == Normalise(after[i]);
    }
  }

  lemma RowsAfter(codes: map<Key, CodeRow>, keys: set<Key>, owner: UserId, userId: UserId)
    requires Without(codes, owner).Keys !! keys
    ensures Rows(Without(codes, owner), userId) == if userId == owner then {} else Rows(codes, userId)
    ensures Rows(Without(codes, owner) + NewRows(keys, owner), userId) == if userId == owner then keys else Rows(codes, userId)
    ensures Remaining(Without(codes, owner), userId) == if userId == owner then {} else Remaining(codes, userId)
    ensures Remaining(Without(codes, owner) + NewRows(keys, owner), userId) == if userId == owner then keys else Remaining(codes, userId)
  {
  }

  lemma RowsConsumed(codes: map<Key, CodeRow>, owner: UserId, code: string, now: Time, userId: UserId)
    ensures var (after, consumed) := Consume(codes, owner, code, now);
            && Rows(after, userId) == Rows(codes, userId)
            && Remaining(after, userId) == Remaining(codes, userId) - (if consumed && userId == owner then {Normalise(code)} else {})
            && (consumed ==> Normalise(code) in Remaining(codes, owner))
  {
    hide Normalise, Consume;
    ConsumeOne(codes, owner, code, now);
  }

  /** Every call keeps the count of rows and, unless it ends the enrolment, takes from the codes left
      exactly the one it accepts. */
  lemma StepCounts(st: Mfa, call: Call, userId: UserId)
    requires SecretsKept(st) && Counted(st, userId) && Possible(call)
    ensures SecretsKept(Step(st, call)) && Counted(Step(st, call), userId)
    ensures !Voids(st, call, userId) ==>
              Remaining(Step(st, call).codes, userId) == Remaining(st.codes, userId) - Spent(st, call, userId)
    ensures Spent(st, call, userId) <= Remaining(st.codes, userId)
  {
    if call.Enabling? {
      EnableCounts(st, call, userId);
    } else if call.Disabling? {
      DisableCounts(st, call, userId);
    } else {
      OtherCounts(st, call, userId);
    }
  }

  ghost predicate Counts(st: Mfa, call: Call, userId: UserId) {
    && SecretsKept(Step(st, call)) && Counted(Step(st, call), userId)
    && (!Voids(st, call, userId) ==>
          Remaining(Step(st, call).codes, userId) == Remaining(st.codes, userId) - Spent(st, call, userId))
    && Spent(st, call, userId) <= Remaining(st.codes, userId)
  }

  lemma EnableCounts(st: Mfa, call: Call, userId: UserId)
    requires SecretsKept(st) && Counted(st, userId) && Possible(call) && call.Enabling?
    ensures Counts(st, call, userId)
  {
    hide Normalise, Keys, TotpMatches, Rows, Remaining, Without, NewRows, IsIssue;
    if Enable(st, call.userId, call.secret, call.code, call.valid, call.drawn, call.now).1.On? {
      IssueCount(call.drawn.value);
      RowsAfter(st.codes, Keys(call.drawn.value), call.userId, userId);
    }
  }

  lemma DisableCounts(st: Mfa, call: Call, userId: UserId)
    requires SecretsKept(st) && Counted(st, userId) && call.Disabling?
    ensures Counts(st, call, userId)
  {
    hide Normalise, Consumable, Consume, TotpMatches, Rows, Remaining, Without;
    var codes := Consume(st.codes, call.userId, call.code, call.now).0;
    RowsConsumed(st.codes, call.userId, call.code, call.now, userId);
    RowsAfter(st.codes, {}, call.userId, userId);
    RowsAfter(codes, {}, call.userId, userId);
  }

  lemma OtherCounts(st: Mfa, call: Call, userId: UserId)
    requires SecretsKept(st) && Counted(st, userId) && (call.Verifying? || call.Resetting?)
    ensures Counts(st, call, userId)
  {
    hide Normalise, Consumable, Consume, TotpMatches, RevokeAll, Rows, Remaining, Without;
    match call
    case Verifying(u, code, valid, now) =>
      RowsConsumed(st.codes, u, code, now, userId);
    case Resetting(actorId, u, now) =>
      RowsAfter(st.codes, {}, u, userId);
  }

  lemma IssueCount(codes: seq<string>)
    requires IsIssue(codes, CODE_COUNT)
    ensures |Keys(codes)| == CODE_COUNT
  {
    KeysCount(codes);
  }

  /** The codes, none or one, that a call accepts from a user. */
  function Spent(st: Mfa, call: Call, userId: UserId): set<Key> {
    if (call.Verifying? || call.Disabling?) && Accepts(st, call, userId, Normalise(call.code)) then {Normalise(call.code)} else {}
  }

  function TimesAccepted(st: Mfa, calls: seq<Call>, userId: UserId): nat
    decreases |calls|
  {
    if calls == [] then 0
    else
      var last := |calls| - 1;
      TimesAccepted(st, calls[..last], userId) + |Spent(Run(st, calls[..last]), calls[last], userId)|
  }

  lemma {:induction false} RunCounts(st: Mfa, calls: seq<Call>, userId: UserId)
    requires SecretsKept(st) && Counted(st, userId) && forall call <- calls :: Possible(call)
    ensures SecretsKept(Run(st, calls)) && Counted(Run(st, calls), userId)
    decreases |calls|
  {
    hide SecretsKept, Counted, Possible;
    if calls != [] {
      RunCounts(st, calls[..|calls| - 1], userId);
      StepCounts(Run(st, calls[..|calls| - 1]), calls[|calls| - 1], userId);
    }
  }

  /** Within one enrolment every acceptance uses up one code: those left and those accepted always add up
      to those there were, so there are never more than ten acceptances. */
  lemma {:induction false} RemainingAddsUp(st: Mfa, calls: seq<Call>, userId: UserId)
    requires SecretsKept(st) && Counted(st, userId) && forall call <- calls :: Possible(call)
    requires forall n: nat :: n < |calls| ==> !Voids(Before(st, calls, n), calls[n], userId)
    ensures |Remaining(Run(st, calls).codes, userId)| + TimesAccepted(st, calls, userId) == |Remaining(st.codes, userId)|
    ensures TimesAccepted(st, calls, userId) <= 10
    decreases |calls|
  {
    hide SecretsKept, Possible, Voids, Spent, Remaining, Rows;
    if calls != [] {
      var last := |calls| - 1;
      var earlier := calls[..last];
      forall n: nat | n < last ensures !Voids(Before(st, earlier, n), earlier[n], userId) {
        assert calls[..n] == earlier[..n];
        assert !Voids(Before(st, calls, n), calls[n], userId);
      }
      RemainingAddsUp(st, earlier, userId);
      RunCounts(st, earlier, userId);
      var now := Run(st, earlier);
      assert Before(st, calls, last) == now;
      StepCounts(now, calls[last], userId);
    }
    RemainingWithinRows(st.codes, userId);
  }

  lemma RemainingWithinRows(codes: map<Key, CodeRow>, userId: UserId)
    ensures |Remaining(codes, userId)| <= |Rows(codes, userId)|
  {
    SubsetSize(Remaining(codes, userId), Rows(codes, userId));
  }

  lemma SubsetSize<T>(a: set<T>, b: set<T>)
    requires a <= b
    ensures |a| <= |b|
  {
    assert b == a + (b - a);
  }

  // ---------------------------------------------------------------------------
  // What a user experiences
  // ---------------------------------------------------------------------------

  /** A second factor is accepted exactly when the authenticator code is right for somebody enrolled, or
      what was typed is, up to formatting, a code that some enrolment issued to this very user and that has
      not been accepted or voided since. */
  lemma SecondFactorIff(st: Mfa, calls: seq<Call>, userId: UserId, code: string, valid: bool, now: Time)
    requires st.codes == map[] && SecretsKept(st) && Counted(st, userId) && forall call <- calls :: Possible(call)
    ensures var after := Run(st, calls);
            VerifySecondFactor(after, userId, code, valid, now).1
            <==> ((Enrolled(after, userId) && TotpMatches(valid, code)) || Good(st, calls, userId, Normalise(code)))
  {
    var after := Run(st, calls);
    hide Normalise, Good, TotpMatches, Run, Possible;
    WorksIff(st, calls, userId, Normalise(code));
    RunCounts(st, calls, userId);
    KeysLong(st, calls);
    if Works(after, userId, Normalise(code)) {
      assert Normalise(code) in Rows(after.codes, userId);
      assert Rows(after.codes, userId) != {};
    }
    ConsumeOne(after.codes, userId, code, now);
  }

  ghost predicate LongKeys(codes: map<Key, CodeRow>) {
    forall k <- codes :: |k| >= KEY_MIN
  }

  lemma {:induction false} KeysLong(st: Mfa, calls: seq<Call>)
    requires st.codes == map[] && forall call <- calls :: Possible(call)
    ensures LongKeys(Run(st, calls).codes)
    decreases |calls|
  {
    hide Possible;
    if calls != [] {
      KeysLong(st, calls[..|calls| - 1]);
      StepKeysLong(Run(st, calls[..|calls| - 1]), calls[|calls| - 1]);
    }
  }

  lemma StepKeysLong(st: Mfa, call: Call)
    requires LongKeys(st.codes) && Possible(call)
    ensures LongKeys(Step(st, call).codes)
  {
    hide Normalise, Consume, Consumable, TotpMatches, RevokeAll, IsCode;
    match call
    case Enabling(u, secret, code, valid, drawn, now) =>
      if drawn.Some? {
        forall k <- Keys(drawn.value) ensures |k| >= KEY_MIN {
          var i :| 0 <= i < |drawn.value| && k == Normalise(drawn.value[i]);
          LongEnough(drawn.value[i]);
        }
      }
    case Disabling(u, password, code, valid, now) => ConsumeOne(st.codes, u, code, now);
    case Verifying(u, code, valid, now) => ConsumeOne(st.codes, u, code, now);
    case Resetting(actorId, u, now) =>
  }

  lemma LongEnough(code: string)
    requires IsCode(code)
    ensures |Normalise(code)| == 10
  {
    NormaliseCode(code);
  }
}
