/** Fairness over runs of resolutions. Between two resolutions the lead just routed is created, open,
    with the owner that was chosen; who is active and what the rules say stay the same. */
module AssignmentRuns {
  import opened Text
  import opened Sorting
  import opened Assignment

  function Step(st: Store, lead: LeadInfo, le: (string, string) -> bool): Store {
    var (st', made) := Resolve(st, lead, le);
    st'.(leads := st.leads + [OwnedLead(made.ownerId, true)])
  }

  function Run(st: Store, leads: seq<LeadInfo>, le: (string, string) -> bool): Store
    decreases |leads|
  {
    if leads == [] then st else Run(Step(st, leads[0], le), leads[1..], le)
  }

  /** The owners a given rule has named in a run, in order. */
  function OwnersBy(st: Store, leads: seq<LeadInfo>, le: (string, string) -> bool, ruleId: Id): seq<Option<Id>>
    decreases |leads|
  {
    if leads == [] then []
    else
      var made := Decide(st, leads[0], le);
      (if made.ruleId == Some(ruleId) then [made.ownerId] else []) + OwnersBy(Step(st, leads[0], le), leads[1..], le, ruleId)
  }

  ghost predicate DistinctRules(rules: seq<Rule>) {
    forall i, j :: 0 <= i < j < |rules| ==> rules[i].id != rules[j].id
  }

  /** Rule `at` of the store, up to its counters. */
  ghost predicate IsRule(st: Store, at: nat, rule: Rule) {
    && DistinctRules(st.rules) && at < |st.rules|
    && st.rules[at] == rule.(cursor := st.rules[at].cursor, assignmentCount := st.rules[at].assignmentCount)
  }

  function Targets(st: Store, rule: Rule): seq<Id> {
    Select(rule.targets, IsActive(st.activeUsers))
  }

  lemma {:induction false} IndexFinds(rules: seq<Rule>, at: nat)
    requires DistinctRules(rules) && at < |rules|
    ensures IndexOfRule(rules, rules[at].id) == at
    decreases |rules|
  {
    if at > 0 {
      assert rules[0].id != rules[at].id && rules[1..][at - 1] == rules[at];
      IndexFinds(rules[1..], at - 1);
    }
  }

  /** A step leaves every rule as it is, except that the one that named an owner counts one more. */
  lemma StepRules(st: Store, lead: LeadInfo, le: (string, string) -> bool, at: nat, rule: Rule)
    requires TotalPreorder(le) && IsRule(st, at, rule)
    ensures var made, after := Decide(st, lead, le), Step(st, lead, le);
            && IsRule(after, at, rule) && after.activeUsers == st.activeUsers
            && after.leads == st.leads + [OwnedLead(made.ownerId, true)]
            && after.rules[at].cursor == st.rules[at].cursor + (if made.ruleId == Some(rule.id) && made.ownerId.Some? then 1 else 0)
            && after.rules[at].assignmentCount == st.rules[at].assignmentCount + (if made.ruleId == Some(rule.id) && made.ownerId.Some? then 1 else 0)
            && (made.ruleId == Some(rule.id) ==>
                  made.ownerId == SelectOwner(rule.strategy, Targets(st, rule),
                                              if rule.strategy.LoadBalanced? then WorkloadsFor(rule.targets, st.leads) else [],
                                              st.rules[at].cursor, le))
  {
    hide RuleMatches, SelectOwner, WorkloadsFor, SelectRule, Select;
    SelectedRuleIsFirst(st.rules, lead, le);
    var found := SelectRule(st.rules, lead, le);
    if found.Some? {
      var k :| 0 <= k < |st.rules| && st.rules[k] == found.value;
      IndexFinds(st.rules, k);
      assert found.value.id == rule.id <==> k == at;
    }
  }

  // ---------------------------------------------------------------------------
  // Round robin
  // ---------------------------------------------------------------------------

  function Picks(targets: seq<Id>, cursor: nat, k: nat): seq<Option<Id>>
    requires targets != []
  {
    seq(k, i requires 0 <= i < k => Some(targets[(cursor + i) % |targets|]))
  }

  lemma PicksCons(targets: seq<Id>, cursor: nat, k: nat)
    requires targets != []
    ensures Picks(targets, cursor, k + 1) == [Some(targets[cursor % |targets|])] + Picks(targets, cursor + 1, k)
  {
  }

  /** Whatever other rules fire in between, a round-robin rule hands its leads out in turn. */
  lemma {:induction false} RoundRobinInTurn(st: Store, leads: seq<LeadInfo>, le: (string, string) -> bool, at: nat, rule: Rule)
    requires TotalPreorder(le) && IsRule(st, at, rule) && rule.strategy.RoundRobin? && Targets(st, rule) != []
    ensures var owners := OwnersBy(st, leads, le, rule.id);
            owners == Picks(Targets(st, rule), st.rules[at].cursor, |owners|)
    decreases |leads|
  {
    if leads != [] {
      StepRules(st, leads[0], le, at, rule);
      hide Decide, Step, Select;
      var rest := OwnersBy(Step(st, leads[0], le), leads[1..], le, rule.id);
      RoundRobinInTurn(Step(st, leads[0], le), leads[1..], le, at, rule);
      PicksCons(Targets(st, rule), st.rules[at].cursor, |rest|);
    }
  }

  function Count(owner: Option<Id>, owners: seq<Option<Id>>): nat {
    if owners == [] then 0 else Count(owner, owners[..|owners| - 1]) + if owners[|owners| - 1] == owner then 1 else 0
  }

  /** How many numbers below `x` leave remainder `r` when divided by `n`. */
  function Below(x: nat, r: nat, n: nat): nat
    requires r < n
  {
    (x + (n - 1 - r)) / n
  }

  lemma MulGap(n: nat, a: nat, b: nat)
    requires a < b
    ensures n * a + n <= n * b
  {
    MulSum(n, a + 1, b - a - 1);
    MulSum(n, a, 1);
  }

  lemma DivUnique(x: nat, n: nat, q: nat, r: nat)
    requires n > 0 && r < n && x == n * q + r
    ensures x / n == q && x % n == r
  {
    if x / n < q {
      MulGap(n, x / n, q);
    } else if q < x / n {
      MulGap(n, q, x / n);
    }
  }

  lemma BelowNext(x: nat, r: nat, n: nat)
    requires r < n
    ensures Below(x + 1, r, n) == Below(x, r, n) + if x % n == r then 1 else 0
  {
    var q, s := DivMod(x, n);
    MulSum(n, q, 1);
    if s < r {
      DivUnique(x + (n - 1 - r), n, q, s + n - 1 - r);
      DivUnique(x + 1 + (n - 1 - r), n, q, s + n - r);
    } else if s == r {
      DivUnique(x + (n - 1 - r), n, q, n - 1);
      DivUnique(x + 1 + (n - 1 - r), n, q + 1, 0);
    } else {
      DivUnique(x + (n - 1 - r), n, q + 1, s - r - 1);
      DivUnique(x + 1 + (n - 1 - r), n, q + 1, s - r);
    }
  }

  lemma BelowWindow(c: nat, k: nat, r: nat, n: nat)
    requires r < n
    ensures k / n <= Below(c + k, r, n) - Below(c, r, n) <= (k + n - 1) / n
  {
    DivAdd(c + (n - 1 - r), k, n);
    assert c + k + (n - 1 - r) == c + (n - 1 - r) + k;
  }

  lemma DivAdd(y: nat, k: nat, n: nat)
    requires n > 0
    ensures k / n <= (y + k) / n - y / n <= (k + n - 1) / n
  {
    var q, s := DivMod(y, n);
    var p, t := DivMod(k, n);
    DivSum(q, s, p, t, n);
    DivCeil(k, n);
  }

  lemma DivMod(x: nat, n: nat) returns (q: nat, r: nat)
    requires n > 0
    ensures q == x / n && r == x % n && r < n && x == n * q + r
  {
    q, r := x / n, x % n;
  }

  lemma DivSum(q: nat, s: nat, p: nat, t: nat, n: nat)
    requires s < n && t < n
    ensures ((n * q + s) + (n * p + t)) / n == q + p + if s + t < n then 0 else 1
  {
    MulSum(n, q, p);
    MulSum(n, q + p, 1);
    if s + t < n {
      DivUnique((n * q + s) + (n * p + t), n, q + p, s + t);
    } else {
      DivUnique((n * q + s) + (n * p + t), n, q + p + 1, s + t - n);
    }
  }

  lemma MulSum(n: nat, a: nat, b: nat)
    ensures n * (a + b) == n * a + n * b
  {
  }

  lemma DivCeil(k: nat, n: nat)
    requires n > 0
    ensures (k + n - 1) / n == k / n + if k % n == 0 then 0 else 1
  {
    var p, t := k / n, k % n;
    if t == 0 {
      DivUnique(k + n - 1, n, p, n - 1);
    } else {
      assert n * (p + 1) == n * p + n;
      DivUnique(k + n - 1, n, p + 1, t - 1);
    }
  }

  lemma {:induction false} CountPicks(targets: seq<Id>, cursor: nat, k: nat, r: nat)
    requires Distinct(targets) && r < |targets|
    ensures Count(Some(targets[r]), Picks(targets, cursor, k)) == Below(cursor + k, r, |targets|) - Below(cursor, r, |targets|)
    decreases k
  {
    if k > 0 {
      CountPicks(targets, cursor, k - 1, r);
      var picks := Picks(targets, cursor, k);
      assert picks[..k - 1] == Picks(targets, cursor, k - 1);
      var at := (cursor + k - 1) % |targets|;
      assert picks[k - 1] == Some(targets[at]);
      assert targets[at] == targets[r] <==> at == r;
      hide Below;
      BelowNext(cursor + k - 1, r, |targets|);
    }
  }

  /** Of the leads a round-robin rule hands out in a run, each of its n distinct active targets gets
      floor(k/n) or ceil(k/n), from whatever cursor. */
  lemma RoundRobinIsFair(st: Store, leads: seq<LeadInfo>, le: (string, string) -> bool, at: nat, rule: Rule, target: Id)
    requires TotalPreorder(le) && IsRule(st, at, rule) && rule.strategy.RoundRobin?
    requires Distinct(Targets(st, rule)) && target in Targets(st, rule)
    ensures var owners := OwnersBy(st, leads, le, rule.id);
            var n := |Targets(st, rule)|;
            |owners| / n <= Count(Some(target), owners) <= (|owners| + n - 1) / n
  {
    hide Below, Picks, OwnersBy, Select;
    var owners := OwnersBy(st, leads, le, rule.id);
    var targets := Targets(st, rule);
    var r :| 0 <= r < |targets| && targets[r] == target;
    RoundRobinInTurn(st, leads, le, at, rule);
    CountPicks(targets, st.rules[at].cursor, |owners|, r);
    BelowWindow(st.rules[at].cursor, |owners|, r, |targets|);
  }

  // ---------------------------------------------------------------------------
  // Least loaded
  // ---------------------------------------------------------------------------

  lemma {:induction false} LoadOfCount(userIds: seq<Id>, leads: seq<OwnedLead>, userId: Id)
    requires userId in userIds
    ensures LoadOf(WorkloadsFor(userIds, leads), userId) == OpenCount(leads, userId)
  {
    var head, tail := userIds[0], userIds[1..];
    var rest := WorkloadsFor(tail, leads);
    if OpenCount(leads, head) > 0 {
      assert ([Workload(head, OpenCount(leads, head))] + rest)[1..] == rest;
    } else {
      assert [] + rest == rest;
    }
    if userId in tail {
      LoadOfCount(tail, leads, userId);
    } else {
      LoadOfAbsent(tail, leads, userId);
    }
  }

  lemma {:induction false} LoadOfAbsent(userIds: seq<Id>, leads: seq<OwnedLead>, userId: Id)
    requires userId !in userIds
    ensures LoadOf(WorkloadsFor(userIds, leads), userId) == 0
  {
    if userIds != [] {
      LoadOfAbsent(userIds[1..], leads, userId);
      var rest := WorkloadsFor(userIds[1..], leads);
      if OpenCount(leads, userIds[0]) > 0 {
        assert ([Workload(userIds[0], OpenCount(leads, userIds[0]))] + rest)[1..] == rest;
      } else {
        assert [] + rest == rest;
      }
    }
  }

  lemma LoadOrderIsPreorder(workloads: seq<Workload>, le: (string, string) -> bool)
    requires TotalPreorder(le)
    ensures TotalPreorder(LoadOrder(workloads, le))
  {
    var order := LoadOrder(workloads, le);
    forall x, y ensures order(x, y) || order(y, x) { assert le(x, y) || le(y, x); }
    forall x, y, z | order(x, y) && order(y, z) ensures order(x, z) { assert le(x, y) && le(y, z) ==> le(x, z); }
  }

  /** The owner picked has the fewest open leads among the active targets. */
  lemma PickIsEmptiest(st: Store, rule: Rule, cursor: nat, le: (string, string) -> bool)
    requires TotalPreorder(le) && Targets(st, rule) != []
    ensures var owner := SelectOwner(LoadBalanced, Targets(st, rule), WorkloadsFor(rule.targets, st.leads), cursor, le);
            && owner.Some? && owner.value in Targets(st, rule)
            && forall t <- Targets(st, rule) :: OpenCount(st.leads, owner.value) <= OpenCount(st.leads, t)
  {
    hide OpenCount, LoadOf, WorkloadsFor;
    var targets, workloads := Targets(st, rule), WorkloadsFor(rule.targets, st.leads);
    var order := LoadOrder(workloads, le);
    var sorted := Sort(targets, order);
    SelectElements(rule.targets, IsActive(st.activeUsers));
    SortPermutes(targets, order);
    LoadOrderIsPreorder(workloads, le);
    SortSorts(targets, order);
    assert sorted[0] in sorted;
    LoadOfCount(rule.targets, st.leads, sorted[0]);
    forall t | t in targets ensures OpenCount(st.leads, sorted[0]) <= OpenCount(st.leads, t) {
      LoadOfCount(rule.targets, st.leads, t);
      var j :| 0 <= j < |sorted| && sorted[j] == t;
    }
  }

  /** Any two of `targets` differ by at most `width` open leads. */
  ghost predicate SpreadAtMost(leads: seq<OwnedLead>, targets: seq<Id>, width: nat) {
    forall a, b :: a in targets && b in targets ==> OpenCount(leads, a) <= OpenCount(leads, b) + width
  }

  /** What the targets still lack to all have `top` open leads. */
  ghost function Deficit(leads: seq<OwnedLead>, targets: seq<Id>, top: nat): int {
    if targets == [] then 0 else top - OpenCount(leads, targets[0]) + Deficit(leads, targets[1..], top)
  }

  lemma OpenOneMore(leads: seq<OwnedLead>, owner: Id, userId: Id)
    ensures OpenCount(leads + [OwnedLead(Some(owner), true)], userId) == OpenCount(leads, userId) + if userId == owner then 1 else 0
  {
    assert (leads + [OwnedLead(Some(owner), true)])[..|leads|] == leads;
  }

  lemma {:induction false} DeficitStep(leads: seq<OwnedLead>, targets: seq<Id>, top: nat, owner: Id)
    requires Distinct(targets)
    ensures Deficit(leads + [OwnedLead(Some(owner), true)], targets, top)
         == Deficit(leads, targets, top) - if owner in targets then 1 else 0
  {
    if targets != [] {
      hide OpenCount;
      OpenOneMore(leads, owner, targets[0]);
      DeficitStep(leads, targets[1..], top, owner);
      assert forall j :: 1 <= j < |targets| ==> targets[j] != targets[0];
      assert targets == [targets[0]] + targets[1..];
      assert targets[0] !in targets[1..];
    }
  }

  ghost predicate Capped(leads: seq<OwnedLead>, targets: seq<Id>, top: nat) {
    forall t <- targets :: OpenCount(leads, t) <= top
  }

  lemma {:induction false} DeficitSigns(leads: seq<OwnedLead>, targets: seq<Id>, top: nat)
    requires Capped(leads, targets, top)
    ensures Deficit(leads, targets, top) >= 0
    ensures Deficit(leads, targets, top) == 0 <==> forall t <- targets :: OpenCount(leads, t) == top
  {
    if targets != [] {
      assert targets == [targets[0]] + targets[1..];
      DeficitSigns(leads, targets[1..], top);
    }
  }

  /** Other rules may fire too, but name nobody this rule balances between. */
  ghost predicate OthersApart(st: Store, leads: seq<LeadInfo>, le: (string, string) -> bool, rule: Rule)
    decreases |leads|
  {
    leads != [] ==>
      var made := Decide(st, leads[0], le);
      && (made.ruleId == Some(rule.id) || made.ownerId.None? || made.ownerId.value !in Targets(st, rule))
      && OthersApart(Step(st, leads[0], le), leads[1..], le, rule)
  }

  /** A lead that goes to nobody among the targets changes nothing between them. */
  lemma {:induction false} ElsewhereCountsNothing(leads: seq<OwnedLead>, ownerId: Option<Id>, targets: seq<Id>, top: nat)
    requires ownerId.None? || ownerId.value !in targets
    ensures var after := leads + [OwnedLead(ownerId, true)];
            && (forall t <- targets :: OpenCount(after, t) == OpenCount(leads, t))
            && Deficit(after, targets, top) == Deficit(leads, targets, top)
  {
    var after := leads + [OwnedLead(ownerId, true)];
    assert after[..|leads|] == leads;
    if targets != [] {
      assert targets == [targets[0]] + targets[1..];
      ElsewhereCountsNothing(leads, ownerId, targets[1..], top);
    }
  }

  lemma OtherStep(st: Store, lead: LeadInfo, le: (string, string) -> bool, at: nat, rule: Rule, top: nat)
    requires TotalPreorder(le) && IsRule(st, at, rule)
    requires var made := Decide(st, lead, le); made.ownerId.None? || made.ownerId.value !in Targets(st, rule)
    ensures var after := Step(st, lead, le);
            && IsRule(after, at, rule) && Targets(after, rule) == Targets(st, rule)
            && (forall t <- Targets(st, rule) :: OpenCount(after.leads, t) == OpenCount(st.leads, t))
            && Deficit(after.leads, Targets(st, rule), top) == Deficit(st.leads, Targets(st, rule), top)
  {
    hide SelectOwner, WorkloadsFor, Decide, Step, Select, OpenCount, Deficit;
    StepRules(st, lead, le, at, rule);
    ElsewhereCountsNothing(st.leads, Decide(st, lead, le).ownerId, Targets(st, rule), top);
  }

  lemma BalancedStep(st: Store, lead: LeadInfo, le: (string, string) -> bool, at: nat, rule: Rule) returns (owner: Id)
    requires TotalPreorder(le) && IsRule(st, at, rule) && rule.strategy.LoadBalanced? && Targets(st, rule) != []
    requires Decide(st, lead, le).ruleId == Some(rule.id)
    ensures owner in Targets(st, rule) && forall t <- Targets(st, rule) :: OpenCount(st.leads, owner) <= OpenCount(st.leads, t)
    ensures Step(st, lead, le).leads == st.leads + [OwnedLead(Some(owner), true)]
    ensures IsRule(Step(st, lead, le), at, rule) && Targets(Step(st, lead, le), rule) == Targets(st, rule)
  {
    hide SelectOwner, WorkloadsFor, Decide, Step, Select;
    StepRules(st, lead, le, at, rule);
    PickIsEmptiest(st, rule, st.rules[at].cursor, le);
    owner := Decide(st, lead, le).ownerId.value;
  }

  /** Giving the next lead to an emptiest target never widens a spread of at least one. */
  lemma StepKeepsSpread(leads: seq<OwnedLead>, targets: seq<Id>, owner: Id, width: nat)
    requires width >= 1 && SpreadAtMost(leads, targets, width)
    requires forall t <- targets :: OpenCount(leads, owner) <= OpenCount(leads, t)
    ensures SpreadAtMost(leads + [OwnedLead(Some(owner), true)], targets, width)
  {
    var after := leads + [OwnedLead(Some(owner), true)];
    forall a, b | a in targets && b in targets
      ensures OpenCount(after, a) <= OpenCount(after, b) + width
    {
      OpenOneMore(leads, owner, a);
      OpenOneMore(leads, owner, b);
    }
  }

  /** Over any run, whatever other rules do for other people, the spread of open leads never exceeds the larger of one and what it was. */
  lemma {:induction false} SpreadNeverGrows(st: Store, leads: seq<LeadInfo>, le: (string, string) -> bool, at: nat, rule: Rule, width: nat)
    requires TotalPreorder(le) && IsRule(st, at, rule) && rule.strategy.LoadBalanced? && OthersApart(st, leads, le, rule)
    requires width >= 1 && SpreadAtMost(st.leads, Targets(st, rule), width)
    ensures SpreadAtMost(Run(st, leads, le).leads, Targets(st, rule), width)
    decreases |leads|
  {
    hide Decide, Step, Select, OpenCount;
    if leads == [] || Targets(st, rule) == [] {
    } else if Decide(st, leads[0], le).ruleId != Some(rule.id) {
      OtherStep(st, leads[0], le, at, rule, 0);
      SpreadNeverGrows(Step(st, leads[0], le), leads[1..], le, at, rule, width);
    } else {
      var owner := BalancedStep(st, leads[0], le, at, rule);
      StepKeepsSpread(st.leads, Targets(st, rule), owner, width);
      SpreadNeverGrows(Step(st, leads[0], le), leads[1..], le, at, rule, width);
    }
  }

  /** Once the rule has handed out at least as many leads as the targets lacked to draw level with the
      fullest, the spread is at most one, and stays so. */
  lemma {:induction false} SpreadLevels(st: Store, leads: seq<LeadInfo>, le: (string, string) -> bool, at: nat, rule: Rule, top: nat)
    requires TotalPreorder(le) && IsRule(st, at, rule) && rule.strategy.LoadBalanced? && OthersApart(st, leads, le, rule)
    requires Distinct(Targets(st, rule)) && Capped(st.leads, Targets(st, rule), top)
    requires |OwnersBy(st, leads, le, rule.id)| >= Deficit(st.leads, Targets(st, rule), top)
    ensures SpreadAtMost(Run(st, leads, le).leads, Targets(st, rule), 1)
    decreases |leads|
  {
    hide Decide, Step, Select, OpenCount;
    var targets := Targets(st, rule);
    DeficitSigns(st.leads, targets, top);
    if Deficit(st.leads, targets, top) == 0 {
      SpreadNeverGrows(st, leads, le, at, rule, 1);
    } else if Decide(st, leads[0], le).ruleId != Some(rule.id) {
      OtherStep(st, leads[0], le, at, rule, top);
      SpreadLevels(Step(st, leads[0], le), leads[1..], le, at, rule, top);
    } else {
      var owner := BalancedStep(st, leads[0], le, at, rule);
      var next := Step(st, leads[0], le);
      DeficitStep(st.leads, targets, top, owner);
      forall t | t in targets ensures OpenCount(next.leads, t) <= top {
        OpenOneMore(st.leads, owner, t);
      }
      SpreadLevels(next, leads[1..], le, at, rule, top);
    }
  }
}
