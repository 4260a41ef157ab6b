/** Lead routing: the pure selection of `packages/contracts/src/assignment.ts` and the stateful
    resolution of `apps/api/src/modules/assignment/assignment.service.ts`. `le` is the collation order. */
module Assignment {
  import opened Text
  import opened Sorting
  import Identity

  type Id = string

  datatype Strategy = RoundRobin | LoadBalanced | FixedOwner | LeaveUnassigned

  /** An absent or empty list restricts nothing. */
  datatype Criteria = Criteria(
    sources: seq<string>, products: seq<string>, cities: seq<string>, states: seq<string>,
    minScore: Option<int>, campaignId: Option<string>)

  datatype Rule = Rule(
    id: Id, name: string, priority: int, isActive: bool, criteria: Criteria,
    strategy: Strategy, targets: seq<Id>, cursor: nat, assignmentCount: nat)

  datatype LeadInfo = LeadInfo(
    source: string, products: seq<string>, city: Option<string>, state: Option<string>,
    score: Option<int>, campaignId: Option<string>)

  function Folded(s: string): string {
    Identity.Lower(Trim(s))
  }

  predicate PlaceMatches(wanted: seq<string>, place: Option<string>) {
    wanted == [] || (place.Some? && place.value != "" && exists w <- wanted :: Folded(w) == Folded(place.value))
  }

  predicate RuleMatches(rule: Rule, lead: LeadInfo) {
    var c := rule.criteria;
    && rule.isActive
    && (c.sources == [] || lead.source in c.sources)
    && (c.products == [] || exists p <- lead.products :: p in c.products)
    && PlaceMatches(c.cities, lead.city)
    && PlaceMatches(c.states, lead.state)
    && (c.minScore.Some? ==> (if lead.score.Some? then lead.score.value else 0) >= c.minScore.value)
    && (c.campaignId.Some? && c.campaignId.value != "" ==> lead.campaignId == c.campaignId)
  }

  function RuleOrder(le: (string, string) -> bool): (Rule, Rule) -> bool {
    (a: Rule, b: Rule) => a.priority < b.priority || (a.priority == b.priority && le(a.name, b.name))
  }

  function FirstMatch(rules: seq<Rule>, lead: LeadInfo): Option<Rule> {
    if rules == [] then None else if RuleMatches(rules[0], lead) then Some(rules[0]) else FirstMatch(rules[1..], lead)
  }

  function ActiveOnly(): Rule -> bool {
    (r: Rule) => r.isActive
  }

  function SelectRule(rules: seq<Rule>, lead: LeadInfo, le: (string, string) -> bool): Option<Rule> {
    FirstMatch(Sort(Select(rules, ActiveOnly()), RuleOrder(le)), lead)
  }

  datatype Workload = Workload(userId: Id, openLeads: nat)

  function LoadOf(workloads: seq<Workload>, userId: Id): nat {
    if workloads == [] then 0 else if workloads[0].userId == userId then workloads[0].openLeads else LoadOf(workloads[1..], userId)
  }

  /** Fewest open leads first, then by id. */
  function LoadOrder(workloads: seq<Workload>, le: (string, string) -> bool): (Id, Id) -> bool {
    (a: Id, b: Id) => LoadOf(workloads, a) < LoadOf(workloads, b) || (LoadOf(workloads, a) == LoadOf(workloads, b) && le(a, b))
  }

  function SelectOwner(strategy: Strategy, targets: seq<Id>, workloads: seq<Workload>, cursor: nat, le: (string, string) -> bool): Option<Id> {
    if strategy.LeaveUnassigned? || targets == [] then None
    else if strategy.FixedOwner? then Some(targets[0])
    else if strategy.RoundRobin? then Some(targets[cursor % |targets|])
    else
      SortPermutes(targets, LoadOrder(workloads, le));
      Some(Sort(targets, LoadOrder(workloads, le))[0])
  }

  // ---------------------------------------------------------------------------
  // The first matching rule
  // ---------------------------------------------------------------------------

  lemma RuleOrderIsPreorder(le: (string, string) -> bool)
    requires TotalPreorder(le)
    ensures TotalPreorder(RuleOrder(le))
  {
    var order := RuleOrder(le);
    forall x, y ensures order(x, y) || order(y, x) {
      assert le(x.name, y.name) || le(y.name, x.name);
    }
    forall x, y, z | order(x, y) && order(y, z) ensures order(x, z) {
      assert le(x.name, y.name) && le(y.name, z.name) ==> le(x.name, z.name);
    }
  }

  lemma {:induction false} FirstMatchIsFirst(rules: seq<Rule>, lead: LeadInfo)
    ensures var found := FirstMatch(rules, lead);
            if found.Some? then
              exists i :: 0 <= i < |rules| && rules[i] == found.value && RuleMatches(rules[i], lead)
                && forall k :: 0 <= k < i ==> !RuleMatches(rules[k], lead)
            else
              forall r <- rules :: !RuleMatches(r, lead)
  {
    hide RuleMatches;
    if rules != [] && !RuleMatches(rules[0], lead) {
      FirstMatchIsFirst(rules[1..], lead);
      var found := FirstMatch(rules, lead);
      if found.Some? {
        var i :| 0 <= i < |rules| - 1 && rules[1..][i] == found.value && RuleMatches(rules[1..][i], lead)
              && forall k :: 0 <= k < i ==> !RuleMatches(rules[1..][k], lead);
        assert rules[i + 1] == found.value;
        forall k | 0 <= k < i + 1 ensures !RuleMatches(rules[k], lead) {
          if k > 0 { assert rules[k] == rules[1..][k - 1]; }
        }
      }
    }
  }

  /** The rule that fires is a matching one that no other matching rule precedes; none fires only if
      none matches. */
  lemma SelectedRuleIsFirst(rules: seq<Rule>, lead: LeadInfo, le: (string, string) -> bool)
    requires TotalPreorder(le)
    ensures var found := SelectRule(rules, lead, le);
            && (found.Some? <==> exists r <- rules :: RuleMatches(r, lead))
            && (found.Some? ==> found.value in rules && RuleMatches(found.value, lead))
            && (found.Some? ==> forall r <- rules :: RuleMatches(r, lead) ==> RuleOrder(le)(found.value, r))
  {
    var order := RuleOrder(le);
    var active := Select(rules, ActiveOnly());
    var sorted := Sort(active, order);
    SelectElements(rules, ActiveOnly());
    SortPermutes(active, order);
    RuleOrderIsPreorder(le);
    SortSorts(active, order);
    FirstMatchIsFirst(sorted, lead);
    forall r | r in rules && RuleMatches(r, lead) ensures r in sorted {}
    var found := SelectRule(rules, lead, le);
    if found.Some? {
      var i :| 0 <= i < |sorted| && sorted[i] == found.value && RuleMatches(sorted[i], lead)
            && forall k :: 0 <= k < i ==> !RuleMatches(sorted[k], lead);
      forall r | r in rules && RuleMatches(r, lead)
        ensures order(found.value, r)
      {
        var j :| 0 <= j < |sorted| && sorted[j] == r;
        if j == i { assert order(sorted[i], sorted[i]); }
      }
    }
  }

  // ---------------------------------------------------------------------------
  // Resolution
  // ---------------------------------------------------------------------------

  datatype OwnedLead = OwnedLead(ownerId: Option<Id>, open: bool)

  datatype Store = Store(rules: seq<Rule>, activeUsers: set<Id>, leads: seq<OwnedLead>)

  function OpenCount(leads: seq<OwnedLead>, userId: Id): nat {
    if leads == [] then 0
    else OpenCount(leads[..|leads| - 1], userId)
         + if leads[|leads| - 1].ownerId == Some(userId) && leads[|leads| - 1].open then 1 else 0
  }

  /** The grouped count: users without open leads get no row. */
  function WorkloadsFor(userIds: seq<Id>, leads: seq<OwnedLead>): seq<Workload> {
    if userIds == [] then []
    else (if OpenCount(leads, userIds[0]) > 0 then [Workload(userIds[0], OpenCount(leads, userIds[0]))] else [])
         + WorkloadsFor(userIds[1..], leads)
  }

  function IsActive(active: set<Id>): Id -> bool {
    (id: Id) => id in active
  }

  function IndexOfRule(rules: seq<Rule>, id: Id): nat {
    if rules == [] || rules[0].id == id then 0 else 1 + IndexOfRule(rules[1..], id)
  }

  function Bumped(rule: Rule): Rule {
    rule.(cursor := rule.cursor + 1, assignmentCount := rule.assignmentCount + 1)
  }

  datatype Resolution = Resolution(ownerId: Option<Id>, ruleId: Option<Id>)

  /** The decision, without its effect: what a preview shows. */
  function Decide(st: Store, lead: LeadInfo, le: (string, string) -> bool): Resolution {
    match SelectRule(st.rules, lead, le)
    case None => Resolution(None, None)
    case Some(rule) =>
      var workloads := if rule.strategy.LoadBalanced? then WorkloadsFor(rule.targets, st.leads) else [];
      Resolution(SelectOwner(rule.strategy, Select(rule.targets, IsActive(st.activeUsers)), workloads, rule.cursor, le), Some(rule.id))
  }

  /** Only a decision that names an owner advances the rule's cursor. */
  function Resolve(st: Store, lead: LeadInfo, le: (string, string) -> bool): (Store, Resolution) {
    var made := Decide(st, lead, le);
    var at := if made.ruleId.Some? then IndexOfRule(st.rules, made.ruleId.value) else |st.rules|;
    if made.ownerId.Some? && at < |st.rules| then (st.(rules := st.rules[at := Bumped(st.rules[at])]), made) else (st, made)
  }

  /** An owner is named exactly if a rule matches, does not leave leads unassigned and still has an active
      target; and then it is an active target of that rule, the first one for a fixed owner. */
  lemma OwnerIsActiveTarget(st: Store, lead: LeadInfo, le: (string, string) -> bool)
    requires TotalPreorder(le)
    ensures var made := Resolve(st, lead, le).1;
            var found := SelectRule(st.rules, lead, le);
            && (made.ruleId.Some? <==> exists r <- st.rules :: RuleMatches(r, lead))
            && (found.Some? ==> made.ruleId == Some(found.value.id))
            && (made.ownerId.Some? <==>
                  (found.Some? && !found.value.strategy.LeaveUnassigned? && exists t <- found.value.targets :: t in st.activeUsers))
            && (made.ownerId.Some? ==> made.ownerId.value in found.value.targets && made.ownerId.value in st.activeUsers)
            && (made.ownerId.Some? && found.value.strategy.FixedOwner? ==>
                  made.ownerId.value == Select(found.value.targets, IsActive(st.activeUsers))[0])
  {
    hide RuleMatches, SelectRule;
    SelectedRuleIsFirst(st.rules, lead, le);
    var found := SelectRule(st.rules, lead, le);
    if found.Some? {
      SelectElements(found.value.targets, IsActive(st.activeUsers));
      var workloads := if found.value.strategy.LoadBalanced? then WorkloadsFor(found.value.targets, st.leads) else [];
      OwnerAmong(found.value.strategy, Select(found.value.targets, IsActive(st.activeUsers)), workloads, found.value.cursor, le);
    }
  }

  lemma OwnerAmong(strategy: Strategy, targets: seq<Id>, workloads: seq<Workload>, cursor: nat, le: (string, string) -> bool)
    ensures var owner := SelectOwner(strategy, targets, workloads, cursor, le);
            && (owner.Some? <==> !strategy.LeaveUnassigned? && targets != [])
            && (owner.Some? ==> owner.value in targets)
            && (owner.Some? && strategy.FixedOwner? ==> owner.value == targets[0])
  {
    SortPermutes(targets, LoadOrder(workloads, le));
  }

  class Assignments {
    var rules: seq<Rule>
    var activeUsers: set<Id>
    var leads: seq<OwnedLead>

    ghost function Snapshot(): Store
      reads this
    {
      Store(rules, activeUsers, leads)
    }

    method ResolveOwner(lead: LeadInfo, le: (string, string) -> bool) returns (made: Resolution)
      requires TotalPreorder(le)
      modifies this
      ensures (Snapshot(), made) == Resolve(old(Snapshot()), lead, le)
    {
      var rule := SelectRule(rules, lead, le);
      if rule.None? { return Resolution(None, None); }
      var workloads := [];
      if rule.value.strategy.LoadBalanced? {
        workloads := WorkloadsFor(rule.value.targets, leads);
      }
      var activeTargets := Select(rule.value.targets, IsActive(activeUsers));
      if |activeTargets| == 0 { return Resolution(None, Some(rule.value.id)); }
      var ownerId := SelectOwner(rule.value.strategy, activeTargets, workloads, rule.value.cursor, le);
      if ownerId.Some? {
        var at := IndexOfRule(rules, rule.value.id);
        if at < |rules| {
          rules := rules[at := rules[at].(cursor := rules[at].cursor + 1, assignmentCount := rules[at].assignmentCount + 1)];
        }
      }
      made := Resolution(ownerId, Some(rule.value.id));
    }

    method PreviewOwner(lead: LeadInfo, le: (string, string) -> bool) returns (made: Resolution)
      requires TotalPreorder(le)
      ensures made == Resolve(Snapshot(), lead, le).1
    {
      var rule := SelectRule(rules, lead, le);
      if rule.None? { return Resolution(None, None); }
      var workloads := if rule.value.strategy.LoadBalanced? then WorkloadsFor(rule.value.targets, leads) else [];
      var activeTargets := Select(rule.value.targets, IsActive(activeUsers));
      made := Resolution(SelectOwner(rule.value.strategy, activeTargets, workloads, rule.value.cursor, le), Some(rule.value.id));
    }
  }
}
