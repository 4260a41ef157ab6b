/** What each criterion of a routing rule asks of a lead, and what that means for the rule and the owner
    a lead is given: `ruleMatches`, `selectRule` and `selectOwner` of `packages/contracts/src/assignment.ts`. */
module AssignmentCriteria {
  import opened Text
  import opened Sorting
  import opened Assignment
  import opened AssignmentRuns
  import Identity

  const NO_CRITERIA := Criteria([], [], [], [], None, None)

  /** The same text up to the case of letters and white space around it. */
  predicate SameText(a: string, b: string) {
    Identity.Lower(Trim(a)) == Identity.Lower(Trim(b))
  }

  ghost predicate Restricted(rule: Rule, criteria: Criteria) {
    rule.isActive && rule.criteria == criteria
  }

  // ---------------------------------------------------------------------------
  // One criterion at a time
  // ---------------------------------------------------------------------------

  /** A rule restricted to cities alone takes exactly the leads whose own city is one of them, whatever the rest. */
  lemma CitiesAlone(rule: Rule, lead: LeadInfo, cities: seq<string>)
    requires Restricted(rule, NO_CRITERIA.(cities := cities)) && cities != []
    ensures RuleMatches(rule, lead) <==>
              lead.city.Some? && lead.city.value != "" && exists i :: 0 <= i < |cities| && SameText(cities[i], lead.city.value)
  {
    hide Trim, Identity.Lower;
    PlaceAmong(cities, lead.city);
  }

  lemma StatesAlone(rule: Rule, lead: LeadInfo, states: seq<string>)
    requires Restricted(rule, NO_CRITERIA.(states := states)) && states != []
    ensures RuleMatches(rule, lead) <==>
              lead.state.Some? && lead.state.value != "" && exists i :: 0 <= i < |states| && SameText(states[i], lead.state.value)
  {
    hide Trim, Identity.Lower;
    PlaceAmong(states, lead.state);
  }

  lemma PlaceAmong(wanted: seq<string>, place: Option<string>)
    requires wanted != []
    ensures PlaceMatches(wanted, place) <==>
              place.Some? && place.value != "" && exists i :: 0 <= i < |wanted| && SameText(wanted[i], place.value)
  {
    hide Trim, Identity.Lower;
    if PlaceMatches(wanted, place) {
      var w :| w in wanted && Folded(w) == Folded(place.value);
      var i :| 0 <= i < |wanted| && wanted[i] == w;
      assert SameText(wanted[i], place.value);
    }
    if place.Some? && exists i :: 0 <= i < |wanted| && SameText(wanted[i], place.value) {
      var i :| 0 <= i < |wanted| && SameText(wanted[i], place.value);
      assert wanted[i] in wanted && Folded(wanted[i]) == Folded(place.value);
    }
  }

  /** Sources are compared as they are. */
  lemma SourcesAlone(rule: Rule, lead: LeadInfo, sources: seq<string>)
    requires Restricted(rule, NO_CRITERIA.(sources := sources)) && sources != []
    ensures RuleMatches(rule, lead) <==> exists i :: 0 <= i < |sources| && sources[i] == lead.source
  {
  }

  /** One of the products the lead asks for is enough. */
  lemma ProductsAlone(rule: Rule, lead: LeadInfo, products: seq<string>)
    requires Restricted(rule, NO_CRITERIA.(products := products)) && products != []
    ensures RuleMatches(rule, lead) <==>
              exists i, j :: 0 <= i < |products| && 0 <= j < |lead.products| && products[i] == lead.products[j]
  {
    if RuleMatches(rule, lead) {
      var p :| p in lead.products && p in products;
      var i, j :| 0 <= i < |products| && 0 <= j < |lead.products| && products[i] == p && lead.products[j] == p;
      assert products[i] == lead.products[j];
    }
    if i, j :| 0 <= i < |products| && 0 <= j < |lead.products| && products[i] == lead.products[j] {
      assert lead.products[j] in products;
    }
  }

  /** A lead without a score counts as zero. */
  lemma ScoreAlone(rule: Rule, lead: LeadInfo, minScore: int)
    requires Restricted(rule, NO_CRITERIA.(minScore := Some(minScore)))
    ensures RuleMatches(rule, lead) <==> (lead.score.Some? && minScore <= lead.score.value) || (lead.score.None? && minScore <= 0)
  {
  }

  lemma CampaignAlone(rule: Rule, lead: LeadInfo, campaignId: string)
    requires Restricted(rule, NO_CRITERIA.(campaignId := Some(campaignId))) && campaignId != ""
    ensures RuleMatches(rule, lead) <==> lead.campaignId == Some(campaignId)
  {
  }

  /** The rule with one criterion left. */
  function Only(rule: Rule, criteria: Criteria): Rule {
    rule.(criteria := criteria)
  }

  /** Criteria add up: a rule takes a lead exactly if it would on each of its criteria alone; an empty one asks for
      nothing, and an inactive rule takes no lead. */
  lemma CriteriaAddUp(rule: Rule, lead: LeadInfo)
    ensures var c := rule.criteria;
            RuleMatches(rule, lead) <==>
              && RuleMatches(Only(rule, NO_CRITERIA.(cities := c.cities)), lead) && RuleMatches(Only(rule, NO_CRITERIA.(states := c.states)), lead)
              && RuleMatches(Only(rule, NO_CRITERIA.(sources := c.sources)), lead) && RuleMatches(Only(rule, NO_CRITERIA.(products := c.products)), lead)
              && RuleMatches(Only(rule, NO_CRITERIA.(minScore := c.minScore)), lead) && RuleMatches(Only(rule, NO_CRITERIA.(campaignId := c.campaignId)), lead)
    ensures RuleMatches(Only(rule, NO_CRITERIA), lead) <==> rule.isActive
    ensures RuleMatches(rule, lead) ==> rule.isActive
    ensures RuleMatches(Only(rule, NO_CRITERIA.(campaignId := Some(""))), lead) <==> rule.isActive
  {
    hide PlaceMatches;
    PlaceOfNone(lead.city);
    PlaceOfNone(lead.state);
  }

  lemma PlaceOfNone(place: Option<string>)
    ensures PlaceMatches([], place)
  {
  }

  // ---------------------------------------------------------------------------
  // The rule that fires and the owner it names
  // ---------------------------------------------------------------------------

  /** Each criterion of the rule, said of the lead. */
  ghost predicate Satisfies(c: Criteria, lead: LeadInfo) {
    && (c.cities != [] ==> lead.city.Some? && lead.city.value != "" && exists i :: 0 <= i < |c.cities| && SameText(c.cities[i], lead.city.value))
    && (c.states != [] ==> lead.state.Some? && lead.state.value != "" && exists i :: 0 <= i < |c.states| && SameText(c.states[i], lead.state.value))
    && (c.sources != [] ==> exists i :: 0 <= i < |c.sources| && c.sources[i] == lead.source)
    && (c.products != [] ==> exists i, j :: 0 <= i < |c.products| && 0 <= j < |lead.products| && c.products[i] == lead.products[j])
    && (c.minScore.Some? ==> (lead.score.Some? && c.minScore.value <= lead.score.value) || (lead.score.None? && c.minScore.value <= 0))
    && (c.campaignId.Some? && c.campaignId.value != "" ==> lead.campaignId == c.campaignId)
  }

  lemma MatchesIff(rule: Rule, lead: LeadInfo)
    ensures RuleMatches(rule, lead) <==> rule.isActive && Satisfies(rule.criteria, lead)
  {
    var c := rule.criteria;
    hide RuleMatches, SameText;
    CriteriaAddUp(rule, lead);
    if rule.isActive {
      if c.cities != [] { CitiesAlone(Only(rule, NO_CRITERIA.(cities := c.cities)), lead, c.cities); }
      if c.states != [] { StatesAlone(Only(rule, NO_CRITERIA.(states := c.states)), lead, c.states); }
      if c.sources != [] { SourcesAlone(Only(rule, NO_CRITERIA.(sources := c.sources)), lead, c.sources); }
      if c.products != [] { ProductsAlone(Only(rule, NO_CRITERIA.(products := c.products)), lead, c.products); }
      if c.minScore.Some? { ScoreAlone(Only(rule, NO_CRITERIA.(minScore := c.minScore)), lead, c.minScore.value); }
      if c.campaignId.Some? && c.campaignId.value != "" { CampaignAlone(Only(rule, NO_CRITERIA.(campaignId := c.campaignId)), lead, c.campaignId.value); }
    }
  }

  /** The rule that decides is active and satisfied by the lead, and every other such rule has a higher priority number
      or, with the same number, a name no earlier; without such a rule nothing is decided. */
  lemma DecidingRule(st: Store, lead: LeadInfo, le: (string, string) -> bool)
    requires TotalPreorder(le)
    ensures var made := Resolve(st, lead, le).1;
            if exists r <- st.rules :: r.isActive && Satisfies(r.criteria, lead) then
              exists rule <- st.rules ::
                && rule.isActive && Satisfies(rule.criteria, lead) && made.ruleId == Some(rule.id)
                && (made.ownerId.Some? ==> made.ownerId.value in rule.targets && made.ownerId.value in st.activeUsers && !rule.strategy.LeaveUnassigned?)
                && forall r <- st.rules :: r.isActive && Satisfies(r.criteria, lead) ==>
                     rule.priority < r.priority || (rule.priority == r.priority && le(rule.name, r.name))
            else made == Resolution(None, None)
  {
    hide RuleMatches, SelectRule, Satisfies;
    SelectedRuleIsFirst(st.rules, lead, le);
    OwnerIsActiveTarget(st, lead, le);
    forall r | r in st.rules ensures RuleMatches(r, lead) <==> r.isActive && Satisfies(r.criteria, lead) {
      MatchesIff(r, lead);
    }
    var found := SelectRule(st.rules, lead, le);
    if found.Some? {
      var rule := found.value;
      assert rule in st.rules && rule.isActive && Satisfies(rule.criteria, lead);
      forall r | r in st.rules && r.isActive && Satisfies(r.criteria, lead)
        ensures rule.priority < r.priority || (rule.priority == r.priority && le(rule.name, r.name))
      {
        assert RuleOrder(le)(rule, r);
      }
    }
  }

  ghost function OpenOf(leads: seq<OwnedLead>, userId: Id): set<nat> {
    set i: nat | i < |leads| && leads[i].ownerId == Some(userId) && leads[i].open
  }

  /** The load of somebody is the number of open leads they own. */
  lemma {:induction false} OpenCountIsSize(leads: seq<OwnedLead>, userId: Id)
    ensures OpenCount(leads, userId) == |OpenOf(leads, userId)|
  {
    if leads == [] {
      assert OpenOf(leads, userId) == {};
    } else {
      var n: nat := |leads| - 1;
      OpenCountIsSize(leads[..n], userId);
      assert OpenOf(leads, userId) == OpenOf(leads[..n], userId) + if leads[n].ownerId == Some(userId) && leads[n].open then {n} else {};
    }
  }

  /** Load balancing: nobody among the active targets has fewer open leads than the one chosen, and among those with
      as few the chosen one comes first. */
  lemma EmptiestThenFirst(st: Store, rule: Rule, le: (string, string) -> bool, target: Id)
    requires TotalPreorder(le) && target in Targets(st, rule)
    ensures var owner := SelectOwner(LoadBalanced, Targets(st, rule), WorkloadsFor(rule.targets, st.leads), rule.cursor, le);
            && owner.Some? && owner.value in Targets(st, rule)
            && (OpenCount(st.leads, owner.value) < OpenCount(st.leads, target)
                || (OpenCount(st.leads, owner.value) == OpenCount(st.leads, target) && le(owner.value, target)))
  {
    hide OpenCount, LoadOf, WorkloadsFor;
    var targets := Targets(st, rule);
    var workloads := WorkloadsFor(rule.targets, st.leads);
    var order := LoadOrder(workloads, le);
    SelectElements(rule.targets, IsActive(st.activeUsers));
    SortPermutes(targets, order);
    LoadOrderIsPreorder(workloads, le);
    SortSorts(targets, order);
    var sorted := Sort(targets, order);
    var owner := sorted[0];
    assert owner in sorted && owner in targets && target in sorted;
    LoadOfCount(rule.targets, st.leads, owner);
    LoadOfCount(rule.targets, st.leads, target);
    var i :| 0 <= i < |sorted| && sorted[i] == target;
    if i == 0 { assert order(owner, owner); } else { assert order(sorted[0], sorted[i]); }
  }
}
