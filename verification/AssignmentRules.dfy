/** Creating, changing and deleting rules: `createRule`, `updateRule` and `deleteRule` of
    `apps/api/src/modules/assignment/assignment.service.ts`, and why fairness may count on distinct
    targets. */
module AssignmentRules {
  import opened Text
  import opened Sorting
  import opened Assignment
  import opened AssignmentRuns

  datatype Account = Account(active: bool, internal: bool, deleted: bool)

  predicate Assignable(users: map<Id, Account>, id: Id) {
    id in users && users[id].active && users[id].internal && !users[id].deleted
  }

  /** The rows the query finds: one per user, however often the list names it. */
  function Found(users: map<Id, Account>, ids: seq<Id>): set<Id> {
    set id | id in ids && id in users && users[id].internal && !users[id].deleted
  }

  lemma {:induction false} FoundCount(users: map<Id, Account>, ids: seq<Id>)
    ensures |Found(users, ids)| <= |ids|
    ensures |Found(users, ids)| == |ids| <==> Distinct(ids) && forall id <- ids :: id in Found(users, ids)
  {
    if ids == [] {
      assert Found(users, ids) == {};
    } else {
      var earlier, last := ids[..|ids| - 1], ids[|ids| - 1];
      FoundCount(users, earlier);
      assert ids == earlier + [last];
      FoundSnoc(users, earlier, last);
      DistinctSnoc(earlier, last);
      hide Found, Distinct;
      if forall id <- ids :: id in Found(users, ids) {
        assert forall id <- earlier :: id in ids;
        assert last in ids;
      }
    }
  }

  lemma FoundSnoc(users: map<Id, Account>, ids: seq<Id>, last: Id)
    ensures last in Found(users, ids + [last]) ==> Found(users, ids + [last]) == Found(users, ids) + {last}
    ensures last !in Found(users, ids + [last]) ==> Found(users, ids + [last]) == Found(users, ids)
    ensures forall id <- ids :: id in Found(users, ids + [last]) <==> id in Found(users, ids)
    ensures last in Found(users, ids) ==> last in ids
    ensures last in ids && last in Found(users, ids + [last]) ==> last in Found(users, ids)
  {
    assert forall id :: id in ids + [last] <==> id in ids || id == last;
  }

  lemma DistinctSnoc(ids: seq<Id>, last: Id)
    ensures Distinct(ids + [last]) <==> Distinct(ids) && last !in ids
  {
    var more := ids + [last];
    if Distinct(more) {
      assert forall i :: 0 <= i < |ids| ==> more[i] == ids[i];
      assert forall i :: 0 <= i < |ids| ==> more[i] != more[|ids|];
    }
  }

  /** Comparing the number of rows found with the length of the list also catches a name listed twice. */
  method AssertTargetsAreAssignable(users: map<Id, Account>, ids: seq<Id>) returns (ok: bool)
    ensures ok <==> Distinct(ids) && forall id <- ids :: id in users && users[id].active && users[id].internal && !users[id].deleted
    ensures ok <==> AllAssignable(users, ids)
  {
    if |ids| == 0 {
      return true;
    }
    FoundCount(users, ids);
    var found := Found(users, ids);
    if |found| != |ids| {
      return false;
    }
    ok := forall id <- found :: users[id].active;
  }

  datatype Change = Change(
    name: Option<string>, priority: Option<int>, isActive: Option<bool>, criteria: Option<Criteria>,
    strategy: Option<Strategy>, targets: Option<seq<Id>>)

  function Get<T>(change: Option<T>, old_: T): T {
    if change.Some? then change.value else old_
  }

  /** The counters are not the administrator's to change. */
  function Changed(rule: Rule, change: Change): Rule {
    Rule(rule.id, Get(change.name, rule.name), Get(change.priority, rule.priority), Get(change.isActive, rule.isActive),
         Get(change.criteria, rule.criteria), Get(change.strategy, rule.strategy), Get(change.targets, rule.targets),
         rule.cursor, rule.assignmentCount)
  }

  // ---------------------------------------------------------------------------
  // The three changes
  // ---------------------------------------------------------------------------

  datatype Answer = Done | Refused | NotFound

  ghost predicate AllAssignable(users: map<Id, Account>, ids: seq<Id>) {
    Distinct(ids) && forall id <- ids :: Assignable(users, id)
  }

  function Listed(id: Id, fields: Rule): Rule {
    fields.(id := id, cursor := 0, assignmentCount := 0)
  }

  /** `id` is the one the database drew; were it in use, the insert would fail. */
  ghost function Created(rules: seq<Rule>, users: map<Id, Account>, id: Id, fields: Rule): (seq<Rule>, Answer) {
    if !AllAssignable(users, fields.targets) || IndexOfRule(rules, id) < |rules| then (rules, Refused)
    else (rules + [Listed(id, fields)], Done)
  }

  ghost function Updated(rules: seq<Rule>, users: map<Id, Account>, id: Id, change: Change): (seq<Rule>, Answer) {
    var at := IndexOfRule(rules, id);
    if at >= |rules| then (rules, NotFound)
    else if change.targets.Some? && !AllAssignable(users, change.targets.value) then (rules, Refused)
    else (rules[at := Changed(rules[at], change)], Done)
  }

  function Deleted(rules: seq<Rule>, id: Id): (seq<Rule>, Answer) {
    var at := IndexOfRule(rules, id);
    if at >= |rules| then (rules, NotFound) else (rules[..at] + rules[at + 1..], Done)
  }

  /** What every rule in the table satisfies, whoever has left since. */
  ghost predicate ValidRules(rules: seq<Rule>) {
    DistinctRules(rules) && forall r <- rules :: Distinct(r.targets)
  }

  lemma {:induction false} IndexIsAbsent(rules: seq<Rule>, id: Id)
    ensures IndexOfRule(rules, id) <= |rules|
    ensures IndexOfRule(rules, id) == |rules| <==> forall r <- rules :: r.id != id
    decreases |rules|
  {
    if rules != [] && rules[0].id != id {
      IndexIsAbsent(rules[1..], id);
      assert rules == [rules[0]] + rules[1..];
    }
  }

  class RuleBook {
    var rules: seq<Rule>
    var users: map<Id, Account>

    constructor (users: map<Id, Account>)
      ensures ValidRules(rules) && rules == [] && this.users == users
    {
      this.rules, this.users := [], users;
    }

    method CreateRule(id: Id, fields: Rule) returns (answer: Answer)
      modifies this`rules
      ensures (rules, answer) == Created(old(rules), users, id, fields)
    {
      var assignable := AssertTargetsAreAssignable(users, fields.targets);
      if !assignable {
        return Refused;
      }
      if IndexOfRule(rules, id) < |rules| {
        return Refused;
      }
      rules := rules + [Listed(id, fields)];
      return Done;
    }

    method UpdateRule(id: Id, change: Change) returns (answer: Answer)
      modifies this`rules
      ensures (rules, answer) == Updated(old(rules), users, id, change)
    {
      var at := IndexOfRule(rules, id);
      if at >= |rules| {
        return NotFound;
      }
      if change.targets.Some? {
        var assignable := AssertTargetsAreAssignable(users, change.targets.value);
        if !assignable {
          return Refused;
        }
      }
      rules := rules[at := Changed(rules[at], change)];
      return Done;
    }

    method DeleteRule(id: Id) returns (answer: Answer)
      modifies this`rules
      ensures (rules, answer) == Deleted(old(rules), id)
    {
      var at := IndexOfRule(rules, id);
      if at >= |rules| {
        return NotFound;
      }
      rules := rules[..at] + rules[at + 1..];
      return Done;
    }
  }

  const NO_CHANGE := Change(None, None, None, None, None, None)

  /** A change sets what it names and nothing else, whatever else it names; and leaves the counters to routing. */
  lemma ChangesWhatItNames(rule: Rule, change: Change, name: string, priority: int, isActive: bool, criteria: Criteria,
                           strategy: Strategy, targets: seq<Id>)
    ensures Changed(rule, NO_CHANGE) == rule
    ensures Changed(rule, change.(name := Some(name))) == Changed(rule, change.(name := None)).(name := name)
    ensures Changed(rule, change.(priority := Some(priority))) == Changed(rule, change.(priority := None)).(priority := priority)
    ensures Changed(rule, change.(isActive := Some(isActive))) == Changed(rule, change.(isActive := None)).(isActive := isActive)
    ensures Changed(rule, change.(criteria := Some(criteria))) == Changed(rule, change.(criteria := None)).(criteria := criteria)
    ensures Changed(rule, change.(strategy := Some(strategy))) == Changed(rule, change.(strategy := None)).(strategy := strategy)
    ensures Changed(rule, change.(targets := Some(targets))) == Changed(rule, change.(targets := None)).(targets := targets)
  {
  }

  /** A new rule starts its counters at zero behind all others. */
  lemma TableAfterCreation(rules: seq<Rule>, users: map<Id, Account>, id: Id, fields: Rule)
    ensures var (after, answer) := Created(rules, users, id, fields);
            && answer != NotFound
            && (answer == Done <==> AllAssignable(users, fields.targets) && forall r <- rules :: r.id != id)
            && after == if answer == Done
                        then rules + [Rule(id, fields.name, fields.priority, fields.isActive, fields.criteria, fields.strategy, fields.targets, 0, 0)]
                        else rules
  {
    hide AllAssignable;
    IndexIsAbsent(rules, id);
  }

  /** A changed rule stays in its place, and no other changes. */
  lemma TableAfterUpdate(rules: seq<Rule>, users: map<Id, Account>, id: Id, change: Change)
    requires DistinctRules(rules)
    ensures var (after, answer) := Updated(rules, users, id, change);
            && (answer == NotFound <==> forall r <- rules :: r.id != id)
            && (answer == Done <==> (exists r <- rules :: r.id == id) && (change.targets.Some? ==> AllAssignable(users, change.targets.value)))
            && |after| == |rules|
            && forall i :: 0 <= i < |rules| ==> after[i] == if answer == Done && rules[i].id == id then Changed(rules[i], change) else rules[i]
  {
    hide AllAssignable, Changed;
    IndexIsAbsent(rules, id);
    if IndexOfRule(rules, id) < |rules| {
      IndexHits(rules, id);
    }
  }

  /** A deleted rule is the only one to go. */
  lemma TableAfterDeletion(rules: seq<Rule>, id: Id)
    requires DistinctRules(rules)
    ensures var (after, answer) := Deleted(rules, id);
            && answer != Refused && (answer == NotFound <==> forall r <- rules :: r.id != id)
            && (forall r :: r in after <==> r in rules && r.id != id)
            && |after| == |rules| - if answer == Done then 1 else 0
  {
    IndexIsAbsent(rules, id);
    var at := IndexOfRule(rules, id);
    if at < |rules| {
      IndexHits(rules, id);
      hide IndexOfRule;
      assert forall i :: 0 <= i < |rules| && i != at ==> rules[i].id != id;
      assert rules == rules[..at] + [rules[at]] + rules[at + 1..];
    }
  }

  lemma {:induction false} IndexHits(rules: seq<Rule>, id: Id)
    requires IndexOfRule(rules, id) < |rules|
    ensures rules[IndexOfRule(rules, id)].id == id
    decreases |rules|
  {
    if rules[0].id != id {
      IndexHits(rules[1..], id);
    }
  }

  // ---------------------------------------------------------------------------
  // Histories
  // ---------------------------------------------------------------------------

  /** Everything that bears on routing: rules change, leads are routed, people come and go, and leads are
      created, closed and handed over in other ways. */
  datatype Event =
    | Creating(id: Id, fields: Rule)
    | Updating(id: Id, change: Change)
    | Deleting(id: Id)
    | Routing(lead: LeadInfo)
    | Staffing(userId: Id, account: Account)
    | Working(leads: seq<OwnedLead>)

  datatype Office = Office(rules: seq<Rule>, users: map<Id, Account>, leads: seq<OwnedLead>)

  function ActiveIds(users: map<Id, Account>): set<Id> {
    set id | id in users && users[id].active && !users[id].deleted
  }

  function StoreOf(o: Office): Store {
    Store(o.rules, ActiveIds(o.users), o.leads)
  }

  ghost function Happen(o: Office, event: Event, le: (string, string) -> bool): Office {
    match event
    case Creating(id, fields) => o.(rules := Created(o.rules, o.users, id, fields).0)
    case Updating(id, change) => o.(rules := Updated(o.rules, o.users, id, change).0)
    case Deleting(id) => o.(rules := Deleted(o.rules, id).0)
    case Routing(lead) =>
      var st := Step(StoreOf(o), lead, le);
      o.(rules := st.rules, leads := st.leads)
    case Staffing(userId, account) => o.(users := o.users[userId := account])
    case Working(leads) => o.(leads := leads)
  }

  ghost function After(o: Office, events: seq<Event>, le: (string, string) -> bool): Office
    decreases |events|
  {
    if events == [] then o else After(Happen(o, events[0], le), events[1..], le)
  }

  lemma ChangeKeepsValid(rules: seq<Rule>, users: map<Id, Account>, id: Id, fields: Rule, change: Change)
    requires ValidRules(rules)
    ensures ValidRules(Created(rules, users, id, fields).0)
    ensures ValidRules(Updated(rules, users, id, change).0)
    ensures ValidRules(Deleted(rules, id).0)
  {
    hide Distinct, Assignable;
    IndexIsAbsent(rules, id);
  }

  lemma StepKeepsValid(st: Store, lead: LeadInfo, le: (string, string) -> bool)
    requires ValidRules(st.rules)
    ensures ValidRules(Step(st, lead, le).rules)
  {
    hide Decide, Distinct;
  }

  /** Over every history the rules keep distinct ids and distinct targets. */
  lemma {:induction false} HistoryKeepsValid(o: Office, events: seq<Event>, le: (string, string) -> bool)
    requires ValidRules(o.rules)
    ensures ValidRules(After(o, events, le).rules)
    decreases |events|
  {
    hide ValidRules, Created, Updated, Deleted, Step;
    if events != [] {
      match events[0] {
        case Creating(id, fields) => ChangeKeepsValid(o.rules, o.users, id, fields, Change(None, None, None, None, None, None));
        case Updating(id, change) => ChangeKeepsValid(o.rules, o.users, id, AnyRule(), change);
        case Deleting(id) => ChangeKeepsValid(o.rules, o.users, id, AnyRule(), Change(None, None, None, None, None, None));
        case Routing(lead) => StepKeepsValid(StoreOf(o), lead, le);
        case Staffing(_, _) =>
        case Working(_) =>
      }
      HistoryKeepsValid(Happen(o, events[0], le), events[1..], le);
    }
  }

  function AnyRule(): Rule {
    Rule("", "", 0, false, Criteria([], [], [], [], None, None), LeaveUnassigned, [], 0, 0)
  }

  lemma {:induction false} SelectKeepsDistinct(ids: seq<Id>, keep: Id -> bool)
    requires Distinct(ids)
    ensures Distinct(Select(ids, keep))
  {
    if ids != [] {
      SelectKeepsDistinct(ids[1..], keep);
      SelectElements(ids[1..], keep);
      assert ids[0] !in ids[1..];
    }
  }

  /** After any history that starts without rules, whichever round-robin rule is in the table then gives
      each of its still active targets floor(k/n) or ceil(k/n) of the next k leads it hands out. */
  lemma AdministeredRuleIsFair(users: map<Id, Account>, first: seq<OwnedLead>, events: seq<Event>,
                               leads: seq<LeadInfo>, le: (string, string) -> bool, at: nat, target: Id)
    requires TotalPreorder(le)
    requires var o := After(Office([], users, first), events, le);
             && at < |o.rules| && o.rules[at].strategy.RoundRobin?
             && target in o.rules[at].targets && target in StoreOf(o).activeUsers
    ensures var o := After(Office([], users, first), events, le);
            var owners := OwnersBy(StoreOf(o), leads, le, o.rules[at].id);
            var n := |Targets(StoreOf(o), o.rules[at])|;
            n > 0 && |owners| / n <= Count(Some(target), owners) <= (|owners| + n - 1) / n
  {
    hide After, OwnersBy, Count;
    var o := After(Office([], users, first), events, le);
    var rule, st := o.rules[at], StoreOf(o);
    HistoryKeepsValid(Office([], users, first), events, le);
    assert rule in o.rules;
    SelectKeepsDistinct(rule.targets, IsActive(st.activeUsers));
    SelectElements(rule.targets, IsActive(st.activeUsers));
    RoundRobinIsFair(st, leads, le, at, rule, target);
  }
}
