/** Merging two leads: `packages/contracts/src/merge.ts` and the transaction in
    `apps/api/src/modules/duplicates/duplicates.service.ts`. */
module LeadMerge {
  import opened Text

  type Id = string

  datatype Field = LastName | Email | Pan | City | State | Pincode | EstimatedValue | PartnerId | CampaignId | EventId

  function MergeableFields(): seq<Field> {
    [LastName, Email, Pan, City, State, Pincode, EstimatedValue, PartnerId, CampaignId, EventId]
  }

  datatype Status = New | Contacted | Qualified | Proposal | Converted | Lost | Disqualified

  /** A field that is absent from `values` is null. */
  datatype Lead = Lead(
    status: Status, mobile: string, values: map<Field, string>,
    deleted: bool, customerId: Option<Id>, mergedIntoId: Option<Id>)

  type Leads = map<Id, Lead>

  function Value(lead: Lead, field: Field): Option<string> {
    if field in lead.values then Some(lead.values[field]) else None
  }

  predicate IsEmpty(value: Option<string>) {
    value.None? || value.value == ""
  }

  // ---------------------------------------------------------------------------
  // Preview and eligibility
  // ---------------------------------------------------------------------------

  datatype Outcome = Outcome(field: Field, value: Option<string>, discarded: Option<string>, gained: bool)

  function OutcomeFor(survivor: Lead, duplicate: Lead, field: Field): Outcome {
    var mine, theirs := Value(survivor, field), Value(duplicate, field);
    if IsEmpty(theirs) then Outcome(field, mine, None, false)
    else if IsEmpty(mine) then Outcome(field, theirs, None, true)
    else Outcome(field, mine, if mine == theirs then None else theirs, false)
  }

  /** What the survivor gains, out of the first `n` fields. */
  function GainedAmong(survivor: Lead, duplicate: Lead, n: nat): map<Field, string>
    requires n <= |MergeableFields()|
  {
    if n == 0 then map[]
    else
      var outcome := OutcomeFor(survivor, duplicate, MergeableFields()[n - 1]);
      var before := GainedAmong(survivor, duplicate, n - 1);
      if outcome.gained then before[outcome.field := outcome.value.value] else before
  }

  function GainedValues(survivor: Lead, duplicate: Lead): map<Field, string> {
    GainedAmong(survivor, duplicate, |MergeableFields()|)
  }

  function FromEntries(outcomes: seq<Outcome>): map<Field, string>
    requires forall o <- outcomes :: o.value.Some?
  {
    if outcomes == [] then map[]
    else FromEntries(outcomes[..|outcomes| - 1])[outcomes[|outcomes| - 1].field := outcomes[|outcomes| - 1].value.value]
  }

  method PreviewMerge(survivor: Lead, duplicate: Lead) returns (fields: seq<Outcome>, conflicts: seq<Outcome>, gains: seq<Outcome>)
    ensures |fields| == |MergeableFields()|
    ensures forall i :: 0 <= i < |fields| ==> fields[i] == OutcomeFor(survivor, duplicate, MergeableFields()[i])
    ensures forall o :: o in conflicts <==> o in fields && o.discarded.Some?
    ensures forall o :: o in gains <==> o in fields && o.gained
    ensures (forall o <- gains :: o.value.Some?) && FromEntries(gains) == GainedValues(survivor, duplicate)
  {
    hide MergeableFields;
    fields, conflicts, gains := [], [], [];
    for i := 0 to |MergeableFields()|
      invariant |fields| == i
      invariant forall k :: 0 <= k < i ==> fields[k] == OutcomeFor(survivor, duplicate, MergeableFields()[k])
      invariant forall o :: o in conflicts <==> o in fields && o.discarded.Some?
      invariant forall o :: o in gains <==> o in fields && o.gained
      invariant (forall o <- gains :: o.value.Some?) && FromEntries(gains) == GainedAmong(survivor, duplicate, i)
    {
      var field := MergeableFields()[i];
      var mine, theirs := Value(survivor, field), Value(duplicate, field);
      var outcome: Outcome;
      if IsEmpty(theirs) {
        outcome := Outcome(field, mine, None, false);
      } else if IsEmpty(mine) {
        outcome := Outcome(field, theirs, None, true);
      } else {
        var same := mine == theirs;
        outcome := Outcome(field, mine, if same then None else theirs, false);
      }
      fields := fields + [outcome];
      if outcome.discarded.Some? { conflicts := conflicts + [outcome]; }
      if outcome.gained {
        assert (gains + [outcome])[..|gains|] == gains;
        gains := gains + [outcome];
      }
    }
  }

  /** Field by field: a field is gained exactly when the preview says so. */
  lemma {:induction false} GainedAt(survivor: Lead, duplicate: Lead, n: nat, f: Field)
    requires n <= |MergeableFields()|
    ensures var gains := GainedAmong(survivor, duplicate, n);
            var o := OutcomeFor(survivor, duplicate, f);
            && (f in gains <==> f in MergeableFields()[..n] && o.gained)
            && (f in gains ==> o.value == Some(gains[f]))
  {
    hide MergeableFields;
    if n > 0 {
      GainedAt(survivor, duplicate, n - 1, f);
      assert MergeableFields()[..n] == MergeableFields()[..n - 1] + [MergeableFields()[n - 1]];
    }
  }

  datatype Refusal = NotFound | MergedIntoItself | SurvivorMerged | DuplicateMerged | DuplicateConverted | UniqueViolation

  function CanMergeLeads(survivorId: Id, survivor: Lead, duplicateId: Id, duplicate: Lead): Option<Refusal> {
    if survivorId == duplicateId then Some(MergedIntoItself)
    else if survivor.mergedIntoId.Some? then Some(SurvivorMerged)
    else if duplicate.mergedIntoId.Some? then Some(DuplicateMerged)
    else if duplicate.status.Converted? || duplicate.customerId.Some? then Some(DuplicateConverted)
    else None
  }

  // ---------------------------------------------------------------------------
  // The tables and the writes
  // ---------------------------------------------------------------------------

  /** A row of history: an activity, task, document or consent, and the lead it belongs to, if any. */
  datatype Row = Row(leadId: Option<Id>, content: string)

  datatype Db = Db(leads: Leads, activities: seq<Row>, tasks: seq<Row>, documents: seq<Row>, consents: seq<Row>)

  /** First write: the duplicate is closed. */
  function Closed(leads: Leads, s: Id, d: Id): Leads
    requires d in leads
  {
    leads[d := leads[d].(mergedIntoId := Some(s), status := Disqualified)]
  }

  /** Second write: the survivor takes what the preview says it gains. */
  function Filled(leads: Leads, s: Id, gains: map<Field, string>): Leads
    requires s in leads
  {
    leads[s := leads[s].(values := leads[s].values + gains)]
  }

  /** The other writes: history follows the person. */
  function Moved(rows: seq<Row>, s: Id, d: Id): (after: seq<Row>)
    ensures |after| == |rows|
  {
    seq(|rows|, i requires 0 <= i < |rows| => if rows[i].leadId == Some(d) then rows[i].(leadId := Some(s)) else rows[i])
  }

  predicate Active(lead: Lead) {
    !lead.deleted && !lead.status.Converted? && !lead.status.Lost? && !lead.status.Disqualified?
  }

  /** The two partial unique indexes: active leads share neither mobile nor PAN. */
  ghost predicate IndexesHold(leads: Leads) {
    forall a, b :: a in leads && b in leads && a != b && Active(leads[a]) && Active(leads[b]) ==>
      leads[a].mobile != leads[b].mobile && (Value(leads[a], Pan).Some? ==> Value(leads[a], Pan) != Value(leads[b], Pan))
  }

  /** Would the second write put a PAN on the survivor that another active lead already holds? */
  predicate PanTaken(leads: Leads, s: Id, d: Id, gains: map<Field, string>)
    requires s in leads && d in leads
  {
    Active(leads[s]) && Pan in gains
    && exists other <- leads :: other != s && other != d && Active(leads[other]) && Value(leads[other], Pan) == Some(gains[Pan])
  }

  function Merge(db: Db, inScope: set<Id>, s: Id, d: Id, note: string): (Db, Option<Refusal>) {
    if s !in db.leads || d !in db.leads || db.leads[s].deleted || db.leads[d].deleted || s !in inScope || d !in inScope
    then (db, Some(NotFound))
    else
      var refusal := CanMergeLeads(s, db.leads[s], d, db.leads[d]);
      var gains := GainedValues(db.leads[s], db.leads[d]);
      if refusal.Some? then (db, refusal)
      else if PanTaken(db.leads, s, d, gains) then (db, Some(UniqueViolation))
      else
        (Db(Filled(Closed(db.leads, s, d), s, gains),
            Moved(db.activities, s, d) + [Row(Some(s), note)], Moved(db.tasks, s, d), Moved(db.documents, s, d), Moved(db.consents, s, d)),
         None)
  }

  /** Two different leads in scope, neither deleted nor merged away, the duplicate not a customer, and no
      third active lead holding the PAN the survivor would gain. */
  predicate Mergeable(db: Db, inScope: set<Id>, s: Id, d: Id) {
    && s != d && s in db.leads && d in db.leads && s in inScope && d in inScope
    && !db.leads[s].deleted && !db.leads[d].deleted
    && db.leads[s].mergedIntoId.None? && db.leads[d].mergedIntoId.None?
    && !db.leads[d].status.Converted? && db.leads[d].customerId.None?
    && !PanTaken(db.leads, s, d, GainedValues(db.leads[s], db.leads[d]))
  }

  lemma MergesIff(db: Db, inScope: set<Id>, s: Id, d: Id, note: string)
    ensures Merge(db, inScope, s, d, note).1.None? <==> Mergeable(db, inScope, s, d)
    ensures Merge(db, inScope, s, d, note).1.Some? ==> Merge(db, inScope, s, d, note).0 == db
  {
    hide GainedValues, PanTaken;
  }

  class Duplicates {
    var leads: Leads
    var activities: seq<Row>
    var tasks: seq<Row>
    var documents: seq<Row>
    var consents: seq<Row>

    ghost function Snapshot(): Db
      reads this
    {
      Db(leads, activities, tasks, documents, consents)
    }

    /** One transaction: a violated index undoes all of it. */
    method MergeLeads(inScope: set<Id>, survivorId: Id, duplicateId: Id, note: string) returns (refusal: Option<Refusal>)
      requires IndexesHold(leads)
      modifies this
      ensures (Snapshot(), refusal) == Merge(old(Snapshot()), inScope, survivorId, duplicateId, note)
      ensures refusal.None? <==> Mergeable(old(Snapshot()), inScope, survivorId, duplicateId)
      ensures refusal.Some? ==> Snapshot() == old(Snapshot())
      ensures IndexesHold(leads)
    {
      MergesIff(Snapshot(), inScope, survivorId, duplicateId, note);
      hide Mergeable;
      if survivorId !in leads || leads[survivorId].deleted || survivorId !in inScope { return Some(NotFound); }
      if duplicateId !in leads || leads[duplicateId].deleted || duplicateId !in inScope { return Some(NotFound); }
      var survivor, duplicate := leads[survivorId], leads[duplicateId];
      refusal := CanMergeLeads(survivorId, survivor, duplicateId, duplicate);
      if refusal.Some? { return; }
      var fields, conflicts, gains := PreviewMerge(survivor, duplicate);
      hide IndexesHold, GainedValues, FromEntries, PanTaken, OutcomeFor, Active;
      var taken := FromEntries(gains);
      IndexesBetweenWrites(leads, survivorId, duplicateId);

      var rollback := leads;
      leads := leads[duplicateId := duplicate.(mergedIntoId := Some(survivorId), status := Disqualified)];
      assert IndexesHold(leads);
      if PanTaken(rollback, survivorId, duplicateId, taken) {
        leads := rollback;
        return Some(UniqueViolation);
      }
      leads := leads[survivorId := survivor.(values := survivor.values + taken)];
      assert IndexesHold(leads);
      activities := Moved(activities, survivorId, duplicateId);
      tasks := Moved(tasks, survivorId, duplicateId);
      documents := Moved(documents, survivorId, duplicateId);
      consents := Moved(consents, survivorId, duplicateId);
      activities := activities + [Row(Some(survivorId), note)];
    }
  }

  // ---------------------------------------------------------------------------
  // Preview and result
  // ---------------------------------------------------------------------------

  lemma AllFieldsMergeable(f: Field)
    ensures f in MergeableFields()
  {
    match f {
      case LastName => assert MergeableFields()[0] == f;
      case Email => assert MergeableFields()[1] == f;
      case Pan => assert MergeableFields()[2] == f;
      case City => assert MergeableFields()[3] == f;
      case State => assert MergeableFields()[4] == f;
      case Pincode => assert MergeableFields()[5] == f;
      case EstimatedValue => assert MergeableFields()[6] == f;
      case PartnerId => assert MergeableFields()[7] == f;
      case CampaignId => assert MergeableFields()[8] == f;
      case EventId => assert MergeableFields()[9] == f;
    }
  }

  lemma GainedAny(survivor: Lead, duplicate: Lead, f: Field)
    ensures var gains := GainedValues(survivor, duplicate);
            var o := OutcomeFor(survivor, duplicate, f);
            (f in gains <==> o.gained) && (f in gains ==> o.value == Some(gains[f]))
  {
    AllFieldsMergeable(f);
    GainedAt(survivor, duplicate, |MergeableFields()|, f);
    assert MergeableFields()[..|MergeableFields()|] == MergeableFields();
  }

  /** After a merge every field of the survivor is what the preview showed; a filled field is never
      overwritten, and an empty one takes the duplicate's value when there is one. */
  lemma SurvivorIsPreview(db: Db, inScope: set<Id>, s: Id, d: Id, note: string, f: Field)
    requires Merge(db, inScope, s, d, note).1.None?
    ensures var before, gone, after := db.leads[s], db.leads[d], Merge(db, inScope, s, d, note).0.leads[s];
            && Value(after, f) == OutcomeFor(before, gone, f).value
            && (!IsEmpty(Value(before, f)) ==> Value(after, f) == Value(before, f))
            && (IsEmpty(Value(before, f)) && !IsEmpty(Value(gone, f)) ==> Value(after, f) == Value(gone, f))
            && after == before.(values := after.values)
  {
    GainedAny(db.leads[s], db.leads[d], f);
  }

  // ---------------------------------------------------------------------------
  // The indexes between the writes
  // ---------------------------------------------------------------------------

  /** After the first write the indexes hold; after the second they hold exactly when no third active
      lead has the PAN the survivor gains. */
  lemma IndexesBetweenWrites(leads: Leads, s: Id, d: Id)
    requires IndexesHold(leads) && s in leads && d in leads && CanMergeLeads(s, leads[s], d, leads[d]).None?
    ensures var gains := GainedValues(leads[s], leads[d]);
            && IndexesHold(Closed(leads, s, d))
            && (IndexesHold(Filled(Closed(leads, s, d), s, gains)) <==> !PanTaken(leads, s, d, gains))
  {
    var gains := GainedValues(leads[s], leads[d]);
    var closed := Closed(leads, s, d);
    var filled := Filled(closed, s, gains);
    assert !Active(closed[d]) && Active(filled[s]) == Active(leads[s]);
    assert Value(filled[s], Pan) == if Pan in gains then Some(gains[Pan]) else Value(leads[s], Pan);
    if PanTaken(leads, s, d, gains) {
      var other :| other in leads && other != s && other != d && Active(leads[other]) && Value(leads[other], Pan) == Some(gains[Pan]);
      assert filled[other] == leads[other];
    } else {
      forall a, b | a in filled && b in filled && a != b && Active(filled[a]) && Active(filled[b])
        ensures filled[a].mobile != filled[b].mobile
        ensures Value(filled[a], Pan).Some? ==> Value(filled[a], Pan) != Value(filled[b], Pan)
      {
        assert a != d && b != d;
        assert a != s ==> filled[a] == leads[a];
        assert b != s ==> filled[b] == leads[b];
        assert leads[a].mobile != leads[b].mobile;
      }
    }
  }

  /** Merging an active duplicate never trips the indexes. */
  lemma ActiveDuplicateMerges(leads: Leads, s: Id, d: Id)
    requires IndexesHold(leads) && s in leads && d in leads && s != d && Active(leads[d])
    ensures !PanTaken(leads, s, d, GainedValues(leads[s], leads[d]))
  {
    var gains := GainedValues(leads[s], leads[d]);
    GainedAny(leads[s], leads[d], Pan);
    if Pan in gains {
      assert Value(leads[d], Pan) == Some(gains[Pan]);
    }
  }

  /** Three leads on which a merge fails: the duplicate was lost, and meanwhile the person came back. */
  lemma LostDuplicateTrips(s: Id, d: Id, other: Id, pan: string)
    requires s != d && s != other && d != other && pan != ""
    ensures var leads := map[s := Lead(New, "1", map[], false, None, None),
                             d := Lead(Lost, "2", map[Pan := pan], false, None, None),
                             other := Lead(New, "3", map[Pan := pan], false, None, None)];
            && IndexesHold(leads) && CanMergeLeads(s, leads[s], d, leads[d]).None?
            && PanTaken(leads, s, d, GainedValues(leads[s], leads[d]))
            && !IndexesHold(Filled(Closed(leads, s, d), s, GainedValues(leads[s], leads[d])))
  {
    var leads := map[s := Lead(New, "1", map[], false, None, None),
                     d := Lead(Lost, "2", map[Pan := pan], false, None, None),
                     other := Lead(New, "3", map[Pan := pan], false, None, None)];
    GainedAny(leads[s], leads[d], Pan);
    assert Active(leads[other]) && Value(leads[other], Pan) == Some(pan);
    IndexesBetweenWrites(leads, s, d);
  }

  /** The order of the first two writes matters: filling the survivor while an active duplicate still
      holds the PAN breaks the index. */
  lemma FillingFirstBreaksIndex(leads: Leads, s: Id, d: Id)
    requires s in leads && d in leads && s != d && Active(leads[s]) && Active(leads[d])
    requires IsEmpty(Value(leads[s], Pan)) && !IsEmpty(Value(leads[d], Pan))
    ensures !IndexesHold(Filled(leads, s, GainedValues(leads[s], leads[d])))
  {
    GainedAny(leads[s], leads[d], Pan);
    var filled := Filled(leads, s, GainedValues(leads[s], leads[d]));
    assert Value(filled[s], Pan) == Value(filled[d], Pan);
  }

  // ---------------------------------------------------------------------------
  // Runs of merges
  // ---------------------------------------------------------------------------

  datatype Call = Call(inScope: set<Id>, survivorId: Id, duplicateId: Id, note: string)

  function Step(db: Db, call: Call): Db {
    Merge(db, call.inScope, call.survivorId, call.duplicateId, call.note).0
  }

  function Run(db: Db, calls: seq<Call>): Db
    decreases |calls|
  {
    if calls == [] then db else Run(Step(db, calls[0]), calls[1..])
  }

  /** Following `mergedIntoId` from `id` arrives, after `n` links, at `root`, which is not merged. */
  ghost predicate EndsAt(leads: Leads, id: Id, n: nat, root: Id)
    decreases n
  {
    && id in leads
    && if n == 0 then id == root && leads[id].mergedIntoId.None?
       else leads[id].mergedIntoId.Some? && EndsAt(leads, leads[id].mergedIntoId.value, n - 1, root)
  }

  ghost predicate Rooted(leads: Leads, id: Id, root: Id) {
    exists n: nat :: EndsAt(leads, id, n, root)
  }

  /** The links form a forest whose roots are the unmerged leads. */
  ghost predicate Forest(leads: Leads) {
    forall id <- leads :: exists root :: Rooted(leads, id, root)
  }

  lemma {:induction false} MergeExtends(leads: Leads, after: Leads, s: Id, d: Id, id: Id, n: nat, root: Id)
    requires s in leads && d in leads && s != d && leads[s].mergedIntoId.None? && leads[d].mergedIntoId.None?
    requires after.Keys == leads.Keys && after[d].mergedIntoId == Some(s)
    requires forall k <- leads :: k != d ==> after[k].mergedIntoId == leads[k].mergedIntoId
    requires EndsAt(leads, id, n, root)
    ensures EndsAt(after, id, if root == d then n + 1 else n, if root == d then s else root)
    decreases n
  {
    if n > 0 {
      MergeExtends(leads, after, s, d, leads[id].mergedIntoId.value, n - 1, root);
    } else if root == d {
      assert EndsAt(after, s, 0, s);
    }
  }

  /** One call moves the root of everything that ended at the duplicate to the survivor, and no other. */
  lemma StepMovesRoots(db: Db, call: Call, id: Id, root: Id)
    requires Rooted(db.leads, id, root)
    ensures Rooted(Step(db, call).leads, id,
                   if Step(db, call) != db && root == call.duplicateId then call.survivorId else root)
  {
    var after := Step(db, call);
    if Merge(db, call.inScope, call.survivorId, call.duplicateId, call.note).1.None? {
      var n :| EndsAt(db.leads, id, n, root);
      MergeExtends(db.leads, after.leads, call.survivorId, call.duplicateId, id, n, root);
      assert |after.activities| == |db.activities| + 1;
    }
  }

  lemma {:induction false} RunKeepsForest(db: Db, calls: seq<Call>)
    requires Forest(db.leads)
    ensures Forest(Run(db, calls).leads) && Run(db, calls).leads.Keys == db.leads.Keys
    decreases |calls|
  {
    if calls != [] {
      var next := Step(db, calls[0]);
      assert next.leads.Keys == db.leads.Keys;
      forall id | id in next.leads
        ensures exists root :: Rooted(next.leads, id, root)
      {
        var root :| Rooted(db.leads, id, root);
        StepMovesRoots(db, calls[0], id, root);
      }
      RunKeepsForest(next, calls[1..]);
    }
  }

  /** A converted lead that was not merged away is never merged away, and stays converted. */
  predicate Kept(lead: Lead) {
    lead.mergedIntoId.None? && (lead.status.Converted? || lead.customerId.Some?)
  }

  lemma {:induction false} ConvertedNeverMergedAway(db: Db, calls: seq<Call>, id: Id)
    requires id in db.leads && Kept(db.leads[id])
    ensures id in Run(db, calls).leads && Kept(Run(db, calls).leads[id])
    ensures Run(db, calls).leads[id].status == db.leads[id].status && Run(db, calls).leads[id].customerId == db.leads[id].customerId
    decreases |calls|
  {
    if calls != [] {
      ConvertedNeverMergedAway(Step(db, calls[0]), calls[1..], id);
    }
  }

  /** Row `i` of `now` is row `i` of `start`, and sits on the root its lead's chain ends at. */
  ghost predicate Followed(start: seq<Row>, leads: Leads, now: seq<Row>) {
    && |start| <= |now|
    && forall i :: 0 <= i < |start| ==>
      && now[i].content == start[i].content
      && (start[i].leadId.None? ==> now[i] == start[i])
      && (start[i].leadId.Some? ==> now[i].leadId.Some? && Rooted(leads, start[i].leadId.value, now[i].leadId.value))
  }

  lemma StepFollows(start: seq<Row>, db: Db, call: Call, now: seq<Row>, extra: seq<Row>)
    requires Followed(start, db.leads, now) && Step(db, call) != db
    ensures Followed(start, Step(db, call).leads, Moved(now, call.survivorId, call.duplicateId) + extra)
  {
    forall i | 0 <= i < |start| && start[i].leadId.Some?
      ensures Rooted(Step(db, call).leads, start[i].leadId.value,
                     if now[i].leadId.value == call.duplicateId then call.survivorId else now[i].leadId.value)
    {
      StepMovesRoots(db, call, start[i].leadId.value, now[i].leadId.value);
    }
  }

  ghost predicate AllFollowed(start: Db, now: Db) {
    && Followed(start.activities, now.leads, now.activities)
    && Followed(start.tasks, now.leads, now.tasks) && |now.tasks| == |start.tasks|
    && Followed(start.documents, now.leads, now.documents) && |now.documents| == |start.documents|
    && Followed(start.consents, now.leads, now.consents) && |now.consents| == |start.consents|
  }

  lemma StepKeepsHistory(start: Db, db: Db, call: Call)
    requires AllFollowed(start, db)
    ensures AllFollowed(start, Step(db, call))
  {
    var next := Step(db, call);
    if next != db {
      var s, d := call.survivorId, call.duplicateId;
      StepFollows(start.activities, db, call, db.activities, [Row(Some(s), call.note)]);
      StepFollows(start.tasks, db, call, db.tasks, []);
      StepFollows(start.documents, db, call, db.documents, []);
      StepFollows(start.consents, db, call, db.consents, []);
      assert Moved(db.tasks, s, d) + [] == Moved(db.tasks, s, d);
      assert Moved(db.documents, s, d) + [] == Moved(db.documents, s, d);
      assert Moved(db.consents, s, d) + [] == Moved(db.consents, s, d);
    }
  }

  lemma {:induction false} RunKeepsHistory(start: Db, db: Db, calls: seq<Call>)
    requires AllFollowed(start, db)
    ensures AllFollowed(start, Run(db, calls))
    decreases |calls|
  {
    if calls != [] {
      StepKeepsHistory(start, db, calls[0]);
      RunKeepsHistory(start, Step(db, calls[0]), calls[1..]);
    }
  }

  /** Rows that sit on existing, unmerged leads. */
  ghost predicate OnUnmerged(rows: seq<Row>, leads: Leads) {
    forall i :: 0 <= i < |rows| && rows[i].leadId.Some? ==>
      rows[i].leadId.value in leads && leads[rows[i].leadId.value].mergedIntoId.None?
  }

  ghost predicate AllOnUnmerged(db: Db) {
    && OnUnmerged(db.activities, db.leads) && OnUnmerged(db.tasks, db.leads)
    && OnUnmerged(db.documents, db.leads) && OnUnmerged(db.consents, db.leads)
  }

  /** Over any run all history sits on unmerged leads, the notes that the merges of the run add included;
      there is one note more per merge, and nothing else comes or goes. */
  lemma {:induction false} RunKeepsHistoryOnUnmerged(db: Db, calls: seq<Call>)
    requires AllOnUnmerged(db)
    ensures var after := Run(db, calls);
            && AllOnUnmerged(after)
            && |after.activities| == |db.activities| + Merges(db, calls) && |after.tasks| == |db.tasks|
            && |after.documents| == |db.documents| && |after.consents| == |db.consents|
    decreases |calls|
  {
    if calls != [] {
      StepKeepsOnUnmerged(db, calls[0]);
      RunKeepsHistoryOnUnmerged(Step(db, calls[0]), calls[1..]);
    }
  }

  lemma StepKeepsOnUnmerged(db: Db, call: Call)
    requires AllOnUnmerged(db)
    ensures AllOnUnmerged(Step(db, call))
  {
    hide GainedValues, PanTaken;
  }

  /** How many calls of the run merge. */
  function Merges(db: Db, calls: seq<Call>): nat
    decreases |calls|
  {
    if calls == [] then 0
    else
      var c := calls[0];
      (if Merge(db, c.inScope, c.survivorId, c.duplicateId, c.note).1.None? then 1 else 0) + Merges(Step(db, c), calls[1..])
  }

  /** History is never lost: over any run of merges every activity, task, document and consent that
      sat on an unmerged lead ends up on the unmerged lead that one was merged into. */
  lemma HistoryFollowsThePerson(db: Db, calls: seq<Call>)
    requires OnUnmerged(db.activities, db.leads) && OnUnmerged(db.tasks, db.leads)
    requires OnUnmerged(db.documents, db.leads) && OnUnmerged(db.consents, db.leads)
    ensures AllFollowed(db, Run(db, calls))
  {
    forall id | id in db.leads && db.leads[id].mergedIntoId.None?
      ensures Rooted(db.leads, id, id)
    {
      assert EndsAt(db.leads, id, 0, id);
    }
    RunKeepsHistory(db, db, calls);
  }

  lemma {:induction false} RootIsUnmerged(leads: Leads, id: Id, n: nat, root: Id)
    requires EndsAt(leads, id, n, root)
    ensures root in leads && leads[root].mergedIntoId.None?
    decreases n
  {
    if n > 0 {
      RootIsUnmerged(leads, leads[id].mergedIntoId.value, n - 1, root);
    }
  }

  // ---------------------------------------------------------------------------
  // The merge, row by row
  // ---------------------------------------------------------------------------

  /** There is something in the field. */
  predicate Has(lead: Lead, field: Field) {
    field in lead.values && lead.values[field] != ""
  }

  /** A field is gained exactly when only the duplicate has it; the duplicate's value is shown as discarded exactly when
      both have one and they differ; and what the survivor ends up with is its own value wherever it has one. */
  lemma OutcomeIs(survivor: Lead, duplicate: Lead, field: Field)
    ensures var o := OutcomeFor(survivor, duplicate, field);
            && o.field == field
            && (o.gained <==> !Has(survivor, field) && Has(duplicate, field))
            && o.value == (if o.gained then Some(duplicate.values[field]) else Value(survivor, field))
            && o.discarded == (if Has(survivor, field) && Has(duplicate, field) && survivor.values[field] != duplicate.values[field]
                               then Some(duplicate.values[field]) else None)
  {
  }

  /** Some third active lead holds the PAN that the active survivor, having none, would take over. */
  ghost predicate PanClash(leads: Leads, s: Id, d: Id)
    requires s in leads && d in leads
  {
    && Open(leads[s]) && !Has(leads[s], Pan) && Has(leads[d], Pan)
    && exists other :: other in leads && other != s && other != d && Open(leads[other])
         && Pan in leads[other].values && leads[other].values[Pan] == leads[d].values[Pan]
  }

  /** What the partial indexes are about. */
  predicate Open(lead: Lead) {
    !lead.deleted && lead.status != Converted && lead.status != Lost && lead.status != Disqualified
  }

  lemma PanClashIff(leads: Leads, s: Id, d: Id)
    requires s in leads && d in leads
    ensures PanClash(leads, s, d) <==> PanTaken(leads, s, d, GainedValues(leads[s], leads[d]))
  {
    hide GainedValues;
    GainedAny(leads[s], leads[d], Pan);
    OutcomeIs(leads[s], leads[d], Pan);
    hide OutcomeFor;
  }

  /** Which answer a merge gets: the checks in their order. */
  lemma AnswerIs(db: Db, inScope: set<Id>, s: Id, d: Id, note: string)
    ensures var (after, answer) := Merge(db, inScope, s, d, note);
            && (answer.Some? ==> after == db)
            && answer == (
              if !(s in db.leads && !db.leads[s].deleted && s in inScope && d in db.leads && !db.leads[d].deleted && d in inScope) then Some(NotFound)
              else if s == d then Some(MergedIntoItself)
              else if db.leads[s].mergedIntoId != None then Some(SurvivorMerged)
              else if db.leads[d].mergedIntoId != None then Some(DuplicateMerged)
              else if db.leads[d].status == Converted || db.leads[d].customerId != None then Some(DuplicateConverted)
              else if PanClash(db.leads, s, d) then Some(UniqueViolation)
              else None)
  {
    hide GainedValues, PanTaken, PanClash;
    if s in db.leads && d in db.leads {
      PanClashIff(db.leads, s, d);
    }
  }

  /** The rows of one table after a merge: those of the duplicate are the survivor's, with the content they had. */
  ghost predicate Handed(before: seq<Row>, after: seq<Row>, s: Id, d: Id) {
    && |after| >= |before|
    && forall i :: 0 <= i < |before| ==>
      after[i] == Row(if before[i].leadId == Some(d) then Some(s) else before[i].leadId, before[i].content)
  }

  /** What a merge leaves behind: the duplicate closed as disqualified and pointing at the survivor, the survivor with
      the fields it lacked, every other lead as it was, and the history handed over with one note added. */
  lemma MergedState(db: Db, inScope: set<Id>, s: Id, d: Id, note: string)
    requires Merge(db, inScope, s, d, note).1.None?
    ensures var after := Merge(db, inScope, s, d, note).0;
            && after.leads.Keys == db.leads.Keys && s in db.leads && d in db.leads && s != d
            && after.leads[d] == db.leads[d].(mergedIntoId := Some(s), status := Disqualified)
            && after.leads[s] == db.leads[s].(values := after.leads[s].values)
            && (forall f: Field :: Value(after.leads[s], f)
                  == if !Has(db.leads[s], f) && Has(db.leads[d], f) then Some(db.leads[d].values[f]) else Value(db.leads[s], f))
            && (forall other <- db.leads :: other != s && other != d ==> after.leads[other] == db.leads[other])
            && Handed(db.activities, after.activities, s, d) && Handed(db.tasks, after.tasks, s, d)
            && Handed(db.documents, after.documents, s, d) && Handed(db.consents, after.consents, s, d)
            && |after.activities| == |db.activities| + 1 && after.activities[|db.activities|] == Row(Some(s), note)
            && |after.tasks| == |db.tasks| && |after.documents| == |db.documents| && |after.consents| == |db.consents|
  {
    hide GainedValues, PanTaken;
    forall f: Field
      ensures Value(Merge(db, inScope, s, d, note).0.leads[s], f)
           == if !Has(db.leads[s], f) && Has(db.leads[d], f) then Some(db.leads[d].values[f]) else Value(db.leads[s], f)
    {
      SurvivorIsPreview(db, inScope, s, d, note, f);
      OutcomeIs(db.leads[s], db.leads[d], f);
    }
  }
}
