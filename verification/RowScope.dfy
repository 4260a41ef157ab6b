/** Which leads and customers a user may see: the row filters of `apps/api/src/common/scope.service.ts`,
    read against the organisation tree they stand for. */
module RowScope {
  import opened Text
  import opened OrgPaths
  import Rbac

  type UserId = string

  datatype Viewer = Viewer(
    id: UserId, scope: Rbac.Scope, orgUnitId: Option<Id>, team: seq<UserId>, partnerId: Option<string>,
    isCustomer: bool, email: string)

  /** A lead, or a customer with its relationship manager as the owner. */
  datatype Row = Row(ownerId: Option<UserId>, orgUnitId: Option<Id>, partnerId: Option<string>, email: Option<string>)

  /** The query fragments. */
  datatype Filter =
    | Everything
    | Nothing
    | UnitPathStartsWith(prefix: string)
    | OwnerIn(owners: seq<UserId>)
    | Unowned
    | PartnerIs(partnerId: string)
    | EmailIs(email: string)
    | Both(left: Filter, right: Filter)
    | Either(left: Filter, right: Filter)

  /** What the database makes of a fragment. */
  predicate Admits(units: Units, filter: Filter, row: Row) {
    match filter
    case Everything => true
    case Nothing => false
    case UnitPathStartsWith(prefix) =>
      row.orgUnitId.Some? && row.orgUnitId.value in units && prefix <= units[row.orgUnitId.value].path
    case OwnerIn(owners) => row.ownerId.Some? && row.ownerId.value in owners
    case Unowned => row.ownerId.None?
    case PartnerIs(partnerId) => row.partnerId == Some(partnerId)
    case EmailIs(email) => row.email == Some(email)
    case Both(left, right) => Admits(units, left, row) && Admits(units, right, row)
    case Either(left, right) => Admits(units, left, row) || Admits(units, right, row)
  }

  /** The path that travels with a request; an empty one counts as none. */
  function ViewerPath(units: Units, viewer: Viewer): Option<string> {
    if viewer.orgUnitId.Some? && viewer.orgUnitId.value in units && units[viewer.orgUnitId.value].path != ""
    then Some(units[viewer.orgUnitId.value].path) else None
  }

  function SubtreeFilter(path: Option<string>): Filter {
    if path.Some? then UnitPathStartsWith(path.value) else Nothing
  }

  function HasPartner(viewer: Viewer): bool {
    viewer.partnerId.Some? && viewer.partnerId.value != ""
  }

  function LeadScope(viewer: Viewer, path: Option<string>): Filter {
    match viewer.scope
    case All => Everything
    case Zone | Region | Branch => SubtreeFilter(path)
    case Team =>
      Either(OwnerIn([viewer.id] + viewer.team),
             if path.Some? then Both(Unowned, UnitPathStartsWith(path.value)) else Nothing)
    case Self => if HasPartner(viewer) then PartnerIs(viewer.partnerId.value) else OwnerIn([viewer.id])
  }

  function CustomerScope(viewer: Viewer, path: Option<string>): Filter {
    match viewer.scope
    case All => Everything
    case Zone | Region | Branch => SubtreeFilter(path)
    case Team => OwnerIn([viewer.id] + viewer.team)
    case Self =>
      if viewer.isCustomer then EmailIs(viewer.email)
      else if HasPartner(viewer) then PartnerIs(viewer.partnerId.value)
      else OwnerIn([viewer.id])
  }

  // ---------------------------------------------------------------------------
  // What the filters mean
  // ---------------------------------------------------------------------------

  /** The row belongs to a unit at or below the viewer's, by a walk over parent links. */
  ghost predicate InSubtree(units: Units, viewer: Viewer, row: Row)
    requires WellBuilt(units)
  {
    && viewer.orgUnitId.Some? && viewer.orgUnitId.value in units
    && row.orgUnitId.Some? && row.orgUnitId.value in units
    && Under(units, row.orgUnitId.value, viewer.orgUnitId.value)
  }

  ghost predicate OwnedInTeam(viewer: Viewer, row: Row) {
    row.ownerId.Some? && (row.ownerId.value == viewer.id || row.ownerId.value in viewer.team)
  }

  lemma SubtreeIsUnder(units: Units, viewer: Viewer, row: Row)
    requires WellBuilt(units)
    ensures Admits(units, SubtreeFilter(ViewerPath(units, viewer)), row) <==> InSubtree(units, viewer, row)
  {
    if viewer.orgUnitId.Some? && viewer.orgUnitId.value in units {
      PathIsChain(units, viewer.orgUnitId.value);
      if row.orgUnitId.Some? && row.orgUnitId.value in units {
        PrefixIsUnder(units, viewer.orgUnitId.value, row.orgUnitId.value);
      }
    }
  }

  /** A lead is visible through the filter exactly when the scope says so about the tree: a subtree viewer
      sees what belongs below the own unit, a team lead also what the team owns and, of the rest below the
      unit, only what nobody owns. Without a unit nobody sees a subtree. */
  lemma LeadVisibleIff(units: Units, viewer: Viewer, row: Row)
    requires WellBuilt(units)
    ensures Admits(units, LeadScope(viewer, ViewerPath(units, viewer)), row) <==>
            match viewer.scope
            case All => true
            case Zone | Region | Branch => InSubtree(units, viewer, row)
            case Team => OwnedInTeam(viewer, row) || (row.ownerId.None? && InSubtree(units, viewer, row))
            case Self =>
              if viewer.partnerId.Some? && viewer.partnerId.value != "" then row.partnerId == viewer.partnerId
              else row.ownerId == Some(viewer.id)
  {
    hide InSubtree, ViewerPath;
    SubtreeIsUnder(units, viewer, row);
    if viewer.scope.Team? {
      OwnerIsTeam(units, viewer, row);
      UnownedBelow(units, ViewerPath(units, viewer), row);
    }
  }

  lemma OwnerIsTeam(units: Units, viewer: Viewer, row: Row)
    ensures Admits(units, OwnerIn([viewer.id] + viewer.team), row) <==> OwnedInTeam(viewer, row)
  {
    assert forall id :: id in [viewer.id] + viewer.team <==> id == viewer.id || id in viewer.team;
  }

  lemma UnownedBelow(units: Units, path: Option<string>, row: Row)
    ensures Admits(units, if path.Some? then Both(Unowned, UnitPathStartsWith(path.value)) else Nothing, row)
       <==> row.ownerId.None? && Admits(units, SubtreeFilter(path), row)
  {
    if path.Some? {
      assert Admits(units, Unowned, row) <==> row.ownerId.None?;
    }
  }

  lemma CustomerVisibleIff(units: Units, viewer: Viewer, row: Row)
    requires WellBuilt(units)
    ensures Admits(units, CustomerScope(viewer, ViewerPath(units, viewer)), row) <==>
            match viewer.scope
            case All => true
            case Zone | Region | Branch => InSubtree(units, viewer, row)
            case Team => OwnedInTeam(viewer, row)
            case Self =>
              if viewer.isCustomer then row.email == Some(viewer.email)
              else if viewer.partnerId.Some? && viewer.partnerId.value != "" then row.partnerId == viewer.partnerId
              else row.ownerId == Some(viewer.id)
  {
    hide InSubtree, ViewerPath;
    SubtreeIsUnder(units, viewer, row);
    OwnerIsTeam(units, viewer, row);
  }

  // ---------------------------------------------------------------------------
  // What a move does to visibility
  // ---------------------------------------------------------------------------

  /** After an allowed move a unit of the moved subtree lies under exactly what the new parent lies under
      and what was between it and the moved unit; for every other unit nothing changes. */
  lemma UnderAfterMove(units: Units, u: Id, newParent: Id, id: Id, above: Id)
    requires WellBuilt(units) && u in units && newParent in units && id in units && above in units
    requires !WouldCreateCycle(units[u].path, units[newParent].path)
    ensures var after := Moved(units, u, newParent);
            && WellBuilt(after) && id in after
            && (Under(after, id, above) <==>
                  if Under(units, id, u) then Under(units, newParent, above) || (Under(units, id, above) && Under(units, above, u))
                  else Under(units, id, above))
  {
    var after := Moved(units, u, newParent);
    MoveRerootsChains(units, u, newParent, id);
    UnderIsInChain(after, id, above);
    UnderIsInChain(units, id, above);
    if Under(units, id, u) {
      UnderIsInChain(units, newParent, above);
      BetweenIsTail(units, u, id, above);
    }
  }

  /** Among the ancestors of a unit below `u`, those from `u` down are the ones that lie under `u`. */
  lemma BetweenIsTail(units: Units, u: Id, id: Id, above: Id)
    requires WellBuilt(units) && u in units && id in units && above in units && Under(units, id, u)
    requires Chain(units, u) <= Chain(units, id)
    ensures above in [u] + Chain(units, id)[|Chain(units, u)|..] <==> Under(units, id, above) && Under(units, above, u)
  {
    hide Under, WellBuilt, Chain;
    UnderIsInChain(units, id, above);
    UnderIsInChain(units, above, u);
    UnderIsInChain(units, u, u);
    if Under(units, id, above) && Under(units, above, u) {
      InTail(Chain(units, u), Chain(units, above), Chain(units, id));
    }
    if above in Chain(units, id)[|Chain(units, u)|..] {
      TailIsBetween(units, u, id, above);
    }
  }

  lemma TailIsBetween(units: Units, u: Id, id: Id, above: Id)
    requires WellBuilt(units) && u in units && id in units && above in units
    requires Chain(units, u) <= Chain(units, id) && above in Chain(units, id)[|Chain(units, u)|..]
    ensures Under(units, id, above) && Under(units, above, u)
  {
    hide Under, WellBuilt, Chain;
    UnderIsInChain(units, id, above);
    UnderIsInChain(units, above, u);
    var top, whole := Chain(units, u), Chain(units, id);
    var k :| 0 <= k < |whole| - |top| && whole[|top|..][k] == above;
    assert whole[|top| + k] == above;
    PrefixAt(units, id, |top| + k);
    assert whole[..|top| + k + 1][|top| - 1] == top[|top| - 1];
  }

  /** The end of a list between two others is the end of the shorter one or comes after it. */
  lemma InTail(top: seq<Id>, part: seq<Id>, whole: seq<Id>)
    requires top != [] && top <= part <= whole
    ensures part[|part| - 1] in [top[|top| - 1]] + whole[|top|..]
  {
    if |part| > |top| {
      assert whole[|top|..][|part| - 1 - |top|] == part[|part| - 1];
    }
  }

  /** The ancestors of the n-th ancestor are the first ones of the chain. */
  lemma {:induction false} PrefixAt(units: Units, id: Id, n: nat)
    requires WellBuilt(units) && id in units && n < |Chain(units, id)|
    ensures var above := Chain(units, id)[n];
            above in units && Chain(units, above) == Chain(units, id)[..n + 1]
    decreases |units[id].path|
  {
    var chain := Chain(units, id);
    if n == |chain| - 1 {
      assert chain[..n + 1] == chain;
    } else {
      assert BuiltAt(units, id);
      var parent := units[id].parentId.value;
      PrefixAt(units, parent, n);
      assert chain[..n + 1] == Chain(units, parent)[..n + 1];
    }
  }
}
