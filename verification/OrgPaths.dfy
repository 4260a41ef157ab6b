/** The organisation tree and its materialised paths: `packages/contracts/src/org-unit.ts`, the prefix
    filters of `scope.service.ts`, the event check of `event-access.ts`, and the writes of
    `org-units.service.ts`. Everything the code answers from a path is proved equal to the answer of
    a recursive walk over parent links. */
module OrgPaths {
  import opened Text

  type Id = string

  datatype UnitType = Company | Zone | Region | Branch | Team

  datatype Unit = Unit(code: string, parentId: Option<Id>, type_: UnitType, path: string, canAccessEvents: bool, isActive: bool)

  type Units = map<Id, Unit>

  const SLASH: char := '/'

  predicate ValidId(id: Id) {
    id != [] && SLASH !in id
  }

  predicate CanParent(child: UnitType, parent: UnitType) {
    match child
    case Company => false
    case Zone => parent.Company?
    case Region => parent.Company? || parent.Zone?
    case Branch => parent.Company? || parent.Zone? || parent.Region?
    case Team => parent.Branch?
  }

  /** Levels may be left out on the way down, except that a team belongs to a branch. */
  lemma CanParentIff(child: UnitType, parent: UnitType)
    ensures CanParent(child, parent) <==> Rank(parent) < Rank(child) && (child == Team ==> parent == Branch)
  {
  }

  /** An empty parent path counts as none. */
  function BuildPath(parentPath: Option<string>, id: Id): string {
    if parentPath.Some? && parentPath.value != [] then parentPath.value + id + [SLASH] else [SLASH] + id + [SLASH]
  }

  function Split(s: string): (parts: seq<string>)
    ensures parts != []
  {
    if s == [] then [[]]
    else
      var rest := Split(s[1..]);
      if s[0] == SLASH then [[]] + rest else [[s[0]] + rest[0]] + rest[1..]
  }

  function NonEmpty(parts: seq<string>): seq<string> {
    if parts == [] then [] else (if parts[0] == [] then [] else [parts[0]]) + NonEmpty(parts[1..])
  }

  function PathIds(path: string): seq<Id> {
    NonEmpty(Split(path))
  }

  function DepthOf(path: string): nat {
    if |PathIds(path)| == 0 then 0 else |PathIds(path)| - 1
  }

  predicate WouldCreateCycle(unitPath: string, newParentPath: string) {
    unitPath <= newParentPath
  }

  // ---------------------------------------------------------------------------
  // Paths as lists of ids
  // ---------------------------------------------------------------------------

  /** `/a/b` for `[a, b]`. */
  function Stem(ids: seq<Id>): string {
    if ids == [] then [] else Stem(ids[..|ids| - 1]) + [SLASH] + ids[|ids| - 1]
  }

  function PathOf(ids: seq<Id>): string {
    Stem(ids) + [SLASH]
  }

  predicate ValidIds(ids: seq<Id>) {
    forall i :: 0 <= i < |ids| ==> ValidId(ids[i])
  }

  lemma {:induction false} NonEmptyAppend(xs: seq<string>, ys: seq<string>)
    ensures NonEmpty(xs + ys) == NonEmpty(xs) + NonEmpty(ys)
  {
    if xs == [] {
      assert xs + ys == ys;
    } else {
      var first := if xs[0] == [] then [] else [xs[0]];
      NonEmptyAppend(xs[1..], ys);
      assert (xs + ys)[1..] == xs[1..] + ys && (xs + ys)[0] == xs[0];
      assert NonEmpty(xs + ys) == first + (NonEmpty(xs[1..]) + NonEmpty(ys));
      assert NonEmpty(xs) == first + NonEmpty(xs[1..]);
    }
  }

  lemma SplitCons(c: char, t: string)
    ensures Split([c] + t) == if c == SLASH then [[]] + Split(t) else [[c] + Split(t)[0]] + Split(t)[1..]
  {
    assert ([c] + t)[1..] == t;
  }

  lemma {:induction false} SplitAtSlash(s: string, t: string)
    ensures Split(s + [SLASH] + t) == Split(s) + Split(t)
  {
    if s == [] {
      SplitCons(SLASH, t);
      assert s + [SLASH] + t == [SLASH] + t;
    } else {
      hide Split;
      var c, rest := s[0], s[1..];
      SplitAtSlash(rest, t);
      SplitCons(c, rest);
      SplitCons(c, rest + [SLASH] + t);
      assert s == [c] + rest && s + [SLASH] + t == [c] + (rest + [SLASH] + t);
      TailOfJoin([], Split(rest), Split(t));
      TailOfJoin([c] + Split(rest)[0], Split(rest), Split(t));
    }
  }

  lemma TailOfJoin<T>(head: T, xs: seq<T>, ys: seq<T>)
    requires xs != []
    ensures [head] + (xs + ys)[1..] == [head] + xs[1..] + ys && (xs + ys)[0] == xs[0]
    ensures [head] + (xs + ys) == [head] + xs + ys
  {
  }

  lemma {:induction false} SplitId(id: string)
    requires SLASH !in id
    ensures Split(id) == [id]
  {
    if id != [] {
      assert id[0] in id;
      SplitId(id[1..]);
      assert [id[0]] + id[1..] == id;
    }
  }

  /** Cutting a path at any slash cuts its list of ids. */
  lemma PathIdsAtSlash(s: string, t: string)
    ensures PathIds(s + [SLASH] + t) == PathIds(s) + PathIds(t)
  {
    SplitAtSlash(s, t);
    NonEmptyAppend(Split(s), Split(t));
  }

  lemma {:induction false} PathIdsOfStem(ids: seq<Id>)
    requires ValidIds(ids)
    ensures PathIds(Stem(ids)) == ids
  {
    hide PathIds;
    if ids == [] {
      PathIdsSmall([]);
    } else {
      var before, last := ids[..|ids| - 1], ids[|ids| - 1];
      PathIdsOfStem(before);
      PathIdsSmall(last);
      PathIdsAtSlash(Stem(before), last);
      assert before + [last] == ids;
    }
  }

  lemma PathIdsSmall(id: string)
    requires SLASH !in id
    ensures PathIds(id) == if id == [] then [] else [id]
  {
    SplitId(id);
    var parts: seq<string> := [id];
    assert parts[0] == id && parts[1..] == [];
    assert NonEmpty(parts[1..]) == [];
  }

  /** The ids read off a path are the ids it was built from, in order. */
  lemma PathIdsOfPath(ids: seq<Id>)
    requires ValidIds(ids)
    ensures PathIds(PathOf(ids)) == ids
  {
    PathIdsOfStem(ids);
    PathIdsSmall([]);
    PathIdsAtSlash(Stem(ids), []);
    assert Stem(ids) + [SLASH] + [] == PathOf(ids);
  }

  /** One path starts with another exactly when one list of ids starts with the other. */
  lemma PathPrefix(a: seq<Id>, b: seq<Id>)
    requires ValidIds(a) && ValidIds(b)
    ensures PathOf(a) <= PathOf(b) <==> a <= b
  {
    hide PathIds;
    if a <= b {
      PathExtends(a, b);
    }
    if PathOf(a) <= PathOf(b) {
      PathIdsOfStem(a);
      PathIdsOfPath(b);
      var rest := PathOf(b)[|PathOf(a)|..];
      assert PathOf(b) == Stem(a) + [SLASH] + rest;
      PathIdsAtSlash(Stem(a), rest);
      assert b == a + PathIds(rest);
    }
  }

  lemma {:induction false} PathExtends(a: seq<Id>, b: seq<Id>)
    requires a <= b
    ensures PathOf(a) <= PathOf(b)
    decreases |b|
  {
    if |a| < |b| {
      PathExtends(a, b[..|b| - 1]);
      assert PathOf(b) == PathOf(b[..|b| - 1]) + b[|b| - 1] + [SLASH];
    } else {
      assert a == b;
    }
  }

  // ---------------------------------------------------------------------------
  // Trees built through BuildPath
  // ---------------------------------------------------------------------------

  predicate BuiltAt(units: Units, id: Id)
    requires id in units
  {
    var unit := units[id];
    && ValidId(id)
    && match unit.parentId
       case None => unit.path == BuildPath(None, id)
       case Some(p) => p in units && units[p].path != [] && unit.path == BuildPath(Some(units[p].path), id)
  }

  /** Every path was made by `BuildPath` from the parent's path; nothing is said about cycles, which
      this already rules out, since a child's path is longer than its parent's. */
  ghost predicate WellBuilt(units: Units) {
    forall id <- units :: BuiltAt(units, id)
  }

  /** The walk over parent links, root first. */
  function Chain(units: Units, id: Id): (chain: seq<Id>)
    requires WellBuilt(units) && id in units
    ensures chain != [] && chain[|chain| - 1] == id && ValidIds(chain) && forall a <- chain :: a in units
    decreases |units[id].path|
  {
    assert BuiltAt(units, id);
    if units[id].parentId.None? then [id] else Chain(units, units[id].parentId.value) + [id]
  }

  lemma BuildPathSnoc(above: seq<Id>, id: Id)
    ensures BuildPath(Some(PathOf(above)), id) == PathOf(above + [id])
    ensures BuildPath(None, id) == PathOf([id])
  {
    assert (above + [id])[..|above|] == above && [id][..0] == [];
    assert PathOf(above + [id]) == Stem(above) + [SLASH] + id + [SLASH];
    assert Stem([id]) == [SLASH] + id;
  }

  lemma {:induction false} PathIsStem(units: Units, id: Id)
    requires WellBuilt(units) && id in units
    ensures units[id].path == PathOf(Chain(units, id))
    decreases |units[id].path|
  {
    hide PathOf;
    assert BuiltAt(units, id);
    if units[id].parentId.Some? {
      var p := units[id].parentId.value;
      PathIsStem(units, p);
      hide BuildPath;
      BuildPathSnoc(Chain(units, p), id);
    } else {
      BuildPathSnoc([], id);
    }
  }

  lemma PathIsChain(units: Units, id: Id)
    requires WellBuilt(units) && id in units
    ensures units[id].path == PathOf(Chain(units, id))
    ensures PathIds(units[id].path) == Chain(units, id)
  {
    PathIsStem(units, id);
    PathIdsOfPath(Chain(units, id));
  }

  /** The recursive test the paths stand in for: is `ancestor` the unit itself or above it? */
  predicate Under(units: Units, id: Id, ancestor: Id)
    requires WellBuilt(units) && id in units
    decreases |units[id].path|
  {
    assert BuiltAt(units, id);
    id == ancestor || (units[id].parentId.Some? && Under(units, units[id].parentId.value, ancestor))
  }

  /** The depth shown for a unit is the number of units above it. */
  lemma DepthIsAncestors(units: Units, id: Id)
    requires WellBuilt(units) && id in units
    ensures DepthOf(units[id].path) == |Chain(units, id)| - 1
  {
    PathIsChain(units, id);
  }

  lemma {:induction false} UnderIsInChain(units: Units, id: Id, ancestor: Id)
    requires WellBuilt(units) && id in units
    ensures Under(units, id, ancestor) <==> ancestor in Chain(units, id)
    ensures Under(units, id, ancestor) ==> ancestor in units && Chain(units, ancestor) <= Chain(units, id)
    decreases |units[id].path|
  {
    assert BuiltAt(units, id);
    if units[id].parentId.Some? {
      UnderIsInChain(units, units[id].parentId.value, ancestor);
    }
  }

  /** The prefix test of every scope query is the recursive ancestor test. */
  lemma PrefixIsUnder(units: Units, ancestor: Id, id: Id)
    requires WellBuilt(units) && id in units && ancestor in units
    ensures units[ancestor].path <= units[id].path <==> Under(units, id, ancestor)
  {
    PathIsChain(units, ancestor);
    PathIsChain(units, id);
    PathPrefix(Chain(units, ancestor), Chain(units, id));
    UnderIsInChain(units, id, ancestor);
    if Chain(units, ancestor) <= Chain(units, id) {
      assert Chain(units, id)[|Chain(units, ancestor)| - 1] == ancestor;
    }
  }

  // ---------------------------------------------------------------------------
  // Event access
  // ---------------------------------------------------------------------------

  datatype Designation = Designation(canAccessEvents: bool, isActive: bool)

  /** One query over the ids on the path. */
  function HasEventAccess(units: Units, designation: Option<Designation>, orgUnitId: Option<Id>): bool {
    if designation.None? || orgUnitId.None? then false
    else if !designation.value.isActive || !designation.value.canAccessEvents then false
    else if orgUnitId.value !in units then false
    else
      var chain := PathIds(units[orgUnitId.value].path);
      exists id <- chain :: id in units && units[id].canAccessEvents && units[id].isActive
  }

  /** The recursive version: switched on here, or on the parent, and so on up. */
  predicate OpenedAtOrAbove(units: Units, id: Id)
    requires WellBuilt(units) && id in units
    decreases |units[id].path|
  {
    assert BuiltAt(units, id);
    || (units[id].canAccessEvents && units[id].isActive)
    || (units[id].parentId.Some? && OpenedAtOrAbove(units, units[id].parentId.value))
  }

  lemma {:induction false} OpenedIsInChain(units: Units, id: Id)
    requires WellBuilt(units) && id in units
    ensures OpenedAtOrAbove(units, id) <==>
            exists a <- Chain(units, id) :: units[a].canAccessEvents && units[a].isActive
    decreases |units[id].path|
  {
    assert BuiltAt(units, id);
    var chain := Chain(units, id);
    assert id in chain;
    if units[id].parentId.Some? {
      var above := Chain(units, units[id].parentId.value);
      OpenedIsInChain(units, units[id].parentId.value);
      assert forall a :: a in chain <==> a in above || a == id;
    }
  }

  lemma EventAccessIsRecursive(units: Units, designation: Option<Designation>, id: Id)
    requires WellBuilt(units) && id in units
    ensures HasEventAccess(units, designation, Some(id)) <==>
            designation.Some? && designation.value.isActive && designation.value.canAccessEvents && OpenedAtOrAbove(units, id)
    ensures forall unknown: Option<Id> :: unknown.None? || unknown.value !in units ==> !HasEventAccess(units, designation, unknown)
  {
    PathIsChain(units, id);
    OpenedIsInChain(units, id);
  }

  // ---------------------------------------------------------------------------
  // Loops
  // ---------------------------------------------------------------------------

  /** `n` steps up the parent links, in any set of links. */
  function Climb(parents: map<Id, Option<Id>>, id: Id, n: nat): Option<Id>
    decreases n
  {
    if n == 0 then Some(id)
    else if id in parents && parents[id].Some? then Climb(parents, parents[id].value, n - 1)
    else None
  }

  ghost predicate OnLoop(parents: map<Id, Option<Id>>, id: Id) {
    exists n: nat :: n > 0 && Climb(parents, id, n) == Some(id)
  }

  function Parents(units: Units): map<Id, Option<Id>> {
    map id | id in units :: units[id].parentId
  }

  /** `links` are the tree's parent links, except perhaps at `u`. */
  ghost predicate LinksBut(links: map<Id, Option<Id>>, units: Units, u: Id) {
    forall id <- units :: id in links && (id != u ==> links[id] == units[id].parentId)
  }

  /** Climbing with `u`'s link replaced is as before until `u` is met. */
  lemma {:induction false} ClimbMeets(links: map<Id, Option<Id>>, units: Units, id: Id, u: Id, n: nat)
    requires WellBuilt(units) && id in units && LinksBut(links, units, u)
    requires Climb(links, id, n) == Some(u)
    ensures Under(units, id, u)
    decreases n
  {
    assert BuiltAt(units, id);
    if id != u {
      ClimbMeets(links, units, units[id].parentId.value, u, n - 1);
    }
  }

  lemma {:induction false} UnderClimbs(links: map<Id, Option<Id>>, units: Units, id: Id, u: Id) returns (n: nat)
    requires WellBuilt(units) && id in units && Under(units, id, u) && LinksBut(links, units, u)
    ensures Climb(links, id, n) == Some(u)
    decreases |units[id].path|
  {
    assert BuiltAt(units, id);
    if id == u {
      n := 0;
    } else {
      n := UnderClimbs(links, units, units[id].parentId.value, u);
      n := n + 1;
    }
  }

  lemma UnderIsLoop(links: map<Id, Option<Id>>, units: Units, newParent: Id, u: Id)
    requires WellBuilt(units) && newParent in units && LinksBut(links, units, u)
    requires u in links && links[u] == Some(newParent)
    ensures Under(units, newParent, u) <==> OnLoop(links, u)
  {
    assert forall n: nat :: Climb(links, u, n + 1) == Climb(links, newParent, n);
    hide WellBuilt, Under, LinksBut, Climb;
    if Under(units, newParent, u) {
      var n := UnderClimbs(links, units, newParent, u);
      assert Climb(links, u, n + 1) == Some(u);
    }
    if OnLoop(links, u) {
      var n: nat :| n > 0 && Climb(links, u, n) == Some(u);
      ClimbMeets(links, units, newParent, u, n - 1);
    }
  }

  /** The path test refuses exactly the placements that would put the unit on a loop. */
  lemma CycleTestIsExact(units: Units, u: Id, newParent: Id)
    requires WellBuilt(units) && u in units && newParent in units
    ensures WouldCreateCycle(units[u].path, units[newParent].path)
       <==> OnLoop(Parents(units)[u := Some(newParent)], u)
  {
    PrefixIsUnder(units, u, newParent);
    UnderIsLoop(Parents(units)[u := Some(newParent)], units, newParent, u);
  }

  /** Types already order the tree: a unit sits under a strictly higher type. */
  function Rank(t: UnitType): nat {
    match t case Company => 0 case Zone => 1 case Region => 2 case Branch => 3 case Team => 4
  }

  ghost predicate Typed(units: Units) {
    forall id <- units ::
      match units[id].parentId
      case None => units[id].type_.Company?
      case Some(p) => p in units && CanParent(units[id].type_, units[p].type_)
  }

  lemma {:induction false} RankGrowsDownwards(units: Units, id: Id, ancestor: Id)
    requires WellBuilt(units) && Typed(units) && id in units && Under(units, id, ancestor)
    ensures ancestor in units && Rank(units[ancestor].type_) <= Rank(units[id].type_)
    decreases |units[id].path|
  {
    assert BuiltAt(units, id);
    if id != ancestor {
      RankGrowsDownwards(units, units[id].parentId.value, ancestor);
    }
  }

  /** A placement the type rule allows never trips the loop test. */
  lemma TypeRuleExcludesLoops(units: Units, u: Id, newParent: Id)
    requires WellBuilt(units) && Typed(units) && u in units && newParent in units
    requires CanParent(units[u].type_, units[newParent].type_)
    ensures !WouldCreateCycle(units[u].path, units[newParent].path)
  {
    PrefixIsUnder(units, u, newParent);
    if Under(units, newParent, u) {
      RankGrowsDownwards(units, newParent, u);
    }
  }

  // ---------------------------------------------------------------------------
  // Moving a unit
  // ---------------------------------------------------------------------------

  /** The two statements of the move: the unit itself, then one prefix rewrite over its subtree. */
  function Moved(units: Units, u: Id, newParent: Id): Units
    requires u in units && newParent in units
  {
    var oldPath := units[u].path;
    var newPath := BuildPath(Some(units[newParent].path), u);
    map id | id in units ::
      if id == u then units[id].(parentId := Some(newParent), path := newPath)
      else if oldPath <= units[id].path then units[id].(path := newPath + units[id].path[|oldPath|..])
      else units[id]
  }

  /** A unit other than `u` lies below `u` exactly when its parent does. */
  lemma BelowWithParent(units: Units, u: Id, id: Id)
    requires WellBuilt(units) && u in units && id in units && id != u
    ensures units[u].path <= units[id].path <==>
            units[id].parentId.Some? && units[id].parentId.value in units && units[u].path <= units[units[id].parentId.value].path
  {
    assert BuiltAt(units, id);
    PrefixIsUnder(units, u, id);
    if units[id].parentId.Some? {
      PrefixIsUnder(units, u, units[id].parentId.value);
    }
  }

  lemma MovedPath(units: Units, u: Id, newParent: Id, id: Id)
    requires WellBuilt(units) && u in units && newParent in units && id in units && id != u
    requires units[id].parentId.Some? && units[u].path <= units[id].path
    ensures var after := Moved(units, u, newParent);
            var p := units[id].parentId.value;
            p in after && after[id].path == after[p].path + id + [SLASH]
  {
    BelowWithParent(units, u, id);
    assert BuiltAt(units, id);
    var p := units[id].parentId.value;
    var newPath := BuildPath(Some(units[newParent].path), u);
    RewriteThenExtend(units[u].path, newPath, units[p].path, id + [SLASH]);
    assert units[id].path == units[p].path + (id + [SLASH]);
    assert p == u ==> newPath + units[p].path[|units[u].path|..] == newPath;
  }

  /** Swapping a prefix commutes with appending. */
  lemma RewriteThenExtend(oldPrefix: string, newPrefix: string, s: string, suffix: string)
    requires oldPrefix <= s
    ensures newPrefix + (s + suffix)[|oldPrefix|..] == newPrefix + s[|oldPrefix|..] + suffix
  {
    assert (s + suffix)[|oldPrefix|..] == s[|oldPrefix|..] + suffix;
  }

  lemma MovedBuiltAt(units: Units, u: Id, newParent: Id, id: Id)
    requires WellBuilt(units) && u in units && newParent in units && id in units
    requires !WouldCreateCycle(units[u].path, units[newParent].path)
    ensures BuiltAt(Moved(units, u, newParent), id)
  {
    assert BuiltAt(units, newParent) && BuiltAt(units, id);
    if id != u {
      BelowWithParent(units, u, id);
      if units[u].path <= units[id].path {
        MovedPath(units, u, newParent, id);
        assert BuildPath(Some(units[newParent].path), u) != [];
      }
    }
  }

  lemma MoveKeepsBuilt(units: Units, u: Id, newParent: Id)
    requires WellBuilt(units) && u in units && newParent in units
    requires !WouldCreateCycle(units[u].path, units[newParent].path)
    ensures WellBuilt(Moved(units, u, newParent))
  {
    forall id | id in units
      ensures BuiltAt(Moved(units, u, newParent), id)
    {
      MovedBuiltAt(units, u, newParent, id);
    }
  }

  /** Two trees over the same units whose links agree, except perhaps at `u`. */
  ghost predicate Relinked(before: Units, after: Units, u: Id) {
    after.Keys == before.Keys && forall id <- before :: id != u ==> after[id].parentId == before[id].parentId
  }

  lemma {:induction false} ElsewhereUnmoved(before: Units, after: Units, u: Id, id: Id)
    requires WellBuilt(before) && WellBuilt(after) && Relinked(before, after, u) && id in before
    requires !Under(before, id, u)
    ensures Chain(after, id) == Chain(before, id)
    decreases |before[id].path|
  {
    assert BuiltAt(before, id) && BuiltAt(after, id);
    if before[id].parentId.Some? {
      ElsewhereUnmoved(before, after, u, before[id].parentId.value);
    }
  }

  lemma {:induction false} SubtreeFollows(before: Units, after: Units, u: Id, id: Id)
    requires WellBuilt(before) && WellBuilt(after) && Relinked(before, after, u) && id in before && u in before
    requires Under(before, id, u)
    ensures Chain(before, u) <= Chain(before, id)
    ensures Chain(after, id) == Chain(after, u) + Chain(before, id)[|Chain(before, u)|..]
    decreases |before[id].path|
  {
    assert BuiltAt(before, id) && BuiltAt(after, id);
    if id != u {
      var p, k := before[id].parentId.value, |Chain(before, u)|;
      SubtreeFollows(before, after, u, p);
      DropSnoc(Chain(after, u), Chain(before, p), k, id);
    } else {
      assert Chain(after, u) + Chain(before, u)[|Chain(before, u)|..] == Chain(after, u);
    }
  }

  lemma DropSnoc<T>(front: seq<T>, xs: seq<T>, k: nat, x: T)
    requires k <= |xs|
    ensures front + (xs + [x])[k..] == front + xs[k..] + [x]
  {
    assert (xs + [x])[k..] == xs[k..] + [x];
  }

  /** After an allowed move, the unit's subtree hangs under the new parent and keeps its own shape,
      and every other chain is as before. */
  lemma MoveRerootsChains(units: Units, u: Id, newParent: Id, id: Id)
    requires WellBuilt(units) && u in units && newParent in units && id in units
    requires !WouldCreateCycle(units[u].path, units[newParent].path)
    ensures var after := Moved(units, u, newParent);
            && WellBuilt(after)
            && (if Under(units, id, u) then
                  && Chain(units, u) <= Chain(units, id)
                  && Chain(after, id) == Chain(units, newParent) + [u] + Chain(units, id)[|Chain(units, u)|..]
                else
                  Chain(after, id) == Chain(units, id))
  {
    var after := Moved(units, u, newParent);
    MoveKeepsBuilt(units, u, newParent);
    assert Relinked(units, after, u) && after[u].parentId == Some(newParent);
    hide Moved, WellBuilt;
    PrefixIsUnder(units, u, newParent);
    ElsewhereUnmoved(units, after, u, newParent);
    if Under(units, id, u) {
      SubtreeFollows(units, after, u, id);
      assert Chain(after, u) == Chain(after, newParent) + [u];
    } else {
      ElsewhereUnmoved(units, after, u, id);
    }
  }

  lemma MoveKeepsTypes(units: Units, u: Id, newParent: Id)
    requires u in units && newParent in units && Typed(units)
    requires CanParent(units[u].type_, units[newParent].type_)
    ensures Typed(Moved(units, u, newParent))
  {
    hide CanParent;
    var after := Moved(units, u, newParent);
    assert after.Keys == units.Keys && forall id <- units :: after[id].type_ == units[id].type_;
    assert forall id <- units :: id != u ==> after[id].parentId == units[id].parentId;
  }

  /** Links and paths aside, every unit is as it was. */
  ghost predicate OnlyMoved(before: Units, after: Units) {
    && after.Keys == before.Keys
    && forall id <- before :: after[id] == before[id].(parentId := after[id].parentId, path := after[id].path)
  }

  lemma MoveChangesOneLink(units: Units, u: Id, newParent: Id)
    requires u in units && newParent in units
    ensures Parents(Moved(units, u, newParent)) == Parents(units)[u := Some(newParent)]
    ensures OnlyMoved(units, Moved(units, u, newParent))
  {
  }

  // ---------------------------------------------------------------------------
  // The service
  // ---------------------------------------------------------------------------

  datatype Refusal = CodeTaken | NotFound | NotAValidPlacement | WouldLoop | HasChildren | HasPeople | HasLeads

  datatype Answer = Done | Refused(why: Refusal)

  class OrgUnits {
    var units: Units

    constructor ()
      ensures units == map[] && WellBuilt(units) && Typed(units)
    {
      units := map[];
    }

    /** `id` is the one the database drew: not in use, and without a slash. */
    method Create(id: Id, code: string, type_: UnitType, parentId: Option<Id>) returns (answer: Answer)
      requires WellBuilt(units) && Typed(units) && ValidId(id) && id !in units
      modifies this
      ensures WellBuilt(units) && Typed(units)
      ensures answer == if exists u <- old(units) :: old(units)[u].code == code then Refused(CodeTaken) else
                        match parentId
                        case None => if type_.Company? then Done else Refused(NotAValidPlacement)
                        case Some(p) => if p !in old(units) then Refused(NotFound)
                                        else if !CanParent(type_, old(units)[p].type_) then Refused(NotAValidPlacement)
                                        else Done
      ensures answer.Refused? ==> units == old(units)
      ensures answer.Done? ==> id in units && units == old(units)[id := Unit(code, parentId, type_, units[id].path, false, true)]
      ensures answer.Done? ==>
                Chain(units, id) == (if parentId.None? then [] else Chain(old(units), parentId.value)) + [id]
    {
      if exists u <- units :: units[u].code == code { return Refused(CodeTaken); }
      var parentPath: Option<string> := None;
      if parentId.Some? {
        if parentId.value !in units { return Refused(NotFound); }
        var parent := units[parentId.value];
        if !CanParent(type_, parent.type_) { return Refused(NotAValidPlacement); }
        parentPath := Some(parent.path);
        assert BuiltAt(units, parentId.value);
      } else if !type_.Company? {
        return Refused(NotAValidPlacement);
      }
      ghost var before := units;
      units := units[id := Unit(code, parentId, type_, BuildPath(parentPath, id), false, true)];
      forall other | other in units
        ensures BuiltAt(units, other)
      {
        if other != id { assert BuiltAt(before, other); }
      }
      if parentId.Some? {
        GrowthKeepsChain(before, units, parentId.value);
      }
      answer := Done;
    }

    method Move(id: Id, parentId: Id) returns (answer: Answer)
      requires WellBuilt(units) && Typed(units)
      modifies this
      ensures WellBuilt(units) && Typed(units)
      ensures answer == if id !in old(units) || parentId !in old(units) then Refused(NotFound)
                        else if old(units)[id].parentId == Some(parentId) then Done
                        else if !CanParent(old(units)[id].type_, old(units)[parentId].type_) then Refused(NotAValidPlacement)
                        else if OnLoop(Parents(old(units))[id := Some(parentId)], id) then Refused(WouldLoop)
                        else Done
      ensures answer.Refused? ==> units == old(units)
      ensures answer.Done? ==> Parents(units) == Parents(old(units))[id := Some(parentId)] && OnlyMoved(old(units), units)
    {
      if id !in units { return Refused(NotFound); }
      if parentId !in units { return Refused(NotFound); }
      var unit, parent := units[id], units[parentId];
      if unit.parentId == Some(parentId) {
        assert Parents(units) == Parents(units)[id := Some(parentId)];
        return Done;
      }
      if !CanParent(unit.type_, parent.type_) { return Refused(NotAValidPlacement); }
      CycleTestIsExact(units, id, parentId);
      if WouldCreateCycle(unit.path, parent.path) { return Refused(WouldLoop); }
      MoveKeepsBuilt(units, id, parentId);
      MoveKeepsTypes(units, id, parentId);
      MoveChangesOneLink(units, id, parentId);
      hide Moved, Parents, WellBuilt, Typed, OnLoop, CanParent;
      units := Moved(units, id, parentId);
      answer := Done;
    }

    /** Only a unit with nothing under it and nobody in it can go. `people` and `leads` count what is posted
        to the unit. */
    method Remove(id: Id, people: nat, leads: nat) returns (answer: Answer)
      requires WellBuilt(units) && Typed(units)
      modifies this
      ensures WellBuilt(units) && Typed(units)
      ensures answer == if id !in old(units) then Refused(NotFound)
                        else if exists child <- old(units) :: old(units)[child].parentId == Some(id) then Refused(HasChildren)
                        else if people > 0 then Refused(HasPeople)
                        else if leads > 0 then Refused(HasLeads)
                        else Done
      ensures units == if answer.Done? then old(units) - {id} else old(units)
    {
      if id !in units { return Refused(NotFound); }
      if exists child <- units :: units[child].parentId == Some(id) { return Refused(HasChildren); }
      if people > 0 { return Refused(HasPeople); }
      if leads > 0 { return Refused(HasLeads); }
      ghost var before := units;
      units := units - {id};
      forall other | other in units
        ensures BuiltAt(units, other)
      {
        assert BuiltAt(before, other);
      }
      answer := Done;
    }
  }

  lemma {:induction false} GrowthKeepsChain(before: Units, after: Units, id: Id)
    requires WellBuilt(before) && WellBuilt(after) && id in before
    requires forall other <- before :: other in after && after[other] == before[other]
    ensures Chain(after, id) == Chain(before, id)
    decreases |before[id].path|
  {
    assert BuiltAt(before, id);
    if before[id].parentId.Some? {
      GrowthKeepsChain(before, after, before[id].parentId.value);
    }
  }
}
