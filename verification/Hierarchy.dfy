/** The escalation guards of `packages/contracts/src/hierarchy.ts`, and user creation through them as
    `createUser` of `apps/api/src/modules/users/user-admin.service.ts` does it. */
module Hierarchy {
  import opened Text
  import opened Rbac
  import OrgPaths

  type Id = string

  datatype Actor = Actor(level: Option<int>, path: Option<string>, permissions: seq<Permission>, unrestricted: bool)

  /** Is somebody on that level, in that place, within this person's reach? */
  predicate CanManageUserAt(actor: Actor, level: int, path: Option<string>) {
    if actor.unrestricted then true
    else if actor.level.None? then false
    else if level >= actor.level.value then false
    else if actor.path.None? || actor.path.value == "" then false
    else path.Some? && path.value != "" && actor.path.value <= path.value
  }

  /** May this person hand out these roles? Only if nothing in them is beyond what they hold. */
  method CanGrantRoles(permissions: seq<Permission>, matrix: Matrix, roles: seq<Role>, unrestricted: bool) returns (allowed: bool)
    ensures allowed <==> (unrestricted || forall p <- Granted(matrix, roles) :: p in permissions)
  {
    if unrestricted {
      return true;
    }
    var i := 0;
    while i < |roles|
      invariant i <= |roles|
      invariant forall r <- roles[..i] :: forall p <- matrix(r) :: p in permissions
    {
      var required := matrix(roles[i]);
      var j := 0;
      while j < |required|
        invariant j <= |required|
        invariant forall p <- required[..j] :: p in permissions
      {
        if required[j] !in permissions {
          assert roles[i] in roles && required[j] in matrix(roles[i]);
          return false;
        }
        j := j + 1;
      }
      assert required[..j] == required;
      assert roles[..i + 1] == roles[..i] + [roles[i]];
      i := i + 1;
    }
    assert roles[..i] == roles;
    return true;
  }

  predicate ValidReportingLine(reportLevel: int, managerLevel: Option<int>) {
    managerLevel.None? || managerLevel.value > reportLevel
  }

  /** The override counts only as far as it narrows the default. */
  function ScopeForDesignation(designationDefault: Scope, requested: Option<Scope>): Scope {
    if requested.None? then designationDefault
    else if Broader(requested.value, designationDefault) then designationDefault
    else requested.value
  }

  /** On the tree of parent links: an actor manages exactly those who sit at or below the actor's own unit
      on a lower level; unrestricted actors manage everybody. */
  lemma CanManageIff(units: OrgPaths.Units, level: Option<int>, home: Option<Id>, unrestricted: bool, targetLevel: int, unit: Id)
    requires OrgPaths.WellBuilt(units) && unit in units && (home.Some? ==> home.value in units)
    ensures var path := if home.Some? then Some(units[home.value].path) else None;
            CanManageUserAt(Actor(level, path, [], unrestricted), targetLevel, Some(units[unit].path)) <==>
              unrestricted
              || (level.Some? && targetLevel < level.value && home.Some? && OrgPaths.Under(units, unit, home.value))
  {
    OrgPaths.PathIsChain(units, unit);
    if home.Some? {
      OrgPaths.PathIsChain(units, home.value);
      OrgPaths.PrefixIsUnder(units, home.value, unit);
    }
  }

  /** The scope somebody ends up acting with is the narrowest of three: the designation's default, the
      override, and the broadest any role allows. */
  lemma ScopeNeverWidened(designationDefault: Scope, override: Option<Scope>, roles: seq<Role>)
    ensures var scope := EffectiveScope(roles, Some(ScopeForDesignation(designationDefault, override)));
            && !Broader(scope, designationDefault) && (override.Some? ==> !Broader(scope, override.value))
            && !Broader(scope, BroadestDefault(roles))
            && (scope == designationDefault || Some(scope) == override || scope == BroadestDefault(roles))
  {
    BroadestIsBroadest(roles);
  }

  // ---------------------------------------------------------------------------
  // Creating users
  // ---------------------------------------------------------------------------

  /** `level` is the one of the designation held. */
  datatype Staff = Staff(
    designation: Option<Id>, level: Option<int>, path: Option<string>, roles: seq<Role>, manager: Option<Id>,
    employeeCode: Option<string>, createdBy: Option<Id>)

  /** A request by `actor`; `switch` says whether event access was switched on for the actor's level and
      branch at that moment, `inUse` whether the designation and the unit named are active ones. Without an
      employee code in the request the one drawn is stored, if any; `drawn` says whether what the request leaves
      open, a staff code or a work address, could be drawn. */
  datatype Creation = Creation(
    actor: Id, switch: bool, id: Id, designation: Id, level: int, path: string, inUse: bool, roles: seq<Role>,
    manager: Option<Id>, employeeCode: Option<string>, drawnCode: Option<string>, drawn: bool)

  /** What a request acts with: the roles' permissions, and event access if it is switched on. */
  ghost function ActorPermissions(matrix: Matrix, roles: seq<Role>, switch: bool): set<Permission> {
    Granted(matrix, roles) + if switch then {EventView} else {}
  }

  ghost predicate Unrestricted(matrix: Matrix, staff: Staff) {
    SystemConfigure in Granted(matrix, staff.roles)
  }

  ghost predicate Listed(permissions: seq<Permission>, wanted: set<Permission>) {
    forall p :: p in permissions <==> p in wanted
  }

  /** Who may be created by whom: `createUser` up to the point where the row is written. */
  ghost predicate Permitted(matrix: Matrix, users: map<Id, Staff>, call: Creation) {
    && call.actor in users && call.id !in users && call.inUse
    && var me := users[call.actor];
       var unrestricted := SystemConfigure in ActorPermissions(matrix, me.roles, call.switch);
       && CanManageUserAt(Actor(me.level, me.path, [], unrestricted), call.level, Some(call.path))
       && (unrestricted || Granted(matrix, call.roles) <= ActorPermissions(matrix, me.roles, call.switch))
       && (call.manager.Some? ==>
             call.manager.value in users && ValidReportingLine(call.level, users[call.manager.value].level))
       && (call.employeeCode.Some? ==> !CodeTaken(users, call.employeeCode.value))
       && call.drawn
  }

  predicate CodeTaken(users: map<Id, Staff>, code: string) {
    exists id <- users :: users[id].employeeCode == Some(code)
  }

  function NewStaff(call: Creation): Staff {
    Staff(Some(call.designation), Some(call.level), Some(call.path), call.roles, call.manager,
          if call.employeeCode.Some? then call.employeeCode else call.drawnCode, Some(call.actor))
  }

  ghost function Create(matrix: Matrix, users: map<Id, Staff>, call: Creation): map<Id, Staff> {
    if Permitted(matrix, users, call)
    then users[call.id := NewStaff(call)]
    else users
  }

  /** The service method, guard by guard, on the permissions the request carries. */
  class UserAdmin {
    var users: map<Id, Staff>
    const matrix: Matrix

    constructor (matrix: Matrix, users: map<Id, Staff>)
      ensures this.users == users && this.matrix == matrix
    {
      this.users, this.matrix := users, matrix;
    }

    method CreateUser(call: Creation, permissions: seq<Permission>) returns (created: bool)
      requires call.actor in users && call.id !in users
      requires Listed(permissions, ActorPermissions(matrix, users[call.actor].roles, call.switch))
      modifies this
      ensures users == Create(matrix, old(users), call)
      ensures created <==> Permitted(matrix, old(users), call)
    {
      if !call.inUse {
        return false;
      }
      var me := users[call.actor];
      var context := Actor(me.level, me.path, permissions, SystemConfigure in permissions);
      if !CanManageUserAt(context, call.level, Some(call.path)) {
        return false;
      }
      var mayGrant := CanGrantRoles(permissions, matrix, call.roles, context.unrestricted);
      if !mayGrant {
        return false;
      }
      if call.manager.Some? {
        if call.manager.value !in users || !ValidReportingLine(call.level, users[call.manager.value].level) {
          return false;
        }
      }
      if call.employeeCode.Some? {
        if CodeTaken(users, call.employeeCode.value) {
          return false;
        }
      }
      if !call.drawn {
        return false;
      }
      users := users[call.id := NewStaff(call)];
      return true;
    }

    method UpdateUser(actor: Id, switch: bool, permissions: seq<Permission>, id: Id, edit: UserEdit) returns (updated: bool)
      requires actor in users && Listed(permissions, ActorPermissions(matrix, users[actor].roles, switch))
      modifies this
      ensures (users, updated) == EditUser(matrix, old(users), actor, switch, id, edit)
    {
      var permitted := ReviewEdit(matrix, users, actor, switch, permissions, id, edit);
      hide EditPermitted;
      if !permitted {
        return false;
      }
      var target := users[id];
      var designation := if edit.post.Some? then Some(edit.post.value.designation) else target.designation;
      var level := if edit.post.Some? then Some(edit.post.value.level) else target.level;
      var path := if edit.path.Some? then edit.path else target.path;
      var roles := if edit.roles.Some? then edit.roles.value else target.roles;
      var manager := match edit.manager case Unchanged => target.manager case Cleared => None case Set(m) => Some(m);
      var code := if edit.employeeCode.Some? then edit.employeeCode else target.employeeCode;
      users := users[id := Staff(designation, level, path, roles, manager, code, target.createdBy)];
      return true;
    }
  }

  /** The guards of an update, in the source's order. */
  method ReviewEdit(matrix: Matrix, users: map<Id, Staff>, actor: Id, ghost switch: bool, permissions: seq<Permission>, id: Id, edit: UserEdit)
    returns (permitted: bool)
    requires actor in users && Listed(permissions, ActorPermissions(matrix, users[actor].roles, switch))
    ensures permitted <==> EditPermitted(matrix, users, actor, switch, id, edit)
  {
    hide Granted, CanManageUserAt;
    if id !in users {
      return false;
    }
    var me, target := users[actor], users[id];
    var context := Actor(me.level, me.path, permissions, SystemConfigure in permissions);
    GuardIgnoresPermissions(context);
    if !CanManageUserAt(context, if target.level.Some? then target.level.value else 0, target.path) {
      return false;
    }
    if !edit.inUse {
      return false;
    }
    var level := if edit.post.Some? then Some(edit.post.value.level) else target.level;
    var path := if edit.path.Some? then edit.path else target.path;
    if level.Some? && path.Some? {
      if !CanManageUserAt(context, level.value, path) {
        return false;
      }
    }
    if edit.roles.Some? {
      var mayGrant := CanGrantRoles(permissions, matrix, edit.roles.value, context.unrestricted);
      if !mayGrant {
        return false;
      }
    }
    if edit.manager.Set? {
      if edit.manager.manager !in users {
        return false;
      }
      if level.Some? && !ValidReportingLine(level.value, users[edit.manager.manager].level) {
        return false;
      }
    }
    if edit.employeeCode.Some? {
      if exists other <- users :: other != id && users[other].employeeCode == edit.employeeCode {
        return false;
      }
    }
    return true;
  }

  lemma GuardIgnoresPermissions(context: Actor)
    ensures forall level: int, path: Option<string> ::
              CanManageUserAt(context, level, path) <==> CanManageUserAt(context.(permissions := []), level, path)
  {
  }

  // ---------------------------------------------------------------------------
  // Changing designations and managers
  // ---------------------------------------------------------------------------

  /** A designation and its level. */
  datatype Post = Post(designation: Id, level: int)

  datatype ManagerEdit = Unchanged | Cleared | Set(manager: Id)

  function LevelAfter(target: Staff, post: Option<Post>): Option<int> {
    if post.Some? then Some(post.value.level) else target.level
  }

  function ManagerAfter(target: Staff, edit: ManagerEdit): Option<Id> {
    match edit case Unchanged => target.manager case Cleared => None case Set(m) => Some(m)
  }

  /** A line is looked at only if the request names a manager and somebody with a designation results. */
  function Update(users: map<Id, Staff>, id: Id, post: Option<Post>, edit: ManagerEdit): (map<Id, Staff>, bool) {
    if id !in users || (edit.Set? && edit.manager !in users) then (users, false)
    else
      var target := users[id];
      var level := LevelAfter(target, post);
      if edit.Set? && level.Some? && !ValidReportingLine(level.value, users[edit.manager].level) then (users, false)
      else
        (users[id := target.(
           designation := if post.Some? then Some(post.value.designation) else target.designation,
           level := level, manager := ManagerAfter(target, edit))], true)
  }

  /** What an update may say: a designation, the path of a unit, whether what it names is active, roles, a
      manager and an employee code. */
  datatype UserEdit = UserEdit(
    post: Option<Post>, path: Option<string>, inUse: bool, roles: Option<seq<Role>>, manager: ManagerEdit,
    employeeCode: Option<string>)

  function PathAfter(target: Staff, edit: UserEdit): Option<string> {
    if edit.path.Some? then edit.path else target.path
  }

  /** Whose account may be changed how: the target as it is must be within reach, and as it will be, if it
      will have both a designation and a unit. */
  ghost predicate EditPermitted(matrix: Matrix, users: map<Id, Staff>, actor: Id, switch: bool, id: Id, edit: UserEdit) {
    && actor in users && id in users && edit.inUse
    && var me, target := users[actor], users[id];
       var held := ActorPermissions(matrix, me.roles, switch);
       var unrestricted := SystemConfigure in held;
       var context := Actor(me.level, me.path, [], unrestricted);
       var level, path := LevelAfter(target, edit.post), PathAfter(target, edit);
       && CanManageUserAt(context, if target.level.Some? then target.level.value else 0, target.path)
       && (level.Some? && path.Some? ==> CanManageUserAt(context, level.value, path))
       && (edit.roles.Some? ==> unrestricted || Granted(matrix, edit.roles.value) <= held)
       && Update(users, id, edit.post, edit.manager).1
       && (edit.employeeCode.Some? ==> forall other <- users :: other != id ==> users[other].employeeCode != edit.employeeCode)
  }

  ghost function EditUser(matrix: Matrix, users: map<Id, Staff>, actor: Id, switch: bool, id: Id, edit: UserEdit): (map<Id, Staff>, bool) {
    if EditPermitted(matrix, users, actor, switch, id, edit) then (users[id := Edited(users[id], edit)], true) else (users, false)
  }

  function Edited(target: Staff, edit: UserEdit): Staff {
    Staff(if edit.post.Some? then Some(edit.post.value.designation) else target.designation,
          LevelAfter(target, edit.post), PathAfter(target, edit),
          if edit.roles.Some? then edit.roles.value else target.roles, ManagerAfter(target, edit.manager),
          if edit.employeeCode.Some? then edit.employeeCode else target.employeeCode, target.createdBy)
  }

  /** Lower than the actor, as far as there is a level, and inside the actor's part of the organisation. */
  predicate WithinReach(me: Staff, other: Staff) {
    && me.level.Some? && me.path.Some? && me.path.value != ""
    && (other.level.Some? ==> other.level.value < me.level.value)
    && other.path.Some? && me.path.value <= other.path.value
  }

  /** An update by a restricted actor starts within reach, and ends within reach exactly if the account has a
      designation afterwards or its unit lies inside the actor's part of the organisation all the same. */
  lemma EditStaysWithinIff(matrix: Matrix, users: map<Id, Staff>, actor: Id, switch: bool, id: Id, edit: UserEdit)
    requires EditUser(matrix, users, actor, switch, id, edit).1 && !Unrestricted(matrix, users[actor])
    requires forall u <- users :: users[u].level.Some? ==> users[u].level.value >= 1
    ensures var me, after := users[actor], EditUser(matrix, users, actor, switch, id, edit).0[id];
            && WithinReach(me, users[id]) && me.path.Some? && after.path.Some?
            && (WithinReach(me, after) <==> after.level.Some? || me.path.value <= after.path.value)
  {
    hide Granted;
  }

  /** A case in which it does not: an account without a designation is moved to another branch. */
  lemma UndesignatedMovesOut(actor: Id, id: Id)
    requires actor != id
    ensures var me := Staff(None, Some(40), Some("/a/"), [], None, None, None);
            var users := map[actor := me, id := Staff(None, None, Some("/a/"), [], None, None, None)];
            var (after, updated) := EditUser(Shipped, users, actor, false, id, UserEdit(None, Some("/b/"), true, None, Unchanged, None));
            updated && !Unrestricted(Shipped, me) && after[id].path == Some("/b/") && !WithinReach(me, after[id])
  {
    assert "/a/"[1] != "/b/"[1];
  }

  /** `updateDesignation`: everybody who holds the designation moves to the new level. */
  function Relevel(users: map<Id, Staff>, post: Post): map<Id, Staff> {
    map id | id in users :: if users[id].designation == Some(post.designation) then users[id].(level := Some(post.level)) else users[id]
  }

  // ---------------------------------------------------------------------------
  // Creation chains
  // ---------------------------------------------------------------------------

  ghost function Run(matrix: Matrix, users: map<Id, Staff>, calls: seq<Creation>): map<Id, Staff>
    decreases |calls|
  {
    if calls == [] then users else Run(matrix, Create(matrix, users, calls[0]), calls[1..])
  }

  /** The permissions that may slip past the guards: seeing events, unless the matrix prevents it. */
  ghost predicate IsSlack(matrix: Matrix, slack: set<Permission>) {
    slack == {EventView} || (slack == {} && NothingGained(matrix))
  }

  /** What both guards leave between a restricted creator and the account created. */
  ghost predicate Below(matrix: Matrix, creator: Staff, created: Staff, slack: set<Permission>) {
    && creator.level.Some? && created.level.Some? && created.level.value < creator.level.value
    && creator.path.Some? && created.path.Some? && creator.path.value != "" && creator.path.value <= created.path.value
    && Granted(matrix, created.roles) <= Granted(matrix, creator.roles) + slack
  }

  ghost predicate LinkOk(matrix: Matrix, users: map<Id, Staff>, id: Id, slack: set<Permission>)
    requires id in users
  {
    users[id].createdBy.Some? ==>
      && users[id].createdBy.value in users
      && users[id].level.Some? && users[id].level.value >= 1
      && (!Unrestricted(matrix, users[users[id].createdBy.value]) ==>
            Below(matrix, users[users[id].createdBy.value], users[id], slack))
  }

  ghost predicate Guarded(matrix: Matrix, users: map<Id, Staff>, slack: set<Permission>) {
    forall id <- users :: LinkOk(matrix, users, id, slack)
  }

  lemma CreateGuarded(matrix: Matrix, users: map<Id, Staff>, call: Creation, slack: set<Permission>)
    requires IsSlack(matrix, slack) && Guarded(matrix, users, slack) && call.level >= 1
    ensures Guarded(matrix, Create(matrix, users, call), slack)
    ensures forall id <- users :: id in Create(matrix, users, call) && Create(matrix, users, call)[id] == users[id]
  {
    hide Granted;
    var after := Create(matrix, users, call);
    forall id <- after ensures LinkOk(matrix, after, id, slack) {
      if id in users && id != call.id {
        assert LinkOk(matrix, users, id, slack);
      }
    }
  }

  /** The guards keep this over every run of creations, with designation levels from 1 up. */
  lemma {:induction false} RunGuarded(matrix: Matrix, users: map<Id, Staff>, calls: seq<Creation>, slack: set<Permission>)
    requires IsSlack(matrix, slack) && Guarded(matrix, users, slack) && forall call <- calls :: call.level >= 1
    ensures Guarded(matrix, Run(matrix, users, calls), slack)
    ensures forall id <- users :: id in Run(matrix, users, calls) && Run(matrix, users, calls)[id] == users[id]
    decreases |calls|
  {
    hide Guarded, Create, IsSlack;
    if calls != [] {
      CreateGuarded(matrix, users, calls[0], slack);
      RunGuarded(matrix, Create(matrix, users, calls[0]), calls[1..], slack);
    }
  }

  /** Each account in the list was created by the one before it. */
  ghost predicate CreationChain(users: map<Id, Staff>, chain: seq<Id>) {
    && chain != [] && (forall id <- chain :: id in users)
    && forall i :: 0 < i < |chain| ==> users[chain[i]].createdBy == Some(chain[i - 1])
  }

  lemma BelowIsRestricted(matrix: Matrix, creator: Staff, created: Staff, slack: set<Permission>)
    requires slack <= {EventView} && Below(matrix, creator, created, slack) && !Unrestricted(matrix, creator)
    ensures !Unrestricted(matrix, created)
  {
  }

  /** Everyone a restricted person creates, directly or through others, is restricted, sits that many
      levels lower at least, inside that person's part of the organisation, and has no role permission
      beyond that person's; except, for a matrix that lets it leak, the one for seeing events. */
  lemma {:induction false} ChainStaysBelow(matrix: Matrix, users: map<Id, Staff>, chain: seq<Id>, slack: set<Permission>)
    requires slack <= {EventView} && Guarded(matrix, users, slack) && CreationChain(users, chain) && |chain| > 1
    requires !Unrestricted(matrix, users[chain[0]])
    ensures var top, last := users[chain[0]], users[chain[|chain| - 1]];
            && Below(matrix, top, last, slack) && !Unrestricted(matrix, last)
            && 1 <= last.level.value <= top.level.value - (|chain| - 1)
    decreases |chain|
  {
    hide Granted, Unrestricted;
    var n := |chain| - 1;
    var earlier := chain[..n];
    assert LinkOk(matrix, users, chain[n], slack);
    assert users[chain[n]].createdBy == Some(chain[n - 1]);
    if n > 1 {
      assert CreationChain(users, earlier);
      ChainStaysBelow(matrix, users, earlier, slack);
      assert earlier[n - 1] == chain[n - 1] && earlier[0] == chain[0];
    }
    BelowIsRestricted(matrix, users[chain[n - 1]], users[chain[n]], slack);
  }

  /** So creation chains are no longer than the level of whoever started them. */
  lemma ChainIsBounded(matrix: Matrix, users: map<Id, Staff>, chain: seq<Id>, slack: set<Permission>)
    requires slack <= {EventView} && Guarded(matrix, users, slack) && CreationChain(users, chain) && |chain| > 1
    requires !Unrestricted(matrix, users[chain[0]])
    ensures users[chain[0]].level.Some? && |chain| <= users[chain[0]].level.value
  {
    ChainStaysBelow(matrix, users, chain, slack);
  }

  // ---------------------------------------------------------------------------
  // Seeing events
  // ---------------------------------------------------------------------------

  /** A role that carries event access also carries something that only roles with event access, or
      administrators, carry. */
  ghost predicate HasMark(matrix: Matrix, role: Role, mark: Permission) {
    mark in matrix(role) && forall other :: mark in matrix(other) && SystemConfigure !in matrix(other) ==> EventView in matrix(other)
  }

  ghost predicate EventViewNeverAlone(matrix: Matrix) {
    forall role :: EventView in matrix(role) ==> exists mark :: mark != EventView && HasMark(matrix, role, mark)
  }

  /** No restricted actor can hand out a permission beyond the actor's own roles. */
  ghost predicate NothingGained(matrix: Matrix) {
    forall mine: seq<Role>, switch: bool, roles: seq<Role> ::
      SystemConfigure !in Granted(matrix, mine) && Granted(matrix, roles) <= ActorPermissions(matrix, mine, switch)
      ==> Granted(matrix, roles) <= Granted(matrix, mine)
  }

  lemma MarkGivesEventView(matrix: Matrix, mine: seq<Role>, role: Role, mark: Permission)
    requires HasMark(matrix, role, mark) && mark in Granted(matrix, mine) && SystemConfigure !in Granted(matrix, mine)
    ensures EventView in Granted(matrix, mine)
  {
    var other :| other in mine && mark in matrix(other);
    assert SystemConfigure !in matrix(other);
    assert EventView in matrix(other);
  }

  /** Roles without event access and without administration that together carry everything `wanted`
      lists apart from event access. */
  lemma {:induction false} Cover(matrix: Matrix, role: Role, wanted: seq<Permission>) returns (mine: seq<Role>)
    requires forall mark <- wanted :: mark in matrix(role)
    requires forall mark :: mark != EventView ==> !HasMark(matrix, role, mark)
    ensures EventView !in Granted(matrix, mine) && SystemConfigure !in Granted(matrix, mine)
    ensures forall p <- wanted :: p == EventView || p in Granted(matrix, mine)
  {
    if wanted == [] {
      mine := [];
    } else {
      var mark := wanted[|wanted| - 1];
      var earlier := wanted[..|wanted| - 1];
      var found := Cover(matrix, role, earlier);
      mine := found;
      assert mark in wanted;
      if mark != EventView {
        assert !HasMark(matrix, role, mark);
        var other :| mark in matrix(other) && SystemConfigure !in matrix(other) && EventView !in matrix(other);
        GrantedSnoc(matrix, found, other);
        mine := found + [other];
      }
      assert forall p <- wanted :: p in earlier || p == mark;
    }
  }

  /** The switch lets a restricted person grant event access without a role that has it exactly when the
      matrix has a role whose other permissions can all be held without it. */
  lemma NothingGainedIff(matrix: Matrix)
    ensures NothingGained(matrix) <==> EventViewNeverAlone(matrix)
  {
    if EventViewNeverAlone(matrix) {
      forall mine: seq<Role>, switch: bool, roles: seq<Role> |
        SystemConfigure !in Granted(matrix, mine) && Granted(matrix, roles) <= ActorPermissions(matrix, mine, switch)
        ensures Granted(matrix, roles) <= Granted(matrix, mine)
      {
        GainsNothing(matrix, mine, switch, roles);
      }
    } else {
      var role :| EventView in matrix(role) && forall mark :: mark != EventView ==> !HasMark(matrix, role, mark);
      var mine := Cover(matrix, role, matrix(role));
      assert EventView in Granted(matrix, [role]);
      assert Granted(matrix, [role]) <= ActorPermissions(matrix, mine, true);
    }
  }

  /** A matrix of the other kind: event access is a role of its own. */
  function EventsOnly(role: Role): seq<Permission> {
    if role == Customer then [EventView] else []
  }

  /** Under it somebody with no role at all, while the switch is on, may grant the role. */
  lemma EventViewLeaks()
    ensures !EventViewNeverAlone(EventsOnly)
    ensures Granted(EventsOnly, [Customer]) <= ActorPermissions(EventsOnly, [], true)
    ensures SystemConfigure !in Granted(EventsOnly, []) && !(Granted(EventsOnly, [Customer]) <= Granted(EventsOnly, []))
  {
    assert EventView in EventsOnly(Customer);
    forall mark | mark != EventView ensures !HasMark(EventsOnly, Customer, mark) {}
    assert Customer in [Customer] && EventView in Granted(EventsOnly, [Customer]);
  }

  lemma GainsNothing(matrix: Matrix, mine: seq<Role>, switch: bool, roles: seq<Role>)
    requires EventViewNeverAlone(matrix)
    requires SystemConfigure !in Granted(matrix, mine) && Granted(matrix, roles) <= ActorPermissions(matrix, mine, switch)
    ensures Granted(matrix, roles) <= Granted(matrix, mine)
  {
    if EventView in Granted(matrix, roles) {
      var role :| role in roles && EventView in matrix(role);
      var mark :| mark != EventView && HasMark(matrix, role, mark);
      assert mark in Granted(matrix, roles);
      MarkGivesEventView(matrix, mine, role, mark);
    }
  }

  lemma AuditMark(other: Role)
    ensures AuditRead in Shipped(other) <==> other == Management || other == SuperAdmin
  {
    assert Shipped(Management)[15] == AuditRead && EveryPermission()[36] == AuditRead;
  }

  lemma CampaignMark(other: Role)
    ensures CampaignCreate in Shipped(other) <==> other == Marketing || other == SuperAdmin
  {
    assert Shipped(Marketing)[6] == CampaignCreate && EveryPermission()[25] == CampaignCreate;
  }

  lemma EventViewMark(other: Role)
    ensures EventView in Shipped(other) <==> other == Management || other == Marketing || other == SuperAdmin
  {
    assert Shipped(Management)[10] == EventView && Shipped(Marketing)[8] == EventView && EveryPermission()[27] == EventView;
  }

  lemma SystemMark(other: Role)
    ensures SystemConfigure in Shipped(other) <==> other == SuperAdmin
  {
    assert EveryPermission()[37] == SystemConfigure;
  }

  /** The shipped matrix has no such role: nothing is gained through the switch. */
  lemma ShippedGainsNothing()
    ensures NothingGained(Shipped)
  {
    hide Shipped;
    forall role | EventView in Shipped(role) ensures exists mark :: mark != EventView && HasMark(Shipped, role, mark) {
      forall other: Role
        ensures AuditRead in Shipped(other) <==> other == Management || other == SuperAdmin
        ensures CampaignCreate in Shipped(other) <==> other == Marketing || other == SuperAdmin
        ensures EventView in Shipped(other) <==> other == Management || other == Marketing || other == SuperAdmin
        ensures SystemConfigure in Shipped(other) <==> other == SuperAdmin
      {
        AuditMark(other);
        CampaignMark(other);
        EventViewMark(other);
        SystemMark(other);
      }
      var mark := if role == Management then AuditRead else if role == Marketing then CampaignCreate else SystemConfigure;
      assert HasMark(Shipped, role, mark);
    }
    NothingGainedIff(Shipped);
  }

  /** The same, from the beginning: after any run of creations in a table where nobody was created by anybody
      yet, all that a restricted person has created, directly or through others, stays below that person. */
  lemma CreatedStaysBelow(matrix: Matrix, users: map<Id, Staff>, calls: seq<Creation>, chain: seq<Id>, slack: set<Permission>)
    requires IsSlack(matrix, slack) && (forall id <- users :: users[id].createdBy.None?) && forall call <- calls :: call.level >= 1
    requires var after := Run(matrix, users, calls);
             CreationChain(after, chain) && |chain| > 1 && !Unrestricted(matrix, after[chain[0]])
    ensures var after := Run(matrix, users, calls);
            Below(matrix, after[chain[0]], after[chain[|chain| - 1]], slack)
  {
    hide Run, Below, Unrestricted, NothingGained;
    RunGuarded(matrix, users, calls, slack);
    ChainStaysBelow(matrix, Run(matrix, users, calls), chain, slack);
  }

  /** Under the shipped matrix nothing slips through: no role permission is ever beyond those of whoever the
      chain of creations started with. */
  lemma ShippedNeverEscalates(users: map<Id, Staff>, calls: seq<Creation>, chain: seq<Id>)
    requires (forall id <- users :: users[id].createdBy.None?) && forall call <- calls :: call.level >= 1
    requires var after := Run(Shipped, users, calls);
             CreationChain(after, chain) && |chain| > 1 && !Unrestricted(Shipped, after[chain[0]])
    ensures var after := Run(Shipped, users, calls);
            Granted(Shipped, after[chain[|chain| - 1]].roles) <= Granted(Shipped, after[chain[0]].roles)
  {
    hide Run, Shipped, Granted, NothingGained;
    ShippedGainsNothing();
    CreatedStaysBelow(Shipped, users, calls, chain, {});
  }
}
