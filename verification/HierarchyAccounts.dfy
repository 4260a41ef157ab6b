/** User administration request by request: whom a request creates or changes, what it stores, and what
    stays true of roles and employee codes over every run; `user-admin.service.ts` and
    `packages/contracts/src/hierarchy.ts` with the guards written out. */
module HierarchyAccounts {
  import opened Text
  import opened Rbac
  import opened Hierarchy

  // ---------------------------------------------------------------------------
  // The guards written out
  // ---------------------------------------------------------------------------

  /** Some role of the list bundles the permission. */
  ghost predicate RoleGives(matrix: Matrix, roles: seq<Role>, p: Permission) {
    exists i :: 0 <= i < |roles| && p in matrix(roles[i])
  }

  ghost predicate Admin(matrix: Matrix, me: Staff) {
    RoleGives(matrix, me.roles, SystemConfigure)
  }

  /** An administrator reaches everybody; others reach lower levels at or below their own unit. */
  ghost predicate Reaches(matrix: Matrix, me: Staff, level: int, path: Option<string>) {
    || Admin(matrix, me)
    || (&& me.level.Some? && level < me.level.value
        && me.path.Some? && me.path.value != "" && path.Some? && path.value != "" && me.path.value <= path.value)
  }

  /** An administrator grants any role; others only what their own roles give them, or the event switch does. */
  ghost predicate MayGrant(matrix: Matrix, me: Staff, switch: bool, roles: seq<Role>) {
    Admin(matrix, me) || forall p :: RoleGives(matrix, roles, p) ==> RoleGives(matrix, me.roles, p) || (switch && p == EventView)
  }

  /** A manager is somebody known, of a strictly higher level or without a designation. */
  ghost predicate MayLead(users: map<Id, Staff>, manager: Id, level: int) {
    manager in users && (users[manager].level.None? || users[manager].level.value > level)
  }

  lemma GivenIsGranted(matrix: Matrix, roles: seq<Role>, p: Permission)
    ensures RoleGives(matrix, roles, p) <==> p in Granted(matrix, roles)
  {
    if p in Granted(matrix, roles) {
      var role :| role in roles && p in matrix(role);
      var i :| 0 <= i < |roles| && roles[i] == role;
    }
    if i :| 0 <= i < |roles| && p in matrix(roles[i]) {
      assert roles[i] in roles;
    }
  }

  lemma AdminIff(matrix: Matrix, me: Staff, switch: bool)
    ensures Admin(matrix, me) <==> SystemConfigure in ActorPermissions(matrix, me.roles, switch)
    ensures Admin(matrix, me) <==> Unrestricted(matrix, me)
  {
    GivenIsGranted(matrix, me.roles, SystemConfigure);
  }

  lemma ReachesIff(matrix: Matrix, me: Staff, switch: bool, level: int, path: Option<string>)
    ensures var admin := SystemConfigure in ActorPermissions(matrix, me.roles, switch);
            Reaches(matrix, me, level, path) <==> CanManageUserAt(Actor(me.level, me.path, [], admin), level, path)
  {
    hide Admin, ActorPermissions;
    AdminIff(matrix, me, switch);
  }

  lemma MayGrantIff(matrix: Matrix, me: Staff, switch: bool, roles: seq<Role>)
    ensures var held := ActorPermissions(matrix, me.roles, switch);
            MayGrant(matrix, me, switch, roles) <==> (SystemConfigure in held || Granted(matrix, roles) <= held)
  {
    hide Admin, Granted, RoleGives;
    AdminIff(matrix, me, switch);
    forall p ensures RoleGives(matrix, roles, p) <==> p in Granted(matrix, roles) { GivenIsGranted(matrix, roles, p); }
    forall p ensures RoleGives(matrix, me.roles, p) <==> p in Granted(matrix, me.roles) { GivenIsGranted(matrix, me.roles, p); }
  }

  /** Somebody else's employee code. */
  ghost predicate CodeHeld(users: map<Id, Staff>, code: string, but: Id) {
    exists other :: other in users && other != but && users[other].employeeCode == Some(code)
  }

  // ---------------------------------------------------------------------------
  // One request
  // ---------------------------------------------------------------------------

  /** A request creates exactly if designation and unit are active, the new place is within reach, the roles may be
      granted, the manager may lead, the code is free and the rest could be drawn; and then the account says what the
      request said, carries the code asked for or else the one drawn, and names its creator. Nobody else changes. */
  lemma CreatesIff(matrix: Matrix, users: map<Id, Staff>, call: Creation)
    requires call.actor in users && call.id !in users
    ensures var me := users[call.actor];
            Create(matrix, users, call) == (
              if && call.inUse && call.drawn
                 && Reaches(matrix, me, call.level, Some(call.path)) && MayGrant(matrix, me, call.switch, call.roles)
                 && (call.manager.Some? ==> MayLead(users, call.manager.value, call.level))
                 && (call.employeeCode.Some? ==> !CodeHeld(users, call.employeeCode.value, call.id))
              then users[call.id := Staff(Some(call.designation), Some(call.level), Some(call.path), call.roles, call.manager,
                                          if call.employeeCode.Some? then call.employeeCode else call.drawnCode, Some(call.actor))]
              else users)
    ensures Permitted(matrix, users, call) <==> call.id in Create(matrix, users, call)
  {
    hide Reaches, MayGrant, Granted, ActorPermissions, CanManageUserAt;
    ReachesIff(matrix, users[call.actor], call.switch, call.level, Some(call.path));
    MayGrantIff(matrix, users[call.actor], call.switch, call.roles);
  }

  /** A request changes an account exactly if the account is within reach as it is and, once it has both a designation
      and a unit, as it will be; the roles may be granted; a manager named is known and may lead on the resulting
      level; and the code is nobody else's. */
  lemma EditsIff(matrix: Matrix, users: map<Id, Staff>, actor: Id, switch: bool, id: Id, edit: UserEdit)
    requires actor in users
    ensures EditUser(matrix, users, actor, switch, id, edit).1 <==>
              && id in users && edit.inUse
              && var me, target := users[actor], users[id];
                 var level := if edit.post.Some? then Some(edit.post.value.level) else target.level;
                 var path := if edit.path.Some? then edit.path else target.path;
                 && Reaches(matrix, me, if target.level.Some? then target.level.value else 0, target.path)
                 && (level.Some? && path.Some? ==> Reaches(matrix, me, level.value, path))
                 && (edit.roles.Some? ==> MayGrant(matrix, me, switch, edit.roles.value))
                 && (edit.manager.Set? ==> edit.manager.manager in users && (level.Some? ==> MayLead(users, edit.manager.manager, level.value)))
                 && (edit.employeeCode.Some? ==> !CodeHeld(users, edit.employeeCode.value, id))
  {
    hide Reaches, MayGrant, Granted, ActorPermissions, CanManageUserAt;
    if id in users {
      var me, target := users[actor], users[id];
      var level := if edit.post.Some? then Some(edit.post.value.level) else target.level;
      var path := if edit.path.Some? then edit.path else target.path;
      ReachesIff(matrix, me, switch, if target.level.Some? then target.level.value else 0, target.path);
      if level.Some? { ReachesIff(matrix, me, switch, level.value, path); }
      if edit.roles.Some? { MayGrantIff(matrix, me, switch, edit.roles.value); }
    }
  }

  const NO_EDIT := UserEdit(None, None, true, None, Unchanged, None)

  /** A change sets what it names and nothing else, whatever else it names, and never the creator. */
  lemma EditSetsWhatItNames(target: Staff, edit: UserEdit, post: Post, path: string, roles: seq<Role>, manager: Id, code: string)
    ensures Edited(target, NO_EDIT) == target
    ensures Edited(target, edit.(post := Some(post)))
         == Edited(target, edit.(post := None)).(designation := Some(post.designation), level := Some(post.level))
    ensures Edited(target, edit.(path := Some(path))) == Edited(target, edit.(path := None)).(path := Some(path))
    ensures Edited(target, edit.(roles := Some(roles))) == Edited(target, edit.(roles := None)).(roles := roles)
    ensures Edited(target, edit.(manager := Set(manager))) == Edited(target, edit.(manager := Unchanged)).(manager := Some(manager))
    ensures Edited(target, edit.(manager := Cleared)) == Edited(target, edit.(manager := Unchanged)).(manager := None)
    ensures Edited(target, edit.(employeeCode := Some(code))) == Edited(target, edit.(employeeCode := None)).(employeeCode := Some(code))
    ensures Edited(target, edit.(inUse := !edit.inUse)) == Edited(target, edit)
  {
  }

  /** Nobody else's account changes, and none at all on a refusal. */
  lemma EditTouchesOne(matrix: Matrix, users: map<Id, Staff>, actor: Id, switch: bool, id: Id, edit: UserEdit)
    ensures var (after, updated) := EditUser(matrix, users, actor, switch, id, edit);
            after == if updated && id in users then users[id := Edited(users[id], edit)] else users
  {
    hide EditPermitted, Edited;
    EditedKnown(matrix, users, actor, switch, id, edit);
  }

  lemma EditedKnown(matrix: Matrix, users: map<Id, Staff>, actor: Id, switch: bool, id: Id, edit: UserEdit)
    ensures EditPermitted(matrix, users, actor, switch, id, edit) ==> id in users
  {
    hide Granted, CanManageUserAt, Update;
  }

  /** Whatever roles a restricted person gives an account, by creating or by changing it, give nothing the person's own
      roles do not, seeing events aside. */
  lemma GrantedWithinOwn(matrix: Matrix, users: map<Id, Staff>, actor: Id, switch: bool, id: Id, edit: UserEdit, p: Permission)
    requires EditUser(matrix, users, actor, switch, id, edit).1 && edit.roles.Some? && actor in users && !Admin(matrix, users[actor])
    requires RoleGives(matrix, edit.roles.value, p) && p != EventView
    ensures RoleGives(matrix, users[actor].roles, p)
  {
    hide Reaches, RoleGives, Admin, CodeHeld, EditUser;
    EditsIff(matrix, users, actor, switch, id, edit);
  }

  // ---------------------------------------------------------------------------
  // Employee codes
  // ---------------------------------------------------------------------------

  ghost predicate CodesDistinct(users: map<Id, Staff>) {
    forall a, b :: a in users && b in users && a != b && users[a].employeeCode.Some? ==> users[a].employeeCode != users[b].employeeCode
  }

  datatype Request =
    | Creating(call: Creation)
    | Editing(actor: Id, switch: bool, id: Id, edit: UserEdit)
    | Relevelling(level: Post)

  ghost function Serve(matrix: Matrix, users: map<Id, Staff>, request: Request): map<Id, Staff> {
    match request
    case Creating(call) => Create(matrix, users, call)
    case Editing(actor, switch, id, edit) => EditUser(matrix, users, actor, switch, id, edit).0
    case Relevelling(post) => Relevel(users, post)
  }

  ghost function ServeAll(matrix: Matrix, users: map<Id, Staff>, requests: seq<Request>): map<Id, Staff>
    decreases |requests|
  {
    if requests == [] then users else ServeAll(matrix, Serve(matrix, users, requests[0]), requests[1..])
  }

  /** A drawn code is one that nobody had when it was drawn. */
  ghost predicate DrawnFree(matrix: Matrix, users: map<Id, Staff>, requests: seq<Request>)
    decreases |requests|
  {
    requests == [] ||
      (&& (requests[0].Creating? && requests[0].call.drawnCode.Some? ==> !CodeTaken(users, requests[0].call.drawnCode.value))
       && DrawnFree(matrix, Serve(matrix, users, requests[0]), requests[1..]))
  }

  lemma ServeKeepsCodes(matrix: Matrix, users: map<Id, Staff>, request: Request)
    requires CodesDistinct(users)
    requires request.Creating? && request.call.drawnCode.Some? ==> !CodeTaken(users, request.call.drawnCode.value)
    ensures CodesDistinct(Serve(matrix, users, request))
    ensures users.Keys <= Serve(matrix, users, request).Keys
    ensures forall id <- users :: Serve(matrix, users, request)[id].createdBy == users[id].createdBy
  {
    hide Granted, CanManageUserAt, ActorPermissions, Update;
  }

  /** Over every run of creations, changes and new levels: no two accounts share an employee code, no account is lost,
      and nobody's creator changes. */
  lemma {:induction false} RunKeepsCodes(matrix: Matrix, users: map<Id, Staff>, requests: seq<Request>)
    requires CodesDistinct(users) && DrawnFree(matrix, users, requests)
    ensures CodesDistinct(ServeAll(matrix, users, requests))
    ensures users.Keys <= ServeAll(matrix, users, requests).Keys
    ensures forall id <- users :: ServeAll(matrix, users, requests)[id].createdBy == users[id].createdBy
    decreases |requests|
  {
    hide Serve, CodesDistinct;
    if requests != [] {
      ServeKeepsCodes(matrix, users, requests[0]);
      RunKeepsCodes(matrix, Serve(matrix, users, requests[0]), requests[1..]);
    }
  }

  /** A new level reaches everybody who holds the designation, and nothing else of anybody. */
  lemma RelevelIs(users: map<Id, Staff>, post: Post, id: Id)
    requires id in users
    ensures var after := Relevel(users, post);
            after.Keys == users.Keys && after[id] == if users[id].designation == Some(post.designation) then users[id].(level := Some(post.level)) else users[id]
  {
  }

  // ---------------------------------------------------------------------------
  // Scopes and shipped roles
  // ---------------------------------------------------------------------------

  /** From everything to the own rows, each strictly broader than the next. */
  lemma ScopesInOrder(a: Scope, b: Scope)
    ensures Broader(All, Zone) && Broader(Zone, Region) && Broader(Region, Branch) && Broader(Branch, Team) && Broader(Team, Self)
    ensures Broader(a, b) ==> !Broader(b, a)
    ensures a != b ==> Broader(a, b) || Broader(b, a)
  {
  }

  /** What roles allow by default: all rows for any of the four central roles, the team's for a sales manager, and the own
      ones otherwise. */
  lemma {:induction false} BroadestIs(roles: seq<Role>)
    ensures BroadestDefault(roles)
         == if SuperAdmin in roles || Management in roles || Operations in roles || Marketing in roles then All
            else if SalesManager in roles then Team
            else Self
  {
    if roles != [] {
      BroadestIs(roles[..|roles| - 1]);
      assert roles == roles[..|roles| - 1] + [roles[|roles| - 1]];
    }
  }

  /** Users are created by two of the shipped roles. */
  lemma ShippedCreators(role: Role)
    ensures UserCreate in Shipped(role) <==> role == SuperAdmin || role == SalesManager
  {
    assert Shipped(SalesManager)[20] == UserCreate && EveryPermission()[33] == UserCreate;
  }
}
