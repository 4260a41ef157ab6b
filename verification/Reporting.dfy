/** Reporting lines: `validateReportingLine` of `packages/contracts/src/hierarchy.ts` and who calls it in
    `apps/api/src/modules/users/user-admin.service.ts`. When the lines stay valid, and what that keeps
    out. */
module Reporting {
  import opened Text
  import opened Rbac
  import opened Hierarchy

  /** A reporting line as the rule wants it; the rule is silent about reports without a designation. */
  ghost predicate LineValid(users: map<Id, Staff>, id: Id)
    requires id in users
  {
    users[id].manager.Some? ==>
      && users[id].manager.value in users
      && (users[id].level.Some? ==> ValidReportingLine(users[id].level.value, users[users[id].manager.value].level))
  }

  ghost predicate LinesValid(users: map<Id, Staff>) {
    forall id <- users :: LineValid(users, id)
  }

  // ---------------------------------------------------------------------------
  // What each change does to the lines
  // ---------------------------------------------------------------------------

  /** Creation always goes through the check. */
  lemma CreateKeepsLines(matrix: Matrix, users: map<Id, Staff>, call: Creation)
    requires LinesValid(users)
    ensures LinesValid(Create(matrix, users, call))
  {
    hide Granted, CanManageUserAt, CodeTaken;
    var after := Create(matrix, users, call);
    forall id <- after ensures LineValid(after, id) {
      if id in users {
        assert LineValid(users, id);
      }
    }
  }

  /** The person's own line: a manager kept must stay above the new level, and nobody with a designation may
      be put under themselves. */
  predicate FitsManager(users: map<Id, Staff>, id: Id, post: Option<Post>, edit: ManagerEdit)
    requires id in users
  {
    var level, manager := LevelAfter(users[id], post), ManagerAfter(users[id], edit);
    level.Some? && manager.Some? ==>
      && manager.value != id
      && (edit.Unchanged? && manager.value in users ==> ValidReportingLine(level.value, users[manager.value].level))
  }

  /** The lines of the person's reports: the new level must stay above every one of them. */
  predicate FitsReports(users: map<Id, Staff>, id: Id, post: Option<Post>)
    requires id in users
  {
    var level := LevelAfter(users[id], post);
    forall r <- users :: r != id && users[r].manager == Some(id) && users[r].level.Some? ==>
      ValidReportingLine(users[r].level.value, level)
  }

  /** An accepted update keeps all lines valid exactly if the level that results lies below the manager
      kept and above all reports, and the person is not their own manager. Nothing of this is looked at
      unless the request names a manager, and then only the manager named. */
  lemma UpdateKeepsLinesIff(users: map<Id, Staff>, id: Id, post: Option<Post>, edit: ManagerEdit)
    requires LinesValid(users) && Update(users, id, post, edit).1
    ensures LinesValid(Update(users, id, post, edit).0) <==> FitsManager(users, id, post, edit) && FitsReports(users, id, post)
  {
    var after := Update(users, id, post, edit).0;
    assert LineValid(users, id);
    if FitsManager(users, id, post, edit) && FitsReports(users, id, post) {
      forall u <- after ensures LineValid(after, u) {
        assert LineValid(users, u);
      }
    }
    if LinesValid(after) {
      assert LineValid(after, id);
      forall r <- users | r != id && users[r].manager == Some(id) && users[r].level.Some?
        ensures ValidReportingLine(users[r].level.value, LevelAfter(users[id], post))
      {
        assert LineValid(after, r);
      }
    }
  }

  /** Naming a manager and nothing else never breaks a line. */
  lemma ReassignKeepsLines(users: map<Id, Staff>, id: Id, manager: Id)
    requires LinesValid(users)
    ensures LinesValid(Update(users, id, None, Set(manager)).0)
  {
    if Update(users, id, None, Set(manager)).1 {
      forall r <- users | r != id && users[r].manager == Some(id) && users[r].level.Some?
        ensures ValidReportingLine(users[r].level.value, users[id].level)
      {
        assert LineValid(users, r);
      }
      UpdateKeepsLinesIff(users, id, None, Set(manager));
    }
  }

  /** The rest of an update has no bearing on the lines, and its guards only refuse more. */
  lemma EditKeepsLinesIff(matrix: Matrix, users: map<Id, Staff>, actor: Id, switch: bool, id: Id, edit: UserEdit)
    requires LinesValid(users) && EditUser(matrix, users, actor, switch, id, edit).1
    ensures LinesValid(EditUser(matrix, users, actor, switch, id, edit).0)
       <==> FitsManager(users, id, edit.post, edit.manager) && FitsReports(users, id, edit.post)
  {
    hide Granted, CanManageUserAt, FitsManager, FitsReports, LinesValid;
    UpdateKeepsLinesIff(users, id, edit.post, edit.manager);
    SameLines(Update(users, id, edit.post, edit.manager).0, EditUser(matrix, users, actor, switch, id, edit).0);
  }

  lemma SameLines(a: map<Id, Staff>, b: map<Id, Staff>)
    requires a.Keys == b.Keys && forall id <- a :: a[id].level == b[id].level && a[id].manager == b[id].manager
    ensures LinesValid(a) <==> LinesValid(b)
  {
    forall id <- a ensures LineValid(a, id) <==> LineValid(b, id) {}
  }

  predicate Holds(users: map<Id, Staff>, id: Id, designation: Id)
    requires id in users
  {
    users[id].designation == Some(designation)
  }

  /** A designation's new level fits the line of one report. */
  predicate FitsLine(users: map<Id, Staff>, id: Id, post: Post)
    requires id in users
  {
    users[id].manager.Some? && users[id].manager.value in users ==>
      var m := users[id].manager.value;
      && !(Holds(users, id, post.designation) && Holds(users, m, post.designation))
      && (Holds(users, id, post.designation) ==> ValidReportingLine(post.level, users[m].level))
      && (Holds(users, m, post.designation) && users[id].level.Some? ==> ValidReportingLine(users[id].level.value, Some(post.level)))
  }

  /** Moving a designation to another level keeps all lines valid exactly if the level stays below every
      manager and above every report of those who hold it, and no two of them report to each other. */
  lemma RelevelKeepsLinesIff(users: map<Id, Staff>, post: Post)
    requires LinesValid(users)
    ensures LinesValid(Relevel(users, post)) <==> forall id <- users :: FitsLine(users, id, post)
  {
    var after := Relevel(users, post);
    forall id <- users ensures LineValid(after, id) <==> FitsLine(users, id, post) {
      assert LineValid(users, id);
    }
    assert after.Keys == users.Keys;
  }

  // ---------------------------------------------------------------------------
  // Runs
  // ---------------------------------------------------------------------------

  datatype Change =
    | Creating(call: Creation)
    | Updating(id: Id, post: Option<Post>, edit: ManagerEdit)
    | Relevelling(level: Post)

  ghost function Apply(matrix: Matrix, users: map<Id, Staff>, change: Change): map<Id, Staff> {
    match change
    case Creating(call) => Create(matrix, users, call)
    case Updating(id, post, edit) => Update(users, id, post, edit).0
    case Relevelling(post) => Relevel(users, post)
  }

  ghost function RunOf(matrix: Matrix, users: map<Id, Staff>, changes: seq<Change>): map<Id, Staff>
    decreases |changes|
  {
    if changes == [] then users else RunOf(matrix, Apply(matrix, users, changes[0]), changes[1..])
  }

  predicate Fits(users: map<Id, Staff>, change: Change) {
    match change
    case Creating(call) => true
    case Updating(id, post, edit) =>
      Update(users, id, post, edit).1 ==> FitsManager(users, id, post, edit) && FitsReports(users, id, post)
    case Relevelling(post) => forall id <- users :: FitsLine(users, id, post)
  }

  ghost predicate AllFit(matrix: Matrix, users: map<Id, Staff>, changes: seq<Change>)
    decreases |changes|
  {
    changes == [] || (Fits(users, changes[0]) && AllFit(matrix, Apply(matrix, users, changes[0]), changes[1..]))
  }

  ghost predicate ValidThroughout(matrix: Matrix, users: map<Id, Staff>, changes: seq<Change>)
    decreases |changes|
  {
    LinesValid(users) && (changes == [] || ValidThroughout(matrix, Apply(matrix, users, changes[0]), changes[1..]))
  }

  lemma ApplyKeepsLinesIff(matrix: Matrix, users: map<Id, Staff>, change: Change)
    requires LinesValid(users)
    ensures LinesValid(Apply(matrix, users, change)) <==> Fits(users, change)
  {
    hide Create, LinesValid, FitsManager, FitsReports, Relevel, FitsLine;
    match change
    case Creating(call) => CreateKeepsLines(matrix, users, call);
    case Updating(id, post, edit) =>
      if Update(users, id, post, edit).1 { UpdateKeepsLinesIff(users, id, post, edit); }
    case Relevelling(post) => RelevelKeepsLinesIff(users, post);
  }

  /** Over every run of user administration the lines are valid throughout exactly if every change fits. */
  lemma {:induction false} ValidThroughoutIff(matrix: Matrix, users: map<Id, Staff>, changes: seq<Change>)
    requires LinesValid(users)
    ensures ValidThroughout(matrix, users, changes) <==> AllFit(matrix, users, changes)
    ensures AllFit(matrix, users, changes) ==> LinesValid(RunOf(matrix, users, changes))
    decreases |changes|
  {
    hide LinesValid, Apply, Fits;
    if changes != [] {
      var next := Apply(matrix, users, changes[0]);
      ApplyKeepsLinesIff(matrix, users, changes[0]);
      if LinesValid(next) {
        ValidThroughoutIff(matrix, next, changes[1..]);
      } else {
        assert !ValidThroughout(matrix, next, changes[1..]);
      }
    }
  }

  // ---------------------------------------------------------------------------
  // Loops
  // ---------------------------------------------------------------------------

  /** From a report to the manager, and on. */
  ghost predicate ManagerChain(users: map<Id, Staff>, chain: seq<Id>) {
    && chain != [] && (forall id <- chain :: id in users)
    && forall i :: 0 <= i < |chain| - 1 ==> users[chain[i]].manager == Some(chain[i + 1])
  }

  ghost predicate LoopFree(users: map<Id, Staff>) {
    forall chain :: ManagerChain(users, chain) && |chain| > 1 ==> chain[0] != chain[|chain| - 1]
  }

  ghost predicate AllDesignated(users: map<Id, Staff>) {
    forall id <- users :: users[id].level.Some?
  }

  lemma {:induction false} LevelsRise(users: map<Id, Staff>, chain: seq<Id>)
    requires LinesValid(users) && ManagerChain(users, chain) && forall id <- chain :: users[id].level.Some?
    ensures users[chain[|chain| - 1]].level.value >= users[chain[0]].level.value + |chain| - 1
  {
    if |chain| > 1 {
      var n := |chain| - 1;
      LevelsRise(users, chain[..n]);
      assert chain[..n][n - 1] == chain[n - 1];
      assert LineValid(users, chain[n - 1]);
    }
  }

  /** A loop of valid lines always runs through somebody without a designation. */
  lemma LoopsNeedUndesignated(users: map<Id, Staff>, loop: seq<Id>)
    requires LinesValid(users) && ManagerChain(users, loop) && |loop| > 1 && loop[0] == loop[|loop| - 1]
    ensures exists i :: 0 <= i < |loop| - 1 && users[loop[i]].level.None? && users[loop[i]].manager.Some?
  {
    if forall i :: 0 <= i < |loop| - 1 ==> users[loop[i]].level.Some? {
      assert forall i :: 0 <= i < |loop| ==> users[loop[i]].level.Some?;
      LevelsRise(users, loop);
    } else {
      var i :| 0 <= i < |loop| - 1 && users[loop[i]].level.None?;
      assert users[loop[i]].manager == Some(loop[i + 1]);
    }
  }

  /** So while nobody without a designation has a manager, no chain of managers comes back to where it
      started. */
  lemma ReportingIsAcyclic(users: map<Id, Staff>)
    requires LinesValid(users) && forall id <- users :: users[id].manager.Some? ==> users[id].level.Some?
    ensures LoopFree(users)
  {
    forall chain | ManagerChain(users, chain) && |chain| > 1 ensures chain[0] != chain[|chain| - 1] {
      if chain[0] == chain[|chain| - 1] {
        LoopsNeedUndesignated(users, chain);
      }
    }
  }

  /** The same people on the same levels, with other lines. */
  ghost predicate SamePeople(users: map<Id, Staff>, other: map<Id, Staff>) {
    other.Keys == users.Keys && forall id <- users :: other[id].level == users[id].level
  }

  ghost predicate RuleExcludesLoops(users: map<Id, Staff>) {
    forall other :: SamePeople(users, other) && LinesValid(other) ==> LoopFree(other)
  }

  /** For given people and levels, the rule excludes every loop exactly if everybody holds a designation. */
  lemma RuleExcludesLoopsIff(users: map<Id, Staff>)
    ensures RuleExcludesLoops(users) <==> AllDesignated(users)
  {
    if AllDesignated(users) {
      forall other | SamePeople(users, other) && LinesValid(other) ensures LoopFree(other) {
        ReportingIsAcyclic(other);
      }
    } else {
      var id :| id in users && users[id].level.None?;
      var other := map u | u in users :: users[u].(manager := if u == id then Some(id) else None);
      assert SamePeople(users, other);
      forall u <- other ensures LineValid(other, u) {}
      assert ManagerChain(other, [id, id]);
      assert !LoopFree(other) by {
        var chain := [id, id];
        assert chain[0] == chain[|chain| - 1];
      }
    }
  }

  /** Designations are never taken away. */
  lemma ApplyKeepsDesignations(matrix: Matrix, users: map<Id, Staff>, change: Change)
    requires AllDesignated(users)
    ensures AllDesignated(Apply(matrix, users, change))
  {
    hide Permitted;
  }

  /** So if everybody holds a designation to begin with, no run in which every change fits makes a loop. */
  lemma {:induction false} FittingRunsAreLoopFree(matrix: Matrix, users: map<Id, Staff>, changes: seq<Change>)
    requires LinesValid(users) && AllDesignated(users) && AllFit(matrix, users, changes)
    ensures LoopFree(RunOf(matrix, users, changes)) && AllDesignated(RunOf(matrix, users, changes))
    decreases |changes|
  {
    hide LinesValid, Apply, Fits, LoopFree;
    if changes == [] {
      ReportingIsAcyclic(users);
    } else {
      ApplyKeepsLinesIff(matrix, users, changes[0]);
      ApplyKeepsDesignations(matrix, users, changes[0]);
      FittingRunsAreLoopFree(matrix, Apply(matrix, users, changes[0]), changes[1..]);
    }
  }

  // ---------------------------------------------------------------------------
  // The three ways a loop gets in
  // ---------------------------------------------------------------------------

  function Account(level: Option<int>, manager: Option<Id>): Staff {
    Staff(None, level, None, [], manager, None, None)
  }

  /** An account without a designation may be put under its own report: no check is made. */
  lemma UndesignatedLoop(admin: Id, head: Id)
    requires admin != head
    ensures var users := map[admin := Account(None, None), head := Account(Some(40), Some(admin))];
            LinesValid(users) && Update(users, admin, None, Set(head)).1
    ensures var users := map[admin := Account(None, None), head := Account(Some(40), Some(admin))];
            ManagerChain(Update(users, admin, None, Set(head)).0, [admin, head, admin])
  {
  }

  /** A manager is demoted below a report, which no check looks at, and then put under that report, which
      the check allows. Both hold designations throughout. */
  lemma DemotionLoop(x: Id, m: Id, junior: Id)
    requires x != m
    ensures var users := map[x := Account(Some(30), Some(m)), m := Account(Some(40), None)];
            var (demoted, first) := Update(users, m, Some(Post(junior, 20)), Unchanged);
            var (looped, second) := Update(demoted, m, None, Set(x));
            LinesValid(users) && first && !LinesValid(demoted) && second && ManagerChain(looped, [m, x, m])
  {
    var users := map[x := Account(Some(30), Some(m)), m := Account(Some(40), None)];
    var demoted := Update(users, m, Some(Post(junior, 20)), Unchanged).0;
    assert LineValid(users, x) && LineValid(users, m);
    assert !LineValid(demoted, x);
  }

  /** A demotion together with oneself as the manager is checked against the level about to be left. */
  lemma OwnManagerLoop(x: Id, junior: Id)
    ensures var users := map[x := Account(Some(40), None)];
            var (looped, updated) := Update(users, x, Some(Post(junior, 20)), Set(x));
            LinesValid(users) && updated && ManagerChain(looped, [x, x])
  {
  }
}
