/**
 * The seed script: insert-if-absent the three user roles and three event roles, the boss user,
 * and one assignment of every user role to the boss.  Every upsert has an empty `update`, so a
 * row that already exists is left as it is and the script can be rerun.
 */
module Seed {
  import opened Wrappers
  import opened Bits
  import opened Permissions
  import opened Authorization
  import opened Store

  datatype RoleSpec = RoleSpec(name: string, bitmask: nat)

  const USER_ROLE_SPECS: seq<RoleSpec> := [
    RoleSpec("Admin", 63), RoleSpec("Manager", 23), RoleSpec("User", 13)]

  const EVENT_ROLE_SPECS: seq<RoleSpec> := [
    RoleSpec("Event Manager", 31), RoleSpec("Event Coordinator", 15), RoleSpec("Event Viewer", 9)]

  const BOSS_KMAIL := "boss@karunya.edu"
  const BOSS_KID := "bosskid"
  const BOSS_USERNAME := "Boss User"
  const BOSS_ROLE := "boss"

  /**
   * A role bitmask as stored: the validators demand a positive integer, and the bound 2^31 is
   * that of a signed 32-bit integer column, assumed for the role tables.
   */
  predicate ValidBitmask(m: nat) {
    0 < m < 0x8000_0000
  }

  // ----- The seeded bitmasks -----

  /** Admin is the OR of the six flags its comment lists (63), a valid mask within ten bits. */
  lemma AdminBitmask()
    ensures USER_ROLE_SPECS[0].bitmask ==
            UnionOf([CREATE_EVENT, MANAGE_USER_ROLES, VIEW_ATTENDANCE, MANAGE_USERS, SEND_NOTIFICATIONS, MANAGE_PERMISSIONS])
    ensures ValidBitmask(USER_ROLE_SPECS[0].bitmask) && WithinWidth(USER_ROLE_SPECS[0].bitmask, USER_WIDTH)
  {
    FlagValues();
    UnionOfFirstSixFlags();
    assert [CREATE_EVENT, MANAGE_USER_ROLES, VIEW_ATTENDANCE, MANAGE_USERS, SEND_NOTIFICATIONS, MANAGE_PERMISSIONS] ==
           [1, 2, 4, 8, 16, 32];
    assert Flag(10) == 1024;
    BelowFlagIsWithin(63, USER_WIDTH);
  }

  /** The six lowest flags OR to 63. */
  lemma UnionOfFirstSixFlags()
    ensures UnionOf([1, 2, 4, 8, 16, 32]) == 63
  {
    UnionOfDistinctFlagsIsSum([0, 1, 2, 3, 4, 5]);
    assert FlagsAt([0, 1, 2, 3, 4, 5]) == [1, 2, 4, 8, 16, 32];
  }

  /** Manager is CREATE_EVENT | MANAGE_USER_ROLES | VIEW_ATTENDANCE | SEND_NOTIFICATIONS (23). */
  lemma ManagerBitmask()
    ensures USER_ROLE_SPECS[1].bitmask ==
            UnionOf([CREATE_EVENT, MANAGE_USER_ROLES, VIEW_ATTENDANCE, SEND_NOTIFICATIONS])
    ensures ValidBitmask(USER_ROLE_SPECS[1].bitmask) && WithinWidth(USER_ROLE_SPECS[1].bitmask, USER_WIDTH)
  {
    FlagValues();
    UnionOfDistinctFlagsIsSum([0, 1, 2, 4]);
    var f := FlagsAt([0, 1, 2, 4]);
    assert f == [CREATE_EVENT, MANAGE_USER_ROLES, VIEW_ATTENDANCE, SEND_NOTIFICATIONS];
    assert f == [1, 2, 4, 16];
    assert Flag(10) == 1024;
    BelowFlagIsWithin(23, USER_WIDTH);
  }

  /** User is CREATE_EVENT | VIEW_ATTENDANCE | MANAGE_USERS (13). */
  lemma UserBitmask()
    ensures USER_ROLE_SPECS[2].bitmask == UnionOf([CREATE_EVENT, VIEW_ATTENDANCE, MANAGE_USERS])
    ensures ValidBitmask(USER_ROLE_SPECS[2].bitmask) && WithinWidth(USER_ROLE_SPECS[2].bitmask, USER_WIDTH)
  {
    FlagValues();
    UnionOfDistinctFlagsIsSum([0, 2, 3]);
    var f := FlagsAt([0, 2, 3]);
    assert f == [CREATE_EVENT, VIEW_ATTENDANCE, MANAGE_USERS];
    assert f == [1, 4, 8];
    assert Flag(10) == 1024;
    BelowFlagIsWithin(13, USER_WIDTH);
  }

  /** Event Manager holds all five event flags (31). */
  lemma EventManagerBitmask()
    ensures EVENT_ROLE_SPECS[0].bitmask == UnionOf(EVENT_FLAGS)
    ensures ValidBitmask(EVENT_ROLE_SPECS[0].bitmask) && WithinWidth(EVENT_ROLE_SPECS[0].bitmask, EVENT_WIDTH)
  {
    VocabulariesFillTheirWidth();
    assert Flag(5) == 32;
    BelowFlagIsWithin(31, EVENT_WIDTH);
  }

  /** Event Coordinator is MARK_ATTENDANCE | MODIFY_EVENT | DELETE_EVENT | VIEW_ATTENDANCE (15). */
  lemma EventCoordinatorBitmask()
    ensures EVENT_ROLE_SPECS[1].bitmask ==
            UnionOf([EVENT_MARK_ATTENDANCE, EVENT_MODIFY_EVENT, EVENT_DELETE_EVENT, EVENT_VIEW_ATTENDANCE])
    ensures ValidBitmask(EVENT_ROLE_SPECS[1].bitmask) && WithinWidth(EVENT_ROLE_SPECS[1].bitmask, EVENT_WIDTH)
  {
    FlagValues();
    UnionOfDistinctFlagsIsSum([0, 1, 2, 3]);
    var f := FlagsAt([0, 1, 2, 3]);
    assert f == [EVENT_MARK_ATTENDANCE, EVENT_MODIFY_EVENT, EVENT_DELETE_EVENT, EVENT_VIEW_ATTENDANCE];
    assert f == [1, 2, 4, 8];
    assert Flag(5) == 32;
    BelowFlagIsWithin(15, EVENT_WIDTH);
  }

  /** Event Viewer is MARK_ATTENDANCE | VIEW_ATTENDANCE (9). */
  lemma EventViewerBitmask()
    ensures EVENT_ROLE_SPECS[2].bitmask == UnionOf([EVENT_MARK_ATTENDANCE, EVENT_VIEW_ATTENDANCE])
    ensures ValidBitmask(EVENT_ROLE_SPECS[2].bitmask) && WithinWidth(EVENT_ROLE_SPECS[2].bitmask, EVENT_WIDTH)
  {
    FlagValues();
    UnionOfDistinctFlagsIsSum([0, 3]);
    var f := FlagsAt([0, 3]);
    assert f == [EVENT_MARK_ATTENDANCE, EVENT_VIEW_ATTENDANCE];
    assert f == [1, 8];
    assert Flag(5) == 32;
    BelowFlagIsWithin(9, EVENT_WIDTH);
  }

  /** Admin (63) passes `authorize(MANAGE_USERS)`; User (13) fails `authorize(SEND_NOTIFICATIONS)`. */
  lemma SeededRolesAgainstAuthorize()
    ensures Authorize(MANAGE_USERS, "user", [Role(1, "Admin", 63)], []).Next?
    ensures Authorize(SEND_NOTIFICATIONS, "user", [Role(3, "User", 13)], []).Respond?
  {
    FlagValues();
    var admin := [Role(1, "Admin", 63)];
    forall i: nat | Bit(MANAGE_USERS, i)
      ensures SomeRoleHasBit(admin, i)
    {
      BitOfFlag(3, i);
      assert Bit(admin[0].bitmask, 3);
    }
    var user := [Role(3, "User", 13)];
    assert Bit(SEND_NOTIFICATIONS, 4) && !Bit(user[0].bitmask, 4);
    assert !SomeRoleHasBit(user, 4);
  }

  /**
   * The role-management routes require MANAGE_USER_ROLES: a caller holding Manager (23) passes,
   * one holding only User (13) is refused.
   */
  lemma SeededRolesAgainstRoleRoutes()
    ensures Authorize(MANAGE_USER_ROLES, "user", [Role(2, "Manager", 23)], []).Next?
    ensures Authorize(MANAGE_USER_ROLES, "user", [Role(3, "User", 13)], []).Respond?
  {
    FlagValues();
    var manager := [Role(2, "Manager", 23)];
    forall i: nat | Bit(MANAGE_USER_ROLES, i)
      ensures SomeRoleHasBit(manager, i)
    {
      BitOfFlag(1, i);
      assert Bit(manager[0].bitmask, 1);
    }
    var user := [Role(3, "User", 13)];
    assert Bit(MANAGE_USER_ROLES, 1) && !Bit(user[0].bitmask, 1);
    assert !SomeRoleHasBit(user, 1);
  }

  /** Event Viewer (9) together with a role carrying bit 1 satisfies 11; neither alone does. */
  lemma UnionOfEventRolesIsNeeded()
    ensures Authorize(11, "event", [], [Role(6, "Event Viewer", 9), Role(7, "r", 2)]).Next?
    ensures Authorize(11, "event", [], [Role(6, "Event Viewer", 9)]).Respond?
    ensures Authorize(11, "event", [], [Role(7, "r", 2)]).Respond?
  {
    var both := [Role(6, "Event Viewer", 9), Role(7, "r", 2)];
    UnionOfDistinctFlagsIsSum([0, 1, 3]);
    var f := FlagsAt([0, 1, 3]);
    assert f == [1, 2, 8];
    forall i: nat | Bit(11, i)
      ensures SomeRoleHasBit(both, i)
    {
      BitOfUnion(f, i);
      var j :| 0 <= j < 3 && Bit(f[j], i);
      BitOfFlag([0, 1, 3][j], i);
      if i == 1 {
        assert Bit(both[1].bitmask, i);
      } else {
        assert Bit(both[0].bitmask, i);
      }
    }
    var viewer := [Role(6, "Event Viewer", 9)];
    var other := [Role(7, "r", 2)];
    assert Bit(11, 1) && !Bit(viewer[0].bitmask, 1);
    assert !SomeRoleHasBit(viewer, 1);
    assert Bit(11, 0) && !Bit(other[0].bitmask, 0);
    assert !SomeRoleHasBit(other, 0);
  }

  // ----- Role upserts -----

  datatype RoleTable = RoleTable(rows: seq<Role>, nextId: int)

  predicate HasRoleNamed(rows: seq<Role>, name: string) {
    exists k :: 0 <= k < |rows| && rows[k].name == name
  }

  /** Role names are unique and every id is below the next autoincrement value. */
  ghost predicate ValidRoleTable(t: RoleTable) {
    && (forall i, j :: 0 <= i < j < |t.rows| ==> t.rows[i].name != t.rows[j].name)
    && (forall i :: 0 <= i < |t.rows| ==> t.rows[i].id < t.nextId)
  }

  /** `upsert({ where: { name }, update: {}, create: { name, bitmask } })`. */
  function UpsertRole(t: RoleTable, spec: RoleSpec): (r: RoleTable)
    ensures HasRoleNamed(r.rows, spec.name)
    ensures t.rows <= r.rows && t.nextId <= r.nextId
    ensures HasRoleNamed(t.rows, spec.name) ==> r == t
  {
    if HasRoleNamed(t.rows, spec.name) then t
    else
      var r := RoleTable(t.rows + [Role(t.nextId, spec.name, spec.bitmask)], t.nextId + 1);
      assert r.rows[|t.rows|].name == spec.name;
      r
  }

  lemma UpsertRoleKeepsTableValid(t: RoleTable, spec: RoleSpec)
    requires ValidRoleTable(t)
    ensures ValidRoleTable(UpsertRole(t, spec))
  {}

  /** Existing names keep their rows, new names enter with the spec's bitmask. */
  lemma UpsertRoleStores(t: RoleTable, spec: RoleSpec)
    ensures !HasRoleNamed(t.rows, spec.name) ==>
              UpsertRole(t, spec).rows == t.rows + [Role(t.nextId, spec.name, spec.bitmask)]
  {}

  /** The seed loop over a role list: one upsert per spec, in order. */
  function UpsertRoles(t: RoleTable, specs: seq<RoleSpec>): (r: RoleTable)
    decreases |specs|
    ensures t.rows <= r.rows
  {
    if specs == [] then t
    else UpsertRole(UpsertRoles(t, specs[..|specs| - 1]), specs[|specs| - 1])
  }

  /** After the loop every listed name has a row. */
  lemma {:induction false} UpsertRolesStoresEveryName(t: RoleTable, specs: seq<RoleSpec>)
    ensures forall k :: 0 <= k < |specs| ==> HasRoleNamed(UpsertRoles(t, specs).rows, specs[k].name)
    decreases |specs|
  {
    if specs != [] {
      var init := specs[..|specs| - 1];
      UpsertRolesStoresEveryName(t, init);
      var prev := UpsertRoles(t, init);
      var r := UpsertRoles(t, specs);
      forall k | 0 <= k < |specs| - 1
        ensures HasRoleNamed(r.rows, specs[k].name)
      {
        assert specs[k] == init[k];
        var j :| 0 <= j < |prev.rows| && prev.rows[j].name == specs[k].name;
        assert r.rows[j] == prev.rows[j];
      }
    }
  }

  lemma {:induction false} UpsertRolesKeepsTableValid(t: RoleTable, specs: seq<RoleSpec>)
    requires ValidRoleTable(t)
    ensures ValidRoleTable(UpsertRoles(t, specs))
    decreases |specs|
  {
    if specs != [] {
      UpsertRolesKeepsTableValid(t, specs[..|specs| - 1]);
      UpsertRoleKeepsTableValid(UpsertRoles(t, specs[..|specs| - 1]), specs[|specs| - 1]);
    }
  }

  /** When every name is already present the loop changes nothing. */
  lemma {:induction false} UpsertRolesNoOp(t: RoleTable, specs: seq<RoleSpec>)
    requires forall k :: 0 <= k < |specs| ==> HasRoleNamed(t.rows, specs[k].name)
    ensures UpsertRoles(t, specs) == t
    decreases |specs|
  {
    if specs != [] {
      UpsertRolesNoOp(t, specs[..|specs| - 1]);
      assert HasRoleNamed(t.rows, specs[|specs| - 1].name);
    }
  }

  /** Rerunning the role loop is a no-op. */
  lemma UpsertRolesIdempotent(t: RoleTable, specs: seq<RoleSpec>)
    ensures UpsertRoles(UpsertRoles(t, specs), specs) == UpsertRoles(t, specs)
  {
    UpsertRolesStoresEveryName(t, specs);
    UpsertRolesNoOp(UpsertRoles(t, specs), specs);
  }

  /** Specs whose names are all distinct and all new enter in order with consecutive ids. */
  lemma {:induction false} FreshRolesGetConsecutiveIds(t: RoleTable, specs: seq<RoleSpec>)
    requires forall k, l :: 0 <= k < l < |specs| ==> specs[k].name != specs[l].name
    requires forall k :: 0 <= k < |specs| ==> !HasRoleNamed(t.rows, specs[k].name)
    ensures var r := UpsertRoles(t, specs);
            && |r.rows| == |t.rows| + |specs| && r.nextId == t.nextId + |specs|
            && forall k :: 0 <= k < |specs| ==>
                 r.rows[|t.rows| + k] == Role(t.nextId + k, specs[k].name, specs[k].bitmask)
    decreases |specs|
  {
    if specs != [] {
      var n := |specs| - 1;
      var init := specs[..n];
      FreshRolesGetConsecutiveIds(t, init);
      var prev := UpsertRoles(t, init);
      forall k | 0 <= k < |prev.rows|
        ensures prev.rows[k].name != specs[n].name
      {
        if k < |t.rows| {
          assert prev.rows[k] == t.rows[k];
        } else {
          assert prev.rows[k].name == init[k - |t.rows|].name;
        }
      }
    }
  }

  /** Seeding an empty user-role table stores exactly the listed roles with ids 1, 2, 3. */
  lemma SeedingEmptyUserRoles()
    ensures UpsertRoles(RoleTable([], 1), USER_ROLE_SPECS).rows ==
            [Role(1, "Admin", 63), Role(2, "Manager", 23), Role(3, "User", 13)]
  {
    FreshRolesGetConsecutiveIds(RoleTable([], 1), USER_ROLE_SPECS);
  }

  lemma SeedingEmptyEventRoles()
    ensures UpsertRoles(RoleTable([], 1), EVENT_ROLE_SPECS).rows ==
            [Role(1, "Event Manager", 31), Role(2, "Event Coordinator", 15), Role(3, "Event Viewer", 9)]
  {
    FreshRolesGetConsecutiveIds(RoleTable([], 1), EVENT_ROLE_SPECS);
  }

  // ----- The boss user -----

  datatype UserTable = UserTable(rows: seq<User>, nextId: int)

  /** The result of a user upsert: the table afterwards and the row it returns. */
  datatype UserUpsert = UserUpsert(table: UserTable, user: User)

  /** The position of the first user with this kmail. */
  function IndexOfKmail(rows: seq<User>, kmail: string): (k: Option<nat>)
    ensures k.Some? ==> k.value < |rows| && rows[k.value].kmail == kmail
    ensures k.Some? ==> forall i :: 0 <= i < k.value ==> rows[i].kmail != kmail
    ensures k.None? ==> forall i :: 0 <= i < |rows| ==> rows[i].kmail != kmail
  {
    if rows == [] then None
    else if rows[0].kmail == kmail then Some(0)
    else match IndexOfKmail(rows[1..], kmail)
      case None => None
      case Some(k) => Some(k + 1)
  }

  /** `user.upsert({ where: { kmail }, update: {}, create: { kid, username, kmail, role } })`. */
  function UpsertUserByKmail(t: UserTable, kid: string, username: string, kmail: string, role: string): (r: UserUpsert)
    ensures r.user in r.table.rows && r.user.kmail == kmail
    ensures t.rows <= r.table.rows
    ensures IndexOfKmail(t.rows, kmail).None? ==>
              r.user == User(t.nextId, kid, username, kmail, role) &&
              r.table == UserTable(t.rows + [r.user], t.nextId + 1)
  {
    match IndexOfKmail(t.rows, kmail)
    case Some(k) => UserUpsert(t, t.rows[k])
    case None =>
      var u := User(t.nextId, kid, username, kmail, role);
      UserUpsert(UserTable(t.rows + [u], t.nextId + 1), u)
  }

  /** An existing user with the kmail is returned unchanged and the table is left alone. */
  lemma UpsertUserKeepsExisting(t: UserTable, kid: string, username: string, kmail: string, role: string, k: nat)
    requires k < |t.rows| && t.rows[k].kmail == kmail
    requires forall i :: 0 <= i < k ==> t.rows[i].kmail != kmail
    ensures UpsertUserByKmail(t, kid, username, kmail, role) == UserUpsert(t, t.rows[k])
  {
    var found := IndexOfKmail(t.rows, kmail);
    assert found.Some?;
  }

  // ----- The boss's role assignments -----

  /** `userRoleAssignment.upsert` keyed by the (userId, roleId) pair. */
  function UpsertAssignment(rows: seq<UserRoleAssignment>, a: UserRoleAssignment): (r: seq<UserRoleAssignment>)
    ensures a in r && rows <= r
  {
    if a in rows then rows else rows + [a]
  }

  /** The assignment loop: one upsert per role, in order. */
  function AssignAll(rows: seq<UserRoleAssignment>, userId: int, roles: seq<Role>): (r: seq<UserRoleAssignment>)
    decreases |roles|
    ensures rows <= r
    ensures forall k :: 0 <= k < |roles| ==> UserRoleAssignment(userId, roles[k].id) in r
    ensures forall a :: a in r && a !in rows ==> a.userId == userId
  {
    if roles == [] then rows
    else
      var prev := AssignAll(rows, userId, roles[..|roles| - 1]);
      assert forall k :: 0 <= k < |roles| - 1 ==> roles[k] == roles[..|roles| - 1][k];
      UpsertAssignment(prev, UserRoleAssignment(userId, roles[|roles| - 1].id))
  }

  lemma {:induction false} AssignAllKeepsNoDuplicates(rows: seq<UserRoleAssignment>, userId: int, roles: seq<Role>)
    requires NoDuplicates(rows)
    ensures NoDuplicates(AssignAll(rows, userId, roles))
    decreases |roles|
  {
    if roles != [] {
      AssignAllKeepsNoDuplicates(rows, userId, roles[..|roles| - 1]);
    }
  }

  lemma {:induction false} AssignAllNoOp(rows: seq<UserRoleAssignment>, userId: int, roles: seq<Role>)
    requires forall k :: 0 <= k < |roles| ==> UserRoleAssignment(userId, roles[k].id) in rows
    ensures AssignAll(rows, userId, roles) == rows
    decreases |roles|
  {
    if roles != [] {
      AssignAllNoOp(rows, userId, roles[..|roles| - 1]);
    }
  }

  /** In a table without duplicate rows a present row occurs exactly once. */
  lemma {:induction false} PresentOnce<T>(rows: seq<T>, a: T)
    requires NoDuplicates(rows) && a in rows
    ensures multiset(rows)[a] == 1
    decreases |rows|
  {
    assert rows == [rows[0]] + rows[1..];
    if rows[0] == a {
      assert a !in rows[1..];
    } else {
      PresentOnce(rows[1..], a);
    }
  }

  // ----- The whole script -----

  datatype Tables = Tables(
    userRoles: RoleTable,
    eventRoles: RoleTable,
    users: UserTable,
    userRoleAssignments: seq<UserRoleAssignment>)

  /** The boss user's upsert into a user table. */
  function BossUpsert(users: UserTable): UserUpsert {
    UpsertUserByKmail(users, BOSS_KID, BOSS_USERNAME, BOSS_KMAIL, BOSS_ROLE)
  }

  /** What one run of the script does to the four tables it touches. */
  function SeedTables(t: Tables, userSpecs: seq<RoleSpec>, eventSpecs: seq<RoleSpec>): (r: Tables)
    ensures t.userRoles.rows <= r.userRoles.rows && t.eventRoles.rows <= r.eventRoles.rows
    ensures t.users.rows <= r.users.rows && t.userRoleAssignments <= r.userRoleAssignments
    ensures forall k :: 0 <= k < |userSpecs| ==> HasRoleNamed(r.userRoles.rows, userSpecs[k].name)
    ensures forall k :: 0 <= k < |eventSpecs| ==> HasRoleNamed(r.eventRoles.rows, eventSpecs[k].name)
    ensures BossUpsert(t.users).user in r.users.rows && BossUpsert(t.users).user.kmail == BOSS_KMAIL
    ensures forall role :: role in r.userRoles.rows ==>
              UserRoleAssignment(BossUpsert(t.users).user.id, role.id) in r.userRoleAssignments
  {
    UpsertRolesStoresEveryName(t.userRoles, userSpecs);
    UpsertRolesStoresEveryName(t.eventRoles, eventSpecs);
    var userRoles := UpsertRoles(t.userRoles, userSpecs);
    var eventRoles := UpsertRoles(t.eventRoles, eventSpecs);
    var boss := BossUpsert(t.users);
    Tables(userRoles, eventRoles, boss.table, AssignAll(t.userRoleAssignments, boss.user.id, userRoles.rows))
  }

  /** Rerunning the seed changes nothing. */
  lemma SeedIdempotent(t: Tables, userSpecs: seq<RoleSpec>, eventSpecs: seq<RoleSpec>)
    ensures SeedTables(SeedTables(t, userSpecs, eventSpecs), userSpecs, eventSpecs) == SeedTables(t, userSpecs, eventSpecs)
  {
    var s := SeedTables(t, userSpecs, eventSpecs);
    UpsertRolesIdempotent(t.userRoles, userSpecs);
    UpsertRolesIdempotent(t.eventRoles, eventSpecs);
    var boss := BossUpsert(t.users);
    var again := BossUpsert(s.users);
    var k := IndexOfKmail(s.users.rows, BOSS_KMAIL);
    assert k.Some?;
    assert again == UserUpsert(s.users, s.users.rows[k.value]);
    var first := IndexOfKmail(t.users.rows, BOSS_KMAIL);
    if first.Some? {
      assert s.users == t.users;
    } else {
      assert s.users.rows == t.users.rows + [boss.user];
      assert k.value == |t.users.rows|;
    }
    assert again.user == boss.user;
    AssignAllNoOp(s.userRoleAssignments, boss.user.id, s.userRoles.rows);
  }

  /**
   * After the seed the boss holds exactly one assignment for every user role present,
   * provided the assignment table had no duplicate rows, as its unique key guarantees.
   */
  lemma SeedAssignsEveryRoleOnce(t: Tables, userSpecs: seq<RoleSpec>, eventSpecs: seq<RoleSpec>)
    requires NoDuplicates(t.userRoleAssignments)
    ensures var s := SeedTables(t, userSpecs, eventSpecs);
            var bossId := BossUpsert(t.users).user.id;
            && BossUpsert(t.users).user in s.users.rows
            && BossUpsert(t.users).user.kmail == BOSS_KMAIL
            && NoDuplicates(s.userRoleAssignments)
            && forall r :: r in s.userRoles.rows ==> multiset(s.userRoleAssignments)[UserRoleAssignment(bossId, r.id)] == 1
  {
    var s := SeedTables(t, userSpecs, eventSpecs);
    var bossId := BossUpsert(t.users).user.id;
    AssignAllKeepsNoDuplicates(t.userRoleAssignments, bossId, s.userRoles.rows);
    forall r | r in s.userRoles.rows
      ensures multiset(s.userRoleAssignments)[UserRoleAssignment(bossId, r.id)] == 1
    {
      var k :| 0 <= k < |s.userRoles.rows| && s.userRoles.rows[k] == r;
      PresentOnce(s.userRoleAssignments, UserRoleAssignment(bossId, r.id));
    }
  }

  function TablesOf(db: Db): Tables
    reads db
  {
    Tables(RoleTable(db.userRoles, db.nextUserRoleId), RoleTable(db.eventRoles, db.nextEventRoleId),
           UserTable(db.users, db.nextUserId), db.userRoleAssignments)
  }

  /** The script's first loop: upsert every user-role spec, in order, into the user-role table. */
  method SeedUserRoles(db: Db, userSpecs: seq<RoleSpec>)
    modifies db`userRoles, db`nextUserRoleId
    ensures RoleTable(db.userRoles, db.nextUserRoleId) ==
            UpsertRoles(old(RoleTable(db.userRoles, db.nextUserRoleId)), userSpecs)
  {
    ghost var t := RoleTable(db.userRoles, db.nextUserRoleId);
    for i := 0 to |userSpecs|
      invariant RoleTable(db.userRoles, db.nextUserRoleId) == UpsertRoles(t, userSpecs[..i])
    {
      assert userSpecs[..i + 1][..i] == userSpecs[..i];
      var next := UpsertRole(RoleTable(db.userRoles, db.nextUserRoleId), userSpecs[i]);
      db.userRoles, db.nextUserRoleId := next.rows, next.nextId;
    }
    assert userSpecs[..|userSpecs|] == userSpecs;
  }

  /** The script's second loop, the same upsert over the event-role table. */
  method SeedEventRoles(db: Db, eventSpecs: seq<RoleSpec>)
    modifies db`eventRoles, db`nextEventRoleId
    ensures RoleTable(db.eventRoles, db.nextEventRoleId) ==
            UpsertRoles(old(RoleTable(db.eventRoles, db.nextEventRoleId)), eventSpecs)
  {
    ghost var t := RoleTable(db.eventRoles, db.nextEventRoleId);
    for i := 0 to |eventSpecs|
      invariant RoleTable(db.eventRoles, db.nextEventRoleId) == UpsertRoles(t, eventSpecs[..i])
    {
      assert eventSpecs[..i + 1][..i] == eventSpecs[..i];
      var next := UpsertRole(RoleTable(db.eventRoles, db.nextEventRoleId), eventSpecs[i]);
      db.eventRoles, db.nextEventRoleId := next.rows, next.nextId;
    }
    assert eventSpecs[..|eventSpecs|] == eventSpecs;
  }

  /** The assignment loop: upsert `(userId, role.id)` for every role fetched. */
  method AssignRoles(db: Db, userId: int, roles: seq<Role>)
    modifies db`userRoleAssignments
    ensures db.userRoleAssignments == AssignAll(old(db.userRoleAssignments), userId, roles)
  {
    ghost var rows := db.userRoleAssignments;
    for i := 0 to |roles|
      invariant db.userRoleAssignments == AssignAll(rows, userId, roles[..i])
    {
      assert roles[..i + 1][..i] == roles[..i];
      db.userRoleAssignments := UpsertAssignment(db.userRoleAssignments, UserRoleAssignment(userId, roles[i].id));
    }
    assert roles[..|roles|] == roles;
  }

  /** The boss upsert, returning the row the script goes on to use. */
  method SeedBoss(db: Db) returns (boss: User)
    modifies db`users, db`nextUserId
    ensures UserUpsert(UserTable(db.users, db.nextUserId), boss) == BossUpsert(old(UserTable(db.users, db.nextUserId)))
  {
    var r := BossUpsert(UserTable(db.users, db.nextUserId));
    db.users, db.nextUserId := r.table.rows, r.table.nextId;
    boss := r.user;
  }

  /** The script's body for given role lists: the two role loops, the boss upsert, then the assignment loop over all user roles. */
  method SeedDatabase(db: Db, userSpecs: seq<RoleSpec>, eventSpecs: seq<RoleSpec>)
    modifies db`userRoles, db`nextUserRoleId, db`eventRoles, db`nextEventRoleId
    modifies db`users, db`nextUserId, db`userRoleAssignments
    ensures TablesOf(db) == SeedTables(old(TablesOf(db)), userSpecs, eventSpecs)
  {
    SeedUserRoles(db, userSpecs);
    SeedEventRoles(db, eventSpecs);
    var boss := SeedBoss(db);
    AssignRoles(db, boss.id, db.userRoles);
  }

  /** The script's `main`, with the role lists it declares. */
  method RunSeed(db: Db)
    modifies db`userRoles, db`nextUserRoleId, db`eventRoles, db`nextEventRoleId
    modifies db`users, db`nextUserId, db`userRoleAssignments
    ensures TablesOf(db) == SeedTables(old(TablesOf(db)), USER_ROLE_SPECS, EVENT_ROLE_SPECS)
  {
    SeedDatabase(db, USER_ROLE_SPECS, EVENT_ROLE_SPECS);
  }
}
