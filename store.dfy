/**
 * The rows of the relational store the controllers and the seed script touch, and the store
 * itself as one object whose tables are updated in place.  Autoincrement ids are per-table
 * counters.
 */
module Store {
  import opened Wrappers
  import opened Authorization

  datatype User = User(id: int, kid: string, username: string, kmail: string, role: string)

  datatype UserRoleAssignment = UserRoleAssignment(userId: int, roleId: int)

  datatype EventRoleAssignment = EventRoleAssignment(userId: int, eventId: int, roleId: int)

  /** Timestamps are abstract ordered instants. */
  datatype Event = Event(
    name: string,
    description: Option<string>,
    slots: Option<int>,
    startTime: Option<int>,
    endTime: Option<int>,
    isPublic: bool,
    createdById: Option<int>)

  datatype Attendance = Attendance(id: int, attendanceSessionId: int, userId: int, status: string, location: string)

  datatype Registration = Registration(userId: int, eventId: int, status: string)

  /** Some user row has this id: the target of a foreign key to `User`. */
  predicate HasUser(users: seq<User>, id: int) {
    exists u :: u in users && u.id == id
  }

  /** No row occurs twice: the tables' unique keys cover the whole row. */
  predicate NoDuplicates<T(==)>(rows: seq<T>) {
    forall i, j :: 0 <= i < j < |rows| ==> rows[i] != rows[j]
  }

  /** The store: one field per table, reassigned as the handlers write to it. */
  class Db {
    var userRoles: seq<Role>
    var nextUserRoleId: int
    var eventRoles: seq<Role>
    var nextEventRoleId: int
    var users: seq<User>
    var nextUserId: int
    var userRoleAssignments: seq<UserRoleAssignment>
    var events: map<int, Event>
    var eventRoleAssignments: seq<EventRoleAssignment>
    var attendanceSessions: set<int>
    var attendance: seq<Attendance>
    var nextAttendanceId: int
    var registrations: map<int, Registration>
    var nextRegistrationId: int
  }
}
