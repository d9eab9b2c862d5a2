# Campus events backend — permission core and controller logic in Dafny

This project models the decision-making core of a campus event-management REST API written
for Node/Express over a Prisma store.

- **Bitmask permissions.** Two vocabularies of single-bit flags: user scope uses bits 0..9
  and event scope uses bits 0..4.
- **The `authorize` middleware.** It ORs the bitmasks of every role the caller holds in one
  scope. It lets the request through only when `(mask & required) === required`.
- **The seed script.** It inserts, if absent:
  - three user roles and three event roles, with fixed bitmasks;
  - the "boss" user;
  - one assignment of every user role to the boss.
- **The event controller's own logic:**
  - pagination arithmetic in `listEvents`;
  - the input checks of `createEvent` and `updateEvent`, and the order they run in;
  - the delete-then-insert role replacement of `assignEventRoles`.
- **`markBulkAttendance`.** An insert loop that skips refused items and collects the created
  records.
- **Event registrations.** The default status in `createEventRegistration` and the
  faculty-or-creator test in `updateEventRegistration`.
- **The `isFaculty` and `isEventCreator` gates.**

## How it is modelled

- **Bitmasks are natural numbers.** `Bits` defines bitwise OR and AND, bit `i`, and `1 << i`
  by halving. All reasoning about masks goes bit by bit; `Bits.BitsDetermine` is the
  extensionality lemma.
- **Pure code is pure Dafny.** `authorize`, the permission constants, the pagination, the event
  checks and the two gates are functions with contracts. Each has lemmas about it.
- **Imperative code works on one store object.** The seed script, `assignEventRoles`,
  `markBulkAttendance` and the registration handlers are module-level methods that take the
  store, a `Store.Db` object, as a parameter.
  - Each table is a field of that object, reassigned in place.
  - Each method changes only the fields named in its `modifies`.
  - Each method is proved against a function: `UpsertRoles`, `AssignAll`, `SeedTables`,
    `ReplaceAssignments`, `BulkInsert`. The source's promises are lemmas about those functions.
- **Answers.** A middleware answers `Next` (it calls `next()`) or `Respond(status, detail)`.
  A controller returns its status code.
- **Inputs become datatypes.** JavaScript inputs are classified as the code tests them:
  - undefined or falsy;
  - not a number (`NaN`);
  - unparseable date;
  - a value.
- **Timestamps** are abstract ordered integers.
- **Ids** come from one counter per table, standing for the table's autoincrement sequence.
  The sequence hands out its next value before the unique and foreign-key checks run, and a
  refused insert does not give it back. So every insert that reaches the store uses up an id,
  and the ids of stored rows can have gaps. An insert that the client's validation refuses
  before any SQL runs, because a required id is missing, uses up nothing.
- **Store failures** that a handler's `catch` turns into an answer are modelled by predicates
  naming the constraints involved:
  - unique keys;
  - the existence of referenced rows.

## Model

| member | source | states |
|---|---|---|
| `Bits.Flag` | src/permissions.js:21-37 | `1 << i` is a positive number |
| `Bits.Or` | src/middlewares/authorize.js:8 | `a \| b` is at least each operand |
| `Bits.And` | src/middlewares/authorize.js:14 | `a & b` is at most each operand |
| `Bits.BitOfZero` | src/middlewares/authorize.js:4 | the initial mask 0 carries no bit |
| `Bits.BitOfOr` | src/middlewares/authorize.js:8 | bit i of `a \| b` is set iff it is set in a or in b |
| `Bits.BitOfAnd` | src/middlewares/authorize.js:14 | bit i of `a & b` is set iff it is set in both |
| `Bits.BitOfFlag` | src/permissions.js:21-37 | `1 << i` has exactly one bit, bit i |
| `Bits.BitsDetermine` | src/middlewares/authorize.js:14 | two masks with the same bits are equal, so `===` on masks is a comparison of bit sets |
| `Bits.OrCommutes` | src/middlewares/authorize.js:8 | `a \| b == b \| a` |
| `Bits.OrAssociates` | src/middlewares/authorize.js:8 | `(a \| b) \| c == a \| (b \| c)` |
| `Bits.SubsetIffCovers` | src/middlewares/authorize.js:14 | `(held & required) == required` iff every bit of `required` is a bit of `held` |
| `Bits.OrOfDisjointIsSum` | prisma/seed.js:11 | OR of two masks with no common bit is their sum, so the "1 + 2 + 4" comments are ORs |
| `Bits.AndOfBitDisjoint` | src/permissions.js:21-30 | masks with no common bit have AND 0 |
| `Permissions.FlagsDisjoint` | src/permissions.js:21-37 | two different flags `1 << i`, `1 << j` have AND 0 |
| `Permissions.BelowFlagIsWithin` | src/permissions.js:21-30 | a number below `1 << w` has no bit at or above w |
| `Permissions.VocabulariesAreSingleDistinctBits` | src/permissions.js:21-37 | within each scope the flags are pairwise disjoint: no two permissions share a bit |
| `Permissions.FlagValues` | src/permissions.js:21-37 | user flag i is `1 << i` for i in 0..9 and event flag i is `1 << i` for i in 0..4, that is 1, 2, ..., 512 and 1, ..., 16, all below 2^10 and within their scope's width |
| `Permissions.BitOfUnion` | src/permissions.js:21-30 | a bit of the OR of a flag list is a bit of one of the flags |
| `Permissions.BitOfLowMask` | src/permissions.js:21-30 | `(1 << w) - 1` has exactly bits 0..w-1 |
| `Permissions.UnionOfVocabulary` | src/permissions.js:21-37 | a vocabulary of width w ORs to `(1 << w) - 1` |
| `Permissions.VocabulariesFillTheirWidth` | src/permissions.js:21-37 | the ten user flags OR to 1023, the five event flags to 31 |
| `Permissions.ScopesShareBitPositions` | src/permissions.js:21-33 | the scopes reuse positions: `EVENT_MARK_ATTENDANCE == CREATE_EVENT == 1`, `EVENT_SEND_NOTIFICATIONS == SEND_NOTIFICATIONS == 16` |
| `Permissions.UnionOfDistinctFlagsIsSum` | prisma/seed.js:11-35 | flags at distinct positions OR to their sum |
| `Authorization.FoldOr` | src/middlewares/authorize.js:8 | the `reduce` result is at least its start value and at least every role's bitmask |
| `Authorization.AggregateMask` | src/middlewares/authorize.js:4-11 | the fold from 0: 0 for no roles, and at least every role's bitmask |
| `Authorization.BitOfFold` | src/middlewares/authorize.js:8 | a bit of the fold `acc \| r.bitmask` is a bit of the start value or of some role |
| `Authorization.BitOfAggregate` | src/middlewares/authorize.js:4-11 | a bit of the aggregate mask (fold from 0) is exactly a bit some role carries |
| `Authorization.AggregateCoversEachRole` | src/middlewares/authorize.js:8 | the aggregate contains every role's bitmask |
| `Authorization.AggregateOrderIndependent` | src/middlewares/authorize.js:8-11 | two role lists with the same members give the same aggregate, whatever the order or repetition |
| `Authorization.AggregateOfConcat` | src/middlewares/authorize.js:8 | the aggregate of `a + b` is the OR of the aggregates |
| `Authorization.ScopedRoles` | src/middlewares/authorize.js:6-12 | "user" selects the user roles, "event" the event roles, and any other `roleType` none |
| `Authorization.ScopedMask` | src/middlewares/authorize.js:4-12 | the mask is the aggregate of the selected roles: it carries bit i iff some selected role does |
| `Authorization.Authorize` | src/middlewares/authorize.js:2-21 | `roleType` defaults to "user"; passes (`next()`) iff every required bit is carried by some role of the scope `roleType` names; otherwise answers 403 with the denial message |
| `Authorization.NoRolesGrantOnlyZero` | src/middlewares/authorize.js:4-14 | with no roles in scope, including a `roleType` other than "user"/"event", only requirement 0 passes |
| `Authorization.AuthorizeOrderIndependent` | src/middlewares/authorize.js:8-14 | permuting either role list does not change the decision |
| `Authorization.AuthorizeMonotonic` | src/middlewares/authorize.js:8-14 | adding a role to either list never turns a pass into a denial |
| `Authorization.AuthorizeComposes` | src/middlewares/authorize.js:14 | passing `p` and passing `q` imply passing `p \| q` |
| `Authorization.OneRequiredBitIsNotEnough` | src/middlewares/authorize.js:14 | a mask holding one of two required bits is denied: all bits are needed, not any |
| `Seed.AdminBitmask` | prisma/seed.js:10-11 | Admin 63 is the OR of the six flags its comment lists, positive, 32-bit, within bits 0..9 |
| `Seed.ManagerBitmask` | prisma/seed.js:14-15 | Manager 23 is CREATE_EVENT, MANAGE_USER_ROLES, VIEW_ATTENDANCE, SEND_NOTIFICATIONS, within bits 0..9 |
| `Seed.UserBitmask` | prisma/seed.js:18-19 | User 13 is CREATE_EVENT, VIEW_ATTENDANCE, MANAGE_USERS, within bits 0..9 |
| `Seed.EventManagerBitmask` | prisma/seed.js:26-27 | Event Manager 31 is all five event flags, within bits 0..4 |
| `Seed.EventCoordinatorBitmask` | prisma/seed.js:30-31 | Event Coordinator 15 is the four event flags of its comment, within bits 0..4 |
| `Seed.EventViewerBitmask` | prisma/seed.js:34-35 | Event Viewer 9 is EVENT_MARK_ATTENDANCE and EVENT_VIEW_ATTENDANCE, within bits 0..4 |
| `Seed.SeededRolesAgainstAuthorize` | prisma/seed.js:10-19 | Admin (63) passes `authorize(MANAGE_USERS)`; User (13) is refused `authorize(SEND_NOTIFICATIONS)` |
| `Seed.SeededRolesAgainstRoleRoutes` | src/routes/userRole.routes.js:26-65 | the role routes' `authorize(MANAGE_USER_ROLES)` passes a Manager and refuses a plain User |
| `Seed.UnionOfEventRolesIsNeeded` | src/middlewares/authorize.js:11-14 | Event Viewer with a bit-1 role passes requirement 11 while neither role alone does |
| `Seed.UpsertRole` | prisma/seed.js:41-48 | after the upsert the name has a row; existing rows are kept as a prefix; an existing name leaves the table unchanged (`update: {}`) |
| `Seed.UpsertRoleKeepsTableValid` | prisma/seed.js:41-48 | role names stay unique and ids stay below the next autoincrement value |
| `Seed.UpsertRoleStores` | prisma/seed.js:44-47 | a new name enters under the next id with the spec's bitmask |
| `Seed.UpsertRoles` | prisma/seed.js:40-49 | the loop only appends to the role table |
| `Seed.UpsertRolesStoresEveryName` | prisma/seed.js:40-49 | after the loop every listed role name has a row |
| `Seed.UpsertRolesKeepsTableValid` | prisma/seed.js:40-61 | the loop keeps names unique and ids below the counter |
| `Seed.UpsertRolesNoOp` | prisma/seed.js:40-61 | when every name exists the loop changes nothing, so stored bitmasks are never overwritten |
| `Seed.UpsertRolesIdempotent` | prisma/seed.js:40-61 | running the role loop twice equals running it once |
| `Seed.FreshRolesGetConsecutiveIds` | prisma/seed.js:40-61 | distinct new names are appended in list order with consecutive ids |
| `Seed.SeedingEmptyUserRoles` | prisma/seed.js:8-49 | on an empty table the user roles are Admin 63, Manager 23, User 13 with ids 1, 2, 3 |
| `Seed.SeedingEmptyEventRoles` | prisma/seed.js:24-61 | on an empty table the event roles are 31, 15, 9 with ids 1, 2, 3 |
| `Seed.IndexOfKmail` | prisma/seed.js:73-74 | the lookup by `kmail` finds the first user with that kmail, or reports that none has it |
| `Seed.UpsertUserByKmail` | prisma/seed.js:73-82 | the returned user is in the table with the kmail asked for; existing users are kept; when no user has the kmail, exactly the new user (next id, the given kid, username and role) is appended and the counter advances |
| `Seed.UpsertUserKeepsExisting` | prisma/seed.js:73-82 | an existing user with the kmail is returned unchanged and the table is untouched |
| `Seed.UpsertAssignment` | prisma/seed.js:92-104 | the assignment is present afterwards and existing rows are kept |
| `Seed.AssignAll` | prisma/seed.js:91-105 | every fetched role is assigned to the user; the only new rows are that user's |
| `Seed.AssignAllKeepsNoDuplicates` | prisma/seed.js:91-105 | the (userId, roleId) key stays unique |
| `Seed.AssignAllNoOp` | prisma/seed.js:91-105 | when every assignment exists the loop changes nothing |
| `Seed.SeedTables` | prisma/seed.js:39-105 | one run only appends to the four tables; afterwards every listed role name has a row, the boss, found by `BOSS_KMAIL`, is a user, and the boss holds every user role |
| `Seed.SeedIdempotent` | prisma/seed.js:6-108 | running the whole seed twice equals running it once |
| `Seed.SeedAssignsEveryRoleOnce` | prisma/seed.js:86-105 | afterwards the boss (found by kmail) holds exactly one assignment per user role present |
| `Seed.SeedUserRoles` | prisma/seed.js:40-49 | the user-role loop leaves the table and counter equal to `UpsertRoles` of the old ones |
| `Seed.SeedEventRoles` | prisma/seed.js:52-61 | the event-role loop leaves the table and counter equal to `UpsertRoles` of the old ones |
| `Seed.AssignRoles` | prisma/seed.js:91-105 | the assignment loop leaves the table equal to `AssignAll` of the old one |
| `Seed.SeedBoss` | prisma/seed.js:73-82 | the user table and the returned boss row are those of the kmail upsert |
| `Seed.SeedDatabase` | prisma/seed.js:39-105 | the four touched tables end as `SeedTables` of their old contents |
| `Seed.RunSeed` | prisma/seed.js:6-108 | the script's `main`, with its own role lists, leaves the touched tables as `SeedTables` of their old contents; by `Seed.SeedIdempotent` a second run changes nothing |
| `FacultyGate.IsFaculty` | src/middlewares/isFaculty.js:2-7 | `next()` iff the caller's role is exactly "faculty", else 403 with its message |
| `FacultyGate.FacultyIsExactMatch` | src/middlewares/isFaculty.js:3 | "Faculty", "admin" and "faculty " are refused |
| `FacultyGate.FacultyIgnoresCallerId` | src/middlewares/isFaculty.js:3 | the decision reads only the role |
| `EventCreatorGate.IsEventCreator` | src/middlewares/isEventCreator.js:4-16 | a missing event answers 404 before ownership is checked; otherwise `next()` iff `createdById` is the caller's id, else 403 |
| `EventCreatorGate.NullCreatorDeniesEveryone` | src/middlewares/isEventCreator.js:13-15 | an event with null `createdById` refuses every caller |
| `EventCreatorGate.OnlyOneCreatorPasses` | src/middlewares/isEventCreator.js:13-16 | two callers that both pass have the same id |
| `EventCreatorGate.CreatorGateIsLocal` | src/middlewares/isEventCreator.js:5-8 | the answer depends only on the named event's existence and creator |
| `EventController.OrDefault` | src/controllers/event.controller.js:6-8 | `Number(x) \|\| d` is the number when it is a nonzero number and d otherwise; it is never 0 when d is not |
| `EventController.Paginate` | src/controllers/event.controller.js:6-11 | page and limit fall back to 1 and 10; take is the limit and never 0; page 1 skips nothing |
| `EventController.NegativeParamsPassThrough` | src/controllers/event.controller.js:7-11 | negative page and limit are used as they are |
| `EventController.ConsecutivePagesAreAdjacent` | src/controllers/event.controller.js:10-11 | page n + 1 starts where page n ends |
| `EventController.TotalPages` | src/controllers/event.controller.js:39 | `Math.ceil(total / limit)`: for a positive limit `(n-1)*limit < total <= n*limit`, and the mirrored bounds for a negative one |
| `EventController.TotalPagesIsLeast` | src/controllers/event.controller.js:39 | the page count is the least n with `n * limit >= total` |
| `EventController.NoRowsNoPages` | src/controllers/event.controller.js:39 | no rows means 0 pages, whatever the limit |
| `EventController.EveryRowIsOnSomePage` | src/controllers/event.controller.js:10-39 | every row index lies in the skip/take window of a page between 1 and `totalPages` |
| `EventController.CheckTimes` | src/controllers/event.controller.js:63-83 | checks start format, then end format, then end strictly after start when both are given; passes iff none fails, reporting the first failure with 400 |
| `EventController.TimeValue` | src/controllers/event.controller.js:90-91 | a falsy date is stored as null and a valid one as its instant |
| `EventController.CreateEvent` | src/controllers/event.controller.js:52-107 | a missing name answers 400 before any date check, then the date checks; a NaN `slots` answers 400; otherwise the stored event has the window in order, `slots` null iff falsy, `isPublic` true unless false is given, and `createdById` null iff the caller has no id |
| `EventController.Patched` | src/controllers/event.controller.js:173-183 | `name`, `description` and `isPublic` replace the stored value whenever defined, even as "" or false; `slots`, `startTime` and `endTime` replace it only when truthy; the creator never changes |
| `EventController.EmptyPatchIsIdentity` | src/controllers/event.controller.js:173-183 | an empty body changes nothing |
| `EventController.PatchIsIdempotent` | src/controllers/event.controller.js:173-183 | applying a body twice equals applying it once |
| `EventController.UpdateEvent` | src/controllers/event.controller.js:140-195 | a NaN id answers 400 first, then the date checks of the body, then a missing event or NaN `slots` answers 404; on success only that event changes, to its patched form |
| `EventController.UpdateWithBothTimesIsWellTimed` | src/controllers/event.controller.js:163-170 | an update that gives both times stores them in order |
| `EventController.UpdateCanEmptyTheWindow` | src/controllers/event.controller.js:163-183 | the written update stores an event running 10..20 updated with `endTime` 5 as 10..5 |
| `EventController.UpdateEventChecked` | src/controllers/event.controller.js:163-183 | the corrected update only succeeds with the updated event's window in order, changing no other event |
| `EventController.CheckedUpdateAgreesOtherwise` | src/controllers/event.controller.js:163-183 | the corrected update equals the written one except where the written one empties the window, and there it answers 400 |
| `EventController.CheckedUpdateKeepsTableWellTimed` | src/controllers/event.controller.js:163-183 | under the corrected update a table of well-timed events stays well-timed |
| `EventController.DeleteAssignments` | src/controllers/event.controller.js:319-324 | `deleteMany` removes exactly the rows of the (user, event) pair |
| `EventController.NewAssignments` | src/controllers/event.controller.js:327-331 | the new rows are exactly (user, event, r) for r in `roleIds` |
| `EventController.CreateManyAccepted` | src/controllers/event.controller.js:327-335 | an empty `roleIds` inserts nothing and is always accepted; a non-empty one is accepted only with an existing user and event (and distinct, existing role ids) |
| `EventController.ReplaceAssignments` | src/controllers/event.controller.js:318-335 | afterwards the pair's rows are exactly `roleIds` and every other pair's rows are unchanged |
| `EventController.NewAssignmentsDistinct` | src/controllers/event.controller.js:327-335 | distinct role ids give distinct new rows |
| `EventController.DeleteKeepsNoDuplicates` | src/controllers/event.controller.js:319-324 | deletion keeps the table duplicate-free |
| `EventController.ReplaceKeepsNoDuplicates` | src/controllers/event.controller.js:318-335 | replacing with distinct ids keeps the table duplicate-free |
| `EventController.ReplaceIsIdempotent` | src/controllers/event.controller.js:318-335 | replacing twice with the same ids leaves the same set of rows as replacing once |
| `EventController.AssignEventRoles` | src/controllers/event.controller.js:299-347 | NaN event id, then falsy `userId` or non-array `roleIds`, answer 400 with the table unchanged; an accepted insert gives 200 and the replacement; a refused insert gives 500 with the pair's rows already deleted |
| `AttendanceSessionController.StringOr` | src/controllers/attendanceSession.controller.js:106-107 | `s \|\| d` is s unless s is undefined or empty |
| `AttendanceSessionController.InsertAccepted` | src/controllers/attendanceSession.controller.js:101-114 | an insert is accepted only with a user id that names an existing user (and no record of that user in the session yet) |
| `AttendanceSessionController.NewRecord` | src/controllers/attendanceSession.controller.js:102-109 | the record carries the session id, the item's user, and status "present" and location "" by default |
| `AttendanceSessionController.Step` | src/controllers/attendanceSession.controller.js:99-114 | one iteration creates exactly one record when the store accepts the item, none when it refuses it; the id sequence moves on once whenever the insert reaches the store (a user id is given), accepted or not |
| `AttendanceSessionController.BulkInsert` | src/controllers/attendanceSession.controller.js:97-115 | the loop appends exactly the created records to the table, at most one per item; the id sequence advances once per item that gives a user id, whether its insert is kept or refused |
| `AttendanceSessionController.AcceptedItems` | src/controllers/attendanceSession.controller.js:98-114 | the positions of the inserted items, strictly increasing and within the input |
| `AttendanceSessionController.CreatedRecordsFollowTheItems` | src/controllers/attendanceSession.controller.js:97-117 | `createdRecords` lists, in input order, the record of each accepted item, one per accepted item and none for others; each record's id is the old sequence value plus the number of earlier items whose insert reached the store |
| `AttendanceSessionController.AcceptedExactlyWhenStoreTakesIt` | src/controllers/attendanceSession.controller.js:101-114 | an item is among the accepted ones iff the store takes its insert in the state the earlier items left |
| `AttendanceSessionController.CreatedIdsIncrease` | src/controllers/attendanceSession.controller.js:97-117 | the ids in `createdRecords` strictly increase and lie between the sequence's old and new values |
| `AttendanceSessionController.DuplicateLeavesAGapInIds` | src/controllers/attendanceSession.controller.js:98-114 | with the sequence at 10, items for users 1, 1 and 2 create records 10 and 12; the refused duplicate uses up 11 |
| `AttendanceSessionController.BulkInsertKeepsOnePerUser` | src/controllers/attendanceSession.controller.js:100-114 | a user never gets a second record in a session |
| `AttendanceSessionController.EveryNamedUserIsMarked` | src/controllers/attendanceSession.controller.js:98-115 | afterwards every item's user that exists has a record in the session |
| `AttendanceSessionController.UnknownUserIsSkipped` | src/controllers/attendanceSession.controller.js:101-114 | an item naming no existing user is skipped: no record is stored or returned, and only the id its refused insert took is lost |
| `AttendanceSessionController.RepeatCreatesNothing` | src/controllers/attendanceSession.controller.js:98-115 | when every named user is already marked, nothing is created; only the id sequence moves on, once per refused insert |
| `AttendanceSessionController.MarkBulkAttendance` | src/controllers/attendanceSession.controller.js:81-118 | a missing session answers 404 before the body is looked at; a non-array answers 400; both change nothing; otherwise 201 with the table, counter and `createdRecords` of `BulkInsert` over the store's users |
| `EventRegistrationController.InitialStatus` | src/controllers/eventRegistration.controller.js:18 | the stored status is "confirmed" iff none, an empty one or "confirmed" is given, and never empty |
| `EventRegistrationController.RegistrationAccepted` | src/controllers/eventRegistration.controller.js:15-24 | the insert is accepted only with both ids given, the user present and the event present |
| `EventRegistrationController.CreateEventRegistration` | src/controllers/eventRegistration.controller.js:11-25 | 201 iff the user and the event exist, storing the row under the next id; otherwise 400 with nothing stored, and the id sequence moves on iff both ids were given, so that the insert reached the store |
| `EventRegistrationController.MayUpdate` | src/controllers/eventRegistration.controller.js:54-59 | the caller may update iff their role is "faculty" or they created the registration's event |
| `EventRegistrationController.MayUpdateIsFacultyOrCreator` | src/controllers/eventRegistration.controller.js:54-57 | the test is exactly "`isFaculty` passes or `isEventCreator` passes" |
| `EventRegistrationController.EventOf` | src/controllers/eventRegistration.controller.js:45-48 | the registration's event as the lookup includes it |
| `EventRegistrationController.UpdateEventRegistration` | src/controllers/eventRegistration.controller.js:39-69 | a NaN or unknown id answers 404 before the permission test; 200 iff permitted, 403 iff refused with nothing changed; a permitted update writes only the status, and an undefined status writes nothing |

## Left out

- Where the role lists come from. `authorize` reads `req.userRoles` and `req.eventRoles`, but no modelled code fills them. They are parameters of `Authorization.Authorize`.
- Authorization.Authorize: masks are unbounded natural numbers. JavaScript's `|` and `&` work on 32-bit two's-complement integers. The two agree for every mask in 0..2^31-1. The role validators demand only a positive integer, with no upper bound; the bound 2^31 is an assumption that the bitmask column is a signed 32-bit integer (the schema is not part of this model), recorded in `Seed.ValidBitmask`. Negative masks and masks of 2^31 or more are not modelled.
- JWT signing and checking, the external credential call, the WebSocket server and notification broadcast, rate limiting, logging and the error handler. These are foreign cryptography, network I/O and transport code.
- Express route wiring. Only two facts are used: the role-management routes pass `MANAGE_USER_ROLES` to `authorize`, and the notification route passes `SEND_NOTIFICATIONS`.
- The express-validator chains. They are library calls. Only the rule that a role bitmask is a positive integer is carried over, with the 32-bit bound above, as `Seed.ValidBitmask`.
- The pass-through CRUD controllers (users, user and event roles, permissions, user permissions, single attendance, role assignments). All their behaviour is delegated to the store.
- listEvents: the search filter, the ordering by creation time and the queries themselves are not modelled. Only the pagination arithmetic is.
- Page, limit and slots values that are numbers but not integers are not modelled.
- How Prisma treats a negative `skip` or `take` is not modelled. `EventController.NegativeParamsPassThrough` only shows that such values reach the query.
- EventController.TotalPages: `Math.ceil` over a floating-point quotient is modelled as exact integer ceiling division.
- Dates are abstract integers. `Date.parse`, `new Date` and `isAfter` are library calls; their outcome is an input, `EventController.TimeParam`.
- EventController.CreateEvent: it returns the row the handler asks the store to create. The autoincrement id, and store failures other than a NaN `slots`, are not modelled.
- EventController.UpdateEvent: a body field sent as `null`, which the store would reject or write as null, is not modelled. `None` stands for an undefined field only.
- Store constraints: only those named in the model are modelled.
  - Event-role assignments: the unique (user, event, role) key, and for each inserted row the existence of its role, user and event.
  - Attendance: a user id is required, it must name an existing user, and (session, user) is unique.
  - Registrations: the user and the event must exist.
  - Whether a registration's (user, event) pair is unique is not known, so it is not modelled.
- A non-numeric id reaching `prisma.findUnique` outside any `try` is not modelled. This happens in `markBulkAttendance` and in `isEventCreator`, and ends in an unhandled rejection rather than an answer. Those ids are integers in the model.
- EventController.AssignEventRoles: a `userId` that is truthy but not a number makes `deleteMany` throw before anything is deleted, so the source answers 500 with the table unchanged. The model's `userId` is an integer, so this path is not modelled.
- AttendanceSessionController.MarkBulkAttendance: a `null` element of `attendance_data` makes the destructuring at attendanceSession.controller.js:99, outside the `try`, throw. No answer is sent and the records inserted for earlier items stay. Items are never null in the model.
- Response bodies beyond status and message are not modelled: the returned rows and the error text of a caught store error.
- Seed.SeedIdempotent: the counters assume that an upsert finding its row does not touch the id sequence. This also holds for `Seed.RunSeed`, `Seed.UpsertRolesNoOp`, `Seed.UpsertRolesIdempotent` and `Seed.UpsertUserKeepsExisting`. If the client sends an upsert as a single `INSERT … ON CONFLICT`, each upsert of an existing row uses up a sequence value. A second run then leaves every row as it was but moves the counters on, which the model does not capture.
- The seed script's console output, process exit and disconnect are not modelled.
- Concurrency between requests is not modelled. Every handler runs alone against the store.

## Findings

| source | as written | input that shows it | evidently intended | confidence | as-written member | corrected member |
|---|---|---|---|---|---|---|
| src/controllers/event.controller.js:163-183 | `updateEvent` compares `endTime` with `startTime` only when the body gives both. A body moving one end of the window is stored without any order check. | An event running 10..20, updated with only `endTime` 5, is stored as 10..5. `createEvent` would refuse such an event. | The stored event's end stays strictly after its start, as `createEvent` enforces | medium; not executed | `EventController.UpdateEvent` (counterexample `EventController.UpdateCanEmptyTheWindow`) | `EventController.UpdateEventChecked` (`EventController.CheckedUpdateKeepsTableWellTimed`) |
