/**
 * The event controller's own logic: the pagination arithmetic of `listEvents`, the input checks
 * of `createEvent` and `updateEvent` and the order they run in, and the delete-then-insert
 * replacement of one user's roles in one event done by `assignEventRoles`.
 */
module EventController {
  import opened Wrappers
  import opened Http
  import opened Authorization
  import opened Store

  // ----- listEvents: pagination -----

  /** A query-string value as `Number(x)` sees it: absent, not a number, or an integer. */
  datatype NumberParam = Missing | NotANumber | Numeric(n: int)

  const DEFAULT_PAGE := 1
  const DEFAULT_LIMIT := 10

  /** `Number(x) || d`: the number itself unless it is missing, NaN or 0. */
  function OrDefault(p: NumberParam, d: int): (v: int)
    ensures v == d || p == Numeric(v)
    ensures d != 0 ==> v != 0
    ensures p.Numeric? && p.n != 0 ==> v == p.n
  {
    if p.Numeric? && p.n != 0 then p.n else d
  }

  /** The page the query asks for, and the rows Prisma is told to skip and take. */
  datatype Page = Page(currentPage: int, skip: int, take: int)

  function Paginate(page: NumberParam, limit: NumberParam): (p: Page)
    ensures p.currentPage == OrDefault(page, DEFAULT_PAGE) && p.take == OrDefault(limit, DEFAULT_LIMIT)
    ensures p.take != 0
    ensures p.currentPage == 1 ==> p.skip == 0
  {
    var pageNum := OrDefault(page, DEFAULT_PAGE);
    var limitNum := OrDefault(limit, DEFAULT_LIMIT);
    Page(pageNum, (pageNum - 1) * limitNum, limitNum)
  }

  /** Negative numbers are not replaced by the defaults: they reach the query as they are. */
  lemma NegativeParamsPassThrough(page: int, limit: int)
    requires page < 0 && limit < 0
    ensures Paginate(Numeric(page), Numeric(limit)) == Page(page, (page - 1) * limit, limit)
  {}

  /** Pages tile the list: page n + 1 starts where page n ends. */
  lemma ConsecutivePagesAreAdjacent(n: int, limit: NumberParam)
    requires n >= 1
    ensures var p := Paginate(Numeric(n), limit);
            Paginate(Numeric(n + 1), limit).skip == p.skip + p.take
  {
    var l := OrDefault(limit, DEFAULT_LIMIT);
    assert n * l == (n - 1) * l + l;
  }

  /** `Math.ceil(totalCount / limitNum)` for a nonzero integer limit. */
  function TotalPages(total: nat, limit: int): (n: int)
    requires limit != 0
    ensures limit > 0 ==> 0 <= n && (n - 1) * limit < total <= n * limit
    ensures limit < 0 ==> n <= 0 && n * limit <= total < (n - 1) * limit
  {
    if limit > 0 then
      CeilingBounds(total, limit);
      (total + limit - 1) / limit
    else
      FloorBoundsNegated(total, -limit);
      -(total / -limit)
  }

  /** Ceiling division by a positive divisor brackets the dividend. */
  lemma CeilingBounds(total: nat, limit: int)
    requires limit > 0
    ensures var q := (total + limit - 1) / limit;
            0 <= q && (q - 1) * limit < total <= q * limit
  {
    var q := (total + limit - 1) / limit;
    var r := (total + limit - 1) % limit;
    assert q * limit == total + limit - 1 - r;
    assert (q - 1) * limit == q * limit - limit;
  }

  /** Floor division by `m > 0`, negated, brackets the dividend from the side of a divisor `-m`. */
  lemma FloorBoundsNegated(total: nat, m: int)
    requires m > 0
    ensures var n := -(total / m);
            n <= 0 && n * -m <= total < (n - 1) * -m
  {
    var q := total / m;
    var r := total % m;
    assert q * m == total - r;
    assert (-q) * -m == q * m;
    assert (-q - 1) * -m == q * m + m;
  }

  /** Multiplying by a positive number keeps strict order, read backwards. */
  lemma MulCancel(a: int, b: int, c: int)
    requires c > 0 && a * c < b * c
    ensures a < b
  {
    assert (b - a) * c == b * c - a * c;
  }

  /** For a positive limit the page count is the least `n` with `n * limit >= total`. */
  lemma TotalPagesIsLeast(total: nat, limit: int, m: int)
    requires limit > 0 && m * limit >= total
    ensures TotalPages(total, limit) <= m
  {
    var n := TotalPages(total, limit);
    MulCancel(n - 1, m, limit);
  }

  /** An empty list has no pages, whatever the limit. */
  lemma NoRowsNoPages(limit: int)
    requires limit != 0
    ensures TotalPages(0, limit) == 0
  {
    if limit > 0 {
      assert (limit - 1) / limit == 0;
    } else {
      assert 0 / -limit == 0;
    }
  }

  /** With a positive limit every row index lies on a page that exists and whose window holds it. */
  lemma EveryRowIsOnSomePage(total: nat, limit: int, k: nat)
    requires limit > 0 && k < total
    ensures var n := k / limit + 1;
            var p := Paginate(Numeric(n), Numeric(limit));
            && 1 <= n <= TotalPages(total, limit)
            && p.skip <= k < p.skip + p.take
  {
    var n := k / limit + 1;
    var t := TotalPages(total, limit);
    assert (n - 1) * limit + k % limit == k;
    MulCancel(n - 1, t, limit);
  }

  // ----- createEvent and updateEvent: the input checks -----

  /** A date field of the body: falsy (absent), a string `Date.parse` rejects, or an instant. */
  datatype TimeParam = NoTime | Unparseable | At(t: int)

  /** The `slots` field: falsy, a value whose `Number(...)` is an integer, or one that is NaN. */
  datatype SlotsParam = NoSlots | SlotsNumber(n: int) | SlotsNotANumber

  /** The request body both handlers read; `None` is an undefined field. */
  datatype EventBody = EventBody(
    name: Option<string>,
    description: Option<string>,
    slots: SlotsParam,
    startTime: TimeParam,
    endTime: TimeParam,
    isPublic: Option<bool>)

  /** An answer other than success: the status and the message the handler sends. */
  datatype Failure = Failure(status: int, message: string)

  const NAME_REQUIRED := "Event name is required."
  const INVALID_START := "Invalid startTime format. Please provide a valid date string."
  const INVALID_END := "Invalid endTime format. Please provide a valid date string."
  const END_NOT_AFTER_START := "endTime must be after startTime."
  const CREATE_FAILED := "Failed to create event."
  const INVALID_EVENT_ID := "Invalid event ID provided."
  const UPDATE_FAILED := "Event not found or update failed."

  /** The event's time window, when both ends are known, is non-empty. */
  predicate WellTimed(e: Event) {
    e.startTime.Some? && e.endTime.Some? ==> e.startTime.value < e.endTime.value
  }

  /**
   * The three date checks both handlers run, in order: start format, end format, then, when both
   * are given, `isAfter(end, start)`.
   */
  function CheckTimes(startTime: TimeParam, endTime: TimeParam): (r: Option<Failure>)
    ensures r.None? <==> !startTime.Unparseable? && !endTime.Unparseable? &&
                         (startTime.At? && endTime.At? ==> startTime.t < endTime.t)
    ensures startTime.Unparseable? ==> r == Some(Failure(BAD_REQUEST, INVALID_START))
    ensures !startTime.Unparseable? && endTime.Unparseable? ==> r == Some(Failure(BAD_REQUEST, INVALID_END))
    ensures r.Some? && !startTime.Unparseable? && !endTime.Unparseable? ==>
              r == Some(Failure(BAD_REQUEST, END_NOT_AFTER_START))
  {
    if startTime.Unparseable? then Some(Failure(BAD_REQUEST, INVALID_START))
    else if endTime.Unparseable? then Some(Failure(BAD_REQUEST, INVALID_END))
    else if startTime.At? && endTime.At? && !(startTime.t < endTime.t) then Some(Failure(BAD_REQUEST, END_NOT_AFTER_START))
    else None
  }

  /** The stored value of a date field that passed the checks: null when it was falsy. */
  function TimeValue(p: TimeParam): (v: Option<int>)
    ensures v.Some? <==> p.At?
    ensures p.At? ==> v.value == p.t
  {
    if p.At? then Some(p.t) else None
  }

  /** `!name`: the name is undefined or empty. */
  predicate NameMissing(name: Option<string>) {
    name.None? || name.value == ""
  }

  /**
   * `createEvent`: the name check first, then the date checks, then the row Prisma stores, with
   * `slots` null when falsy, `isPublic` true when undefined and `createdById` null when the
   * caller has no id (`req.user?.id || null`).  A NaN `slots` is refused by the store and lands
   * in the handler's catch, which answers 400.
   */
  function CreateEvent(body: EventBody, callerId: Option<int>): (r: Result<Event, Failure>)
    ensures NameMissing(body.name) ==> r == Err(Failure(BAD_REQUEST, NAME_REQUIRED))
    ensures !NameMissing(body.name) && CheckTimes(body.startTime, body.endTime).Some? ==>
              r == Err(CheckTimes(body.startTime, body.endTime).value)
    ensures r.Ok? <==> !NameMissing(body.name) && CheckTimes(body.startTime, body.endTime).None? &&
                       !body.slots.SlotsNotANumber?
    ensures r.Err? ==> r.error.status == BAD_REQUEST
    ensures r.Ok? ==> WellTimed(r.value)
    ensures r.Ok? ==> r.value.name == body.name.value && r.value.description == body.description
    ensures r.Ok? ==> (r.value.slots.None? <==> body.slots.NoSlots?)
    ensures r.Ok? ==> r.value.startTime == TimeValue(body.startTime) && r.value.endTime == TimeValue(body.endTime)
    ensures r.Ok? ==> (r.value.isPublic <==> body.isPublic != Some(false))
    ensures r.Ok? ==> (r.value.createdById.None? <==> callerId.None? || callerId == Some(0))
  {
    if NameMissing(body.name) then Err(Failure(BAD_REQUEST, NAME_REQUIRED))
    else match CheckTimes(body.startTime, body.endTime)
      case Some(f) => Err(f)
      case None =>
        if body.slots.SlotsNotANumber? then Err(Failure(BAD_REQUEST, CREATE_FAILED))
        else
          Ok(Event(
            body.name.value,
            body.description,
            if body.slots.SlotsNumber? then Some(body.slots.n) else None,
            TimeValue(body.startTime),
            TimeValue(body.endTime),
            body.isPublic.GetOr(true),
            if callerId.Some? && callerId.value != 0 then callerId else None))
  }

  /**
   * The patch `prisma.event.update` applies: `name`, `description` and `isPublic` replace the
   * stored value whenever they are defined, even as "" or false; `slots`, `startTime` and
   * `endTime` replace it only when truthy; the creator never changes.
   */
  function Patched(e: Event, body: EventBody): (r: Event)
    requires !body.slots.SlotsNotANumber?
    ensures r.name == body.name.GetOr(e.name) && r.description == (if body.description.Some? then body.description else e.description)
    ensures r.slots == (if body.slots.SlotsNumber? then Some(body.slots.n) else e.slots)
    ensures r.startTime == (if body.startTime.At? then Some(body.startTime.t) else e.startTime)
    ensures r.endTime == (if body.endTime.At? then Some(body.endTime.t) else e.endTime)
    ensures r.isPublic == body.isPublic.GetOr(e.isPublic) && r.createdById == e.createdById
  {
    Event(
      body.name.GetOr(e.name),
      if body.description.Some? then body.description else e.description,
      if body.slots.SlotsNumber? then Some(body.slots.n) else e.slots,
      if body.startTime.At? then Some(body.startTime.t) else e.startTime,
      if body.endTime.At? then Some(body.endTime.t) else e.endTime,
      body.isPublic.GetOr(e.isPublic),
      e.createdById)
  }

  /** An empty body changes nothing. */
  lemma EmptyPatchIsIdentity(e: Event)
    ensures Patched(e, EventBody(None, None, NoSlots, NoTime, NoTime, None)) == e
  {}

  /** Applying the same body twice is applying it once. */
  lemma PatchIsIdempotent(e: Event, body: EventBody)
    requires !body.slots.SlotsNotANumber?
    ensures Patched(Patched(e, body), body) == Patched(e, body)
  {}

  /**
   * `updateEvent` as written: a NaN id answers 400 first, then the date checks of the body alone,
   * then the store's update, whose failure (no such event, or a NaN `slots`) lands in the catch
   * and answers 404.  The result is the new events table.
   */
  function UpdateEvent(events: map<int, Event>, id: Option<int>, body: EventBody): (r: Result<map<int, Event>, Failure>)
    ensures id.None? ==> r == Err(Failure(BAD_REQUEST, INVALID_EVENT_ID))
    ensures id.Some? && CheckTimes(body.startTime, body.endTime).Some? ==>
              r == Err(CheckTimes(body.startTime, body.endTime).value)
    ensures r.Ok? <==> id.Some? && CheckTimes(body.startTime, body.endTime).None? &&
                       id.value in events && !body.slots.SlotsNotANumber?
    ensures id.Some? && CheckTimes(body.startTime, body.endTime).None? && r.Err? ==>
              r == Err(Failure(NOT_FOUND, UPDATE_FAILED))
    ensures r.Ok? ==> r.value.Keys == events.Keys
    ensures r.Ok? ==> forall k :: k in events && k != id.value ==> r.value[k] == events[k]
    ensures r.Ok? ==> r.value[id.value] == Patched(events[id.value], body)
  {
    if id.None? then Err(Failure(BAD_REQUEST, INVALID_EVENT_ID))
    else match CheckTimes(body.startTime, body.endTime)
      case Some(f) => Err(f)
      case None =>
        if id.value !in events || body.slots.SlotsNotANumber? then Err(Failure(NOT_FOUND, UPDATE_FAILED))
        else Ok(events[id.value := Patched(events[id.value], body)])
  }

  /** When the body gives both times, an update keeps the event's window non-empty. */
  lemma UpdateWithBothTimesIsWellTimed(events: map<int, Event>, id: Option<int>, body: EventBody)
    requires body.startTime.At? && body.endTime.At?
    requires UpdateEvent(events, id, body).Ok?
    ensures WellTimed(UpdateEvent(events, id, body).value[id.value])
  {}

  /**
   * The date-order check looks only at the body, so an update that moves just one end of the
   * window can leave it empty: an event running 10..20 updated with `endTime` 5 is stored as 10..5.
   */
  lemma UpdateCanEmptyTheWindow()
    ensures var e := Event("talk", None, None, Some(10), Some(20), true, Some(1));
            var r := UpdateEvent(map[1 := e], Some(1), EventBody(None, None, NoSlots, NoTime, At(5), None));
            && WellTimed(e)
            && r.Ok? && !WellTimed(r.value[1])
  {}

  /**
   * `updateEvent` with the order check applied to the stored event's times as updated: the
   * window is checked after the merge, and an update that would empty it answers 400.
   */
  function UpdateEventChecked(events: map<int, Event>, id: Option<int>, body: EventBody): (r: Result<map<int, Event>, Failure>)
    ensures r.Ok? ==> r.value.Keys == events.Keys
    ensures r.Ok? ==> id.Some? && id.value in r.value && WellTimed(r.value[id.value])
    ensures r.Ok? ==> forall k :: k in events && k != id.value ==> r.value[k] == events[k]
  {
    match UpdateEvent(events, id, body)
    case Err(f) => Err(f)
    case Ok(updated) =>
      if WellTimed(updated[id.value]) then Ok(updated) else Err(Failure(BAD_REQUEST, END_NOT_AFTER_START))
  }

  /** The corrected update differs from the written one only where the written one empties a window. */
  lemma CheckedUpdateAgreesOtherwise(events: map<int, Event>, id: Option<int>, body: EventBody)
    ensures var written := UpdateEvent(events, id, body);
            written.Err? || WellTimed(written.value[id.value]) ==> UpdateEventChecked(events, id, body) == written
    ensures UpdateEventChecked(events, id, body).Err? && UpdateEvent(events, id, body).Ok? ==>
              UpdateEventChecked(events, id, body) == Err(Failure(BAD_REQUEST, END_NOT_AFTER_START))
  {}

  /** Under the corrected update, a table of well-timed events stays well-timed. */
  lemma CheckedUpdateKeepsTableWellTimed(events: map<int, Event>, id: Option<int>, body: EventBody)
    requires forall k :: k in events ==> WellTimed(events[k])
    requires UpdateEventChecked(events, id, body).Ok?
    ensures var r := UpdateEventChecked(events, id, body).value;
            forall k :: k in r ==> WellTimed(r[k])
  {}

  // ----- assignEventRoles: replace one user's roles in one event -----

  const ASSIGN_INVALID_ID := "Invalid event ID provided."
  const ASSIGN_BAD_BODY := "userId and roleIds (array) are required."
  const ASSIGN_FAILED := "Failed to assign event roles."

  /** The rows `deleteMany({ where: { userId, eventId } })` leaves: all but that pair's. */
  function DeleteAssignments(rows: seq<EventRoleAssignment>, userId: int, eventId: int): (r: seq<EventRoleAssignment>)
    ensures forall a :: a in r <==> a in rows && !(a.userId == userId && a.eventId == eventId)
    ensures |r| <= |rows|
  {
    if rows == [] then []
    else
      var rest := DeleteAssignments(rows[1..], userId, eventId);
      assert forall a :: a in rows <==> a == rows[0] || a in rows[1..];
      if rows[0].userId == userId && rows[0].eventId == eventId then rest else [rows[0]] + rest
  }

  /** `roleIds.map(roleId => ({ userId, eventId, roleId }))`. */
  function NewAssignments(userId: int, eventId: int, roleIds: seq<int>): (r: seq<EventRoleAssignment>)
    ensures |r| == |roleIds|
    ensures forall a :: a in r <==> a.userId == userId && a.eventId == eventId && a.roleId in roleIds
  {
    if roleIds == [] then []
    else
      var rest := NewAssignments(userId, eventId, roleIds[1..]);
      assert forall x :: x in roleIds <==> x == roleIds[0] || x in roleIds[1..];
      [EventRoleAssignment(userId, eventId, roleIds[0])] + rest
  }

  /**
   * What `createMany` accepts, as far as the store's constraints are modelled: no role id twice
   * (the (user, event, role) key is unique), and every inserted row naming an existing event
   * role, user and event.  The foreign keys are checked row by row, so an empty `roleIds`
   * inserts nothing and is always accepted.
   */
  predicate CreateManyAccepted(eventRoles: seq<Role>, users: seq<User>, events: map<int, Event>,
                               userId: int, eventId: int, roleIds: seq<int>)
    ensures roleIds == [] ==> CreateManyAccepted(eventRoles, users, events, userId, eventId, roleIds)
    ensures CreateManyAccepted(eventRoles, users, events, userId, eventId, roleIds) && roleIds != [] ==>
              HasUser(users, userId) && eventId in events
  {
    && (forall i, j :: 0 <= i < j < |roleIds| ==> roleIds[i] != roleIds[j])
    && (forall k :: 0 <= k < |roleIds| ==> exists r :: r in eventRoles && r.id == roleIds[k])
    && (|roleIds| > 0 ==> HasUser(users, userId) && eventId in events)
  }

  /** A successful replacement: the pair's rows are exactly `roleIds`, every other row is untouched. */
  function ReplaceAssignments(rows: seq<EventRoleAssignment>, userId: int, eventId: int, roleIds: seq<int>): (r: seq<EventRoleAssignment>)
    ensures forall a: EventRoleAssignment :: a.userId == userId && a.eventId == eventId ==> (a in r <==> a.roleId in roleIds)
    ensures forall a: EventRoleAssignment :: !(a.userId == userId && a.eventId == eventId) ==> (a in r <==> a in rows)
  {
    DeleteAssignments(rows, userId, eventId) + NewAssignments(userId, eventId, roleIds)
  }

  lemma {:induction false} NewAssignmentsDistinct(userId: int, eventId: int, roleIds: seq<int>)
    requires forall i, j :: 0 <= i < j < |roleIds| ==> roleIds[i] != roleIds[j]
    ensures NoDuplicates(NewAssignments(userId, eventId, roleIds))
    decreases |roleIds|
  {
    if roleIds != [] {
      NewAssignmentsDistinct(userId, eventId, roleIds[1..]);
      var r := NewAssignments(userId, eventId, roleIds);
      assert roleIds[0] !in roleIds[1..];
      assert r[0] !in r[1..];
    }
  }

  lemma {:induction false} DeleteKeepsNoDuplicates(rows: seq<EventRoleAssignment>, userId: int, eventId: int)
    requires NoDuplicates(rows)
    ensures NoDuplicates(DeleteAssignments(rows, userId, eventId))
    decreases |rows|
  {
    if rows != [] {
      DeleteKeepsNoDuplicates(rows[1..], userId, eventId);
      assert rows[0] !in rows[1..];
    }
  }

  /** Replacing with distinct role ids keeps the table free of duplicate rows. */
  lemma ReplaceKeepsNoDuplicates(rows: seq<EventRoleAssignment>, userId: int, eventId: int, roleIds: seq<int>)
    requires NoDuplicates(rows)
    requires forall i, j :: 0 <= i < j < |roleIds| ==> roleIds[i] != roleIds[j]
    ensures NoDuplicates(ReplaceAssignments(rows, userId, eventId, roleIds))
  {
    var kept := DeleteAssignments(rows, userId, eventId);
    var added := NewAssignments(userId, eventId, roleIds);
    DeleteKeepsNoDuplicates(rows, userId, eventId);
    NewAssignmentsDistinct(userId, eventId, roleIds);
    forall i, j | 0 <= i < j < |kept + added|
      ensures (kept + added)[i] != (kept + added)[j]
    {
      if i < |kept| && j >= |kept| {
        assert (kept + added)[i] in kept;
        assert (kept + added)[j] in added;
      }
    }
  }

  /** Replacing twice with the same ids is replacing once. */
  lemma ReplaceIsIdempotent(rows: seq<EventRoleAssignment>, userId: int, eventId: int, roleIds: seq<int>)
    ensures var once := ReplaceAssignments(rows, userId, eventId, roleIds);
            forall a :: a in ReplaceAssignments(once, userId, eventId, roleIds) <==> a in once
  {}

  /**
   * The handler: a NaN event id, then a falsy `userId` or a non-array `roleIds`, answer 400 and
   * change nothing; otherwise the pair's rows are deleted and the new ones inserted.  The two
   * steps are separate statements: when the insert is refused the deletion stays and the answer
   * is 500.
   */
  method AssignEventRoles(db: Db, eventId: Option<int>, userId: Option<int>, roleIds: Option<seq<int>>)
      returns (status: int, message: string)
    modifies db`eventRoleAssignments
    ensures eventId.None? ==> status == BAD_REQUEST && message == ASSIGN_INVALID_ID
    ensures eventId.Some? && (userId.None? || userId == Some(0) || roleIds.None?) ==>
              status == BAD_REQUEST && message == ASSIGN_BAD_BODY
    ensures status == BAD_REQUEST ==> db.eventRoleAssignments == old(db.eventRoleAssignments)
    ensures status != BAD_REQUEST ==>
              eventId.Some? && userId.Some? && userId.value != 0 && roleIds.Some? &&
              (status == OK <==> CreateManyAccepted(db.eventRoles, db.users, db.events, userId.value, eventId.value, roleIds.value))
    ensures status == OK ==>
              db.eventRoleAssignments == ReplaceAssignments(old(db.eventRoleAssignments), userId.value, eventId.value, roleIds.value)
    ensures status == SERVER_ERROR ==>
              message == ASSIGN_FAILED &&
              db.eventRoleAssignments == DeleteAssignments(old(db.eventRoleAssignments), userId.value, eventId.value)
    ensures status in {OK, BAD_REQUEST, SERVER_ERROR}
  {
    if eventId.None? {
      return BAD_REQUEST, ASSIGN_INVALID_ID;
    }
    if userId.None? || userId.value == 0 || roleIds.None? {
      return BAD_REQUEST, ASSIGN_BAD_BODY;
    }
    var u, e, ids := userId.value, eventId.value, roleIds.value;
    db.eventRoleAssignments := DeleteAssignments(db.eventRoleAssignments, u, e);
    if !CreateManyAccepted(db.eventRoles, db.users, db.events, u, e, ids) {
      return SERVER_ERROR, ASSIGN_FAILED;
    }
    db.eventRoleAssignments := db.eventRoleAssignments + NewAssignments(u, e, ids);
    return OK, "Event roles assigned successfully.";
  }
}
