/**
 * The event-registration handlers that decide something: `createEventRegistration` with its
 * default status, and `updateEventRegistration` with its faculty-or-creator permission test.
 */
module EventRegistrationController {
  import opened Wrappers
  import opened Http
  import opened Store
  import opened FacultyGate
  import opened EventCreatorGate

  const DEFAULT_STATUS := "confirmed"

  /** `status || 'confirmed'`: the status stored when a registration is created. */
  function InitialStatus(status: Option<string>): (s: string)
    ensures s != ""
    ensures s == DEFAULT_STATUS <==> status.None? || status.value == "" || status.value == DEFAULT_STATUS
    ensures status.Some? && status.value != "" ==> s == status.value
  {
    if status.Some? && status.value != "" then status.value else DEFAULT_STATUS
  }

  /** The store's foreign keys, as far as they are modelled: the user and the event exist. */
  predicate RegistrationAccepted(users: seq<User>, events: map<int, Event>, userId: Option<int>, eventId: Option<int>)
    ensures RegistrationAccepted(users, events, userId, eventId) ==>
              userId.Some? && eventId.Some? && HasUser(users, userId.value) && eventId.value in events
  {
    && userId.Some? && eventId.Some?
    && HasUser(users, userId.value)
    && eventId.value in events
  }

  /**
   * The insert is sent to the store: a missing `userId` or `eventId` is refused by the client's
   * validation before any SQL runs.  An insert that is sent takes a value of the id sequence even
   * when a foreign key then refuses it.
   */
  predicate RegistrationReachesStore(userId: Option<int>, eventId: Option<int>) {
    userId.Some? && eventId.Some?
  }

  /**
   * `createEventRegistration`: insert `{ userId, eventId, status || 'confirmed' }` under the next
   * id and answer 201; a refused insert lands in the catch and answers 400 with nothing stored,
   * having used up an id when it reached the store.
   */
  method CreateEventRegistration(db: Db, userId: Option<int>, eventId: Option<int>, status: Option<string>)
      returns (code: int, id: int)
    modifies db`registrations, db`nextRegistrationId
    ensures code == CREATED <==> RegistrationAccepted(db.users, db.events, userId, eventId)
    ensures code == CREATED ==>
              id == old(db.nextRegistrationId) && db.nextRegistrationId == id + 1 &&
              db.registrations == old(db.registrations)[id := Registration(userId.value, eventId.value, InitialStatus(status))]
    ensures code != CREATED ==>
              code == BAD_REQUEST && db.registrations == old(db.registrations) &&
              db.nextRegistrationId == old(db.nextRegistrationId) + (if RegistrationReachesStore(userId, eventId) then 1 else 0)
  {
    if !RegistrationAccepted(db.users, db.events, userId, eventId) {
      if RegistrationReachesStore(userId, eventId) {
        db.nextRegistrationId := db.nextRegistrationId + 1;
      }
      return BAD_REQUEST, 0;
    }
    id := db.nextRegistrationId;
    db.registrations := db.registrations[id := Registration(userId.value, eventId.value, InitialStatus(status))];
    db.nextRegistrationId := id + 1;
    code := CREATED;
  }

  /**
   * Lines 54-57 of the handler: the caller may update when their role is "faculty" or their id
   * is the `createdById` of the registration's event.  A non-faculty caller whose registration
   * has no event would make the handler read a field of null; that error is caught and answered
   * 404, modelled here as `None`.
   */
  function MayUpdate(caller: Caller, event: Option<Event>): (r: Option<bool>)
    ensures r.None? <==> caller.role != FACULTY && event.None?
    ensures r.Some? ==> (r.value <==> caller.role == FACULTY || event.value.createdById == Some(caller.id))
  {
    if caller.role == FACULTY then Some(true)
    else if event.None? then None
    else Some(event.value.createdById == Some(caller.id))
  }

  /** The permission test is the disjunction of the two gates: `isFaculty` passes or `isEventCreator` passes. */
  lemma MayUpdateIsFacultyOrCreator(events: map<int, Event>, eventId: int, caller: Caller)
    requires eventId in events
    ensures MayUpdate(caller, Some(events[eventId])) ==
            Some(IsFaculty(caller).Next? || IsEventCreator(events, eventId, caller).Next?)
  {}

  /** The event a registration belongs to, when the store has it. */
  function EventOf(events: map<int, Event>, reg: Registration): (e: Option<Event>)
    ensures e.Some? <==> reg.eventId in events
    ensures e.Some? ==> e.value == events[reg.eventId]
  {
    if reg.eventId in events then Some(events[reg.eventId]) else None
  }

  /**
   * `updateEventRegistration`: a NaN id makes the lookup throw and a missing registration answers
   * 404, both before the permission test; a refused caller gets 403 and nothing changes;
   * otherwise only the status is written, and an undefined status writes nothing.
   */
  method UpdateEventRegistration(db: Db, caller: Caller, id: Option<int>, status: Option<string>)
      returns (code: int)
    modifies db`registrations
    ensures id.None? || id.value !in old(db.registrations) ==> code == NOT_FOUND
    ensures code != OK ==> db.registrations == old(db.registrations)
    ensures id.Some? && id.value in old(db.registrations) ==>
              var allowed := MayUpdate(caller, EventOf(db.events, old(db.registrations)[id.value]));
              && (allowed == Some(true) <==> code == OK)
              && (allowed == Some(false) <==> code == FORBIDDEN)
              && (allowed.None? <==> code == NOT_FOUND)
    ensures code == OK ==>
              var before := old(db.registrations)[id.value];
              db.registrations == old(db.registrations)[id.value := before.(status := status.GetOr(before.status))]
    ensures code in {OK, FORBIDDEN, NOT_FOUND}
  {
    if id.None? || id.value !in db.registrations {
      return NOT_FOUND;
    }
    var reg := db.registrations[id.value];
    var allowed := MayUpdate(caller, EventOf(db.events, reg));
    if allowed.None? {
      return NOT_FOUND;
    }
    if !allowed.value {
      return FORBIDDEN;
    }
    db.registrations := db.registrations[id.value := reg.(status := status.GetOr(reg.status))];
    return OK;
  }
}
