/** The `isEventCreator` middleware: the event must exist, and the caller must be its creator. */
module EventCreatorGate {
  import opened Wrappers
  import opened Http
  import opened Store

  const EVENT_NOT_FOUND := "Event not found."
  const NOT_THE_CREATOR := "Not the event creator."

  /**
   * Look the event up: a missing one answers 404 before ownership is looked at; an event whose
   * `createdById` is not the caller's id answers 403; the creator gets `next()`.
   */
  function IsEventCreator(events: map<int, Event>, eventId: int, caller: Caller): (g: Gate)
    ensures eventId !in events ==> g == Respond(NOT_FOUND, EVENT_NOT_FOUND)
    ensures eventId in events ==> (g.Next? <==> events[eventId].createdById == Some(caller.id))
    ensures eventId in events && g.Respond? ==> g == Respond(FORBIDDEN, NOT_THE_CREATOR)
  {
    if eventId !in events then Respond(NOT_FOUND, EVENT_NOT_FOUND)
    else if events[eventId].createdById != Some(caller.id) then Respond(FORBIDDEN, NOT_THE_CREATOR)
    else Next
  }

  /** An event created without an owner (`createdById` null) lets nobody through. */
  lemma NullCreatorDeniesEveryone(events: map<int, Event>, eventId: int, caller: Caller)
    requires eventId in events && events[eventId].createdById.None?
    ensures IsEventCreator(events, eventId, caller) == Respond(FORBIDDEN, NOT_THE_CREATOR)
  {}

  /** At most one user id passes the gate for a given event. */
  lemma OnlyOneCreatorPasses(events: map<int, Event>, eventId: int, a: Caller, b: Caller)
    requires IsEventCreator(events, eventId, a).Next? && IsEventCreator(events, eventId, b).Next?
    ensures a.id == b.id
  {}

  /** The gate's answer depends only on the event it names: other events may change freely. */
  lemma CreatorGateIsLocal(events: map<int, Event>, events': map<int, Event>, eventId: int, caller: Caller)
    requires eventId in events <==> eventId in events'
    requires eventId in events ==> events[eventId].createdById == events'[eventId].createdById
    ensures IsEventCreator(events, eventId, caller) == IsEventCreator(events', eventId, caller)
  {}
}
