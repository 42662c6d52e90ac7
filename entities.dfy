/** The persisted entities the event service works on: events, their
    status and the users invited to them. */
module Entities {
  import opened Wrappers

  /** Database identity of an event; opaque apart from equality and the
      order in which the store hands out fresh ones. */
  type EventId = nat

  /** Database identity of a user (a UUID string). */
  type UserId = string

  datatype EventStatus = Todo | InProgress | Completed

  /** An event row with its invitees reduced to their ids; instants are
      integer timestamps. */
  datatype Event = Event(
    id: EventId,
    title: string,
    description: Option<string>,
    status: EventStatus,
    startTime: int,
    endTime: int,
    invitees: seq<UserId>)

  /** The creation-time invariant: an event starts strictly before it ends. */
  predicate WellFormed(e: Event)
  {
    e.startTime < e.endTime
  }

  /** Ascending by start time, in whatever order ties come. */
  predicate SortedByStart(es: seq<Event>)
  {
    forall i, j | 0 <= i <= j < |es| :: es[i].startTime <= es[j].startTime
  }

  predicate NoDup<T(==)>(s: seq<T>)
  {
    forall i, j | 0 <= i < j < |s| :: s[i] != s[j]
  }
}
