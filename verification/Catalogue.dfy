/**
  The tables behind the administration of events: events, offers, sessions and the tickets sold
  for them (packages/backend/src/admin/admin-events.controller.ts and the schema in
  packages/backend/prisma/schema.prisma).
 */
module Catalogue {
  import opened Prelude

  type EventId = string
  type OfferId = string
  type SessionId = string

  datatype Source = TC | TEPLOHOD | RADARIO | TIMEPAD | MANUAL

  datatype OfferStatus = ACTIVE | HIDDEN | DISABLED

  datatype Event = Event(
    source: Source, slug: string, groupingKey: Option<string>, canonicalOf: Option<EventId>,
    createdAt: int, isActive: bool, isDeleted: bool, defaultCapacity: Option<int>)

  datatype Offer = Offer(eventId: EventId, source: Source, isPrimary: bool, status: OfferStatus, isDeleted: bool)

  datatype Session = Session(
    eventId: EventId, offerId: Option<OfferId>, startsAt: int, endsAt: Option<int>, capacity: Option<int>,
    isActive: bool, canceledAt: Option<int>, cancelReason: Option<string>)

  type Events = map<EventId, Event>
  type Offers = map<OfferId, Offer>
  type Sessions = map<SessionId, Session>

  /**
    `sold` counts the tickets of booked and confirmed package items; `ticketed` are the sessions
    that any package item refers to.
   */
  datatype Store = Store(
    events: Events, offers: Offers, sessions: Sessions,
    sold: map<SessionId, nat>, ticketed: set<SessionId>, clock: int)

  datatype LockReason = SOLD | PAST | IMPORTED | OTHER

  /** Errors an endpoint answers with; `Conflict` is a database constraint that refuses a write. */
  datatype Error = BadRequest | NotFound | SessionLocked(reason: LockReason) | Conflict

  datatype Outcome = Done | Failed(error: Error)

  function SoldCount(st: Store, id: SessionId): nat {
    if id in st.sold then st.sold[id] else 0
  }

  /** The capacity of a session: its own, or its event's default. */
  function CapacityOf(st: Store, s: Session): Option<int> {
    s.capacity.OrElse(if s.eventId in st.events then st.events[s.eventId].defaultCapacity else None)
  }

  function SlugsOf(events: Events): set<string> {
    set id | id in events :: events[id].slug
  }

  function SlugsOfOthers(events: Events, me: EventId): set<string> {
    set id | id in events && id != me :: events[id].slug
  }

  // ----- Constraints of the schema -----

  /** Foreign keys, and the unique keys on slugs and on an event's session times. */
  ghost predicate Consistent(st: Store) {
    && ForeignKeys(st)
    && UniqueSlugs(st.events)
    && UniqueTimes(st.sessions)
  }

  ghost predicate ForeignKeys(st: Store) {
    && (forall id | id in st.events && st.events[id].canonicalOf.Some? :: st.events[id].canonicalOf.value in st.events)
    && (forall id | id in st.offers :: st.offers[id].eventId in st.events)
    && (forall id | id in st.sessions :: st.sessions[id].eventId in st.events)
    && (forall id | id in st.sessions && st.sessions[id].offerId.Some? :: st.sessions[id].offerId.value in st.offers)
    && (forall id | id in st.ticketed :: id in st.sessions)
    && (forall id | id in st.sold && st.sold[id] > 0 :: id in st.ticketed)
  }

  predicate UniqueSlugs(events: Events) {
    forall a, b | a in events && b in events && a != b :: events[a].slug != events[b].slug
  }

  predicate UniqueTimes(sessions: Sessions) {
    forall a, b | a in sessions && b in sessions && a != b && sessions[a].eventId == sessions[b].eventId ::
      sessions[a].startsAt != sessions[b].startsAt
  }
}
