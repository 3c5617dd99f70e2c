/**
  Runs of the catalogue: any sequence of endpoint calls, sales, refunds and passing time.  Every
  endpoint is one step, except that the conditional write of a cancellation and the write of a
  batch archive may also arrive on their own, after whatever came since their reads.
 */
module Runs {
  import opened Prelude
  import opened Catalogue
  import opened SessionSteps
  import EventSteps
  import OfferSteps
  import Archive

  datatype EventStep =
    | Create(id: EventId, title: string, cityKnown: bool, locationKnown: bool, offer: Option<(OfferId, Source)>)
    | Duplicate(original: EventId, copyId: EventId)
    | Rename(renamed: EventId, text: string)
    | Mark(marked: EventId, target: EventId)
    | Group(member: EventId, key: string)
    | Ungroup(leaver: EventId)
    | Crown(crowned: EventId)
    | SetArchived(archived: EventId, isArchived: bool)
    | Activate(activated: EventId, on: bool)
    | BulkUpdate(ids: set<EventId>, hasCategory: bool, isActive: Option<bool>, softDelete: bool)
    | ArchiveWrite(batch: seq<EventId>, source: Source, since: int)

  datatype SessionStep =
    | Add(id: SessionId, eventId: EventId, startsAt: DateArg, endsAt: DateArg, capacity: Option<int>)
    | AddBatch(batchEvent: EventId, slots: seq<Slot>)
    | Update(updated: SessionId, newStart: DateArg, newEnd: Change, newCapacity: Change)
    | Stop(stopped: SessionId, stopReason: Option<string>)
    | Cancel(canceled: SessionId, reason: Option<string>)
    | CancelLate(late: SessionId, at: int, lateReason: Option<string>)
    | Delete(deleted: SessionId)
    | Bulk(sessionIds: seq<string>, pause: bool)

  datatype OfferStep =
    | AddOffer(id: OfferId, eventId: EventId, source: Source, isPrimary: bool, status: OfferStatus, accepted: bool)
    | ChangeOffer(ofEvent: EventId, changed: OfferId, newPrimary: Option<bool>, newStatus: Option<OfferStatus>,
                  newSource: Option<Source>, allowed: bool)
    | RemoveOffer(owner: EventId, removed: OfferId)
    | CloneOffer(clonedOf: EventId, cloned: OfferId, cloneId: OfferId)
    | Merge(from: EventId, merged: OfferId, into: EventId)

  datatype Step =
    | Tick(elapsed: nat)
    | Sell(session: SessionId, tickets: nat)
    | Refund(refunded: SessionId, returned: nat)
    | OnEvents(event: EventStep)
    | OnSessions(change: SessionStep)
    | OnOffers(offer: OfferStep)

  function AfterEvent(st: Store, step: EventStep): Store {
    match step
    case Create(id, title, cityKnown, locationKnown, offer) =>
      EventSteps.CreateEvent(st, id, title, cityKnown, locationKnown, offer).0
    case _ => st.(events := EventsAfter(st, step))
  }

  /** The event table after any step but a creation. */
  function EventsAfter(st: Store, step: EventStep): Events {
    match step
    case Create(_, _, _, _, _) => st.events
    case Duplicate(id, copyId) => EventSteps.DuplicateEvent(st.events, st.clock, id, copyId).0
    case Rename(id, text) => EventSteps.UpdateEventSlug(st.events, id, text).0
    case Mark(id, target) => EventSteps.MarkDuplicate(st.events, id, target).0
    case Group(id, key) => EventSteps.UpdateEventGrouping(st.events, id, key).0
    case Ungroup(id) => EventSteps.ClearEventGrouping(st.events, id).0
    case Crown(id) => EventSteps.MakeEventCanonical(st.events, id).0
    case SetArchived(id, isArchived) => EventSteps.SetArchived(st.events, id, isArchived).0
    case Activate(id, on) => EventSteps.UpdateActivation(st.events, id, on).0
    case BulkUpdate(ids, hasCategory, isActive, softDelete) =>
      EventSteps.BulkUpdateEvents(st.events, ids, hasCategory, isActive, softDelete).0
    case ArchiveWrite(ids, source, since) =>
      if since <= st.clock then Archive.ArchiveWrite(st, ids, source, since) else st.events
  }

  function SessionsAfter(st: Store, step: SessionStep): Sessions {
    match step
    case Add(id, eventId, startsAt, endsAt, capacity) => CreateSession(st, id, eventId, startsAt, endsAt, capacity).0
    case AddBatch(eventId, slots) => BatchCreateSessions(st, eventId, slots).0
    case Update(id, startsAt, endsAt, capacity) => UpdateSession(st, id, startsAt, endsAt, capacity).0
    case Stop(id, reason) => StopSession(st, id, reason).0
    case Cancel(id, reason) => CancelSession(st, id, reason).0
    case CancelLate(id, at, reason) => CancelWrite(st.sessions, id, at, reason)
    case Delete(id) => DeleteSession(st, id).0
    case Bulk(ids, pause) => BulkSessions(st, ids, pause).0
  }

  function AfterOffer(st: Store, step: OfferStep): Store {
    match step
    case AddOffer(id, eventId, source, isPrimary, status, accepted) =>
      st.(offers := OfferSteps.CreateOffer(st, id, eventId, source, isPrimary, status, accepted).0)
    case ChangeOffer(eventId, id, isPrimary, status, source, accepted) =>
      st.(offers := OfferSteps.UpdateOffer(st, eventId, id, isPrimary, status, source, accepted).0)
    case RemoveOffer(eventId, id) => OfferSteps.DeleteOffer(st, eventId, id).0
    case CloneOffer(eventId, id, cloneId) => st.(offers := OfferSteps.CloneOffer(st, eventId, id, cloneId).0)
    case Merge(source, id, target) => OfferSteps.MergeOffer(st, source, id, target).0
  }

  /** A sale happens only within the capacity of the session. */
  predicate CanSell(st: Store, id: SessionId, tickets: nat) {
    && id in st.sessions
    && (CapacityOf(st, st.sessions[id]).Some? ==> SoldCount(st, id) + tickets <= CapacityOf(st, st.sessions[id]).value)
  }

  function Apply(st: Store, step: Step): Store {
    match step
    case Tick(elapsed) => st.(clock := st.clock + elapsed)
    case Sell(id, tickets) =>
      if CanSell(st, id, tickets)
      then st.(sold := st.sold[id := SoldCount(st, id) + tickets], ticketed := st.ticketed + {id})
      else st
    case Refund(id, returned) =>
      if id in st.sold && returned <= st.sold[id] then st.(sold := st.sold[id := st.sold[id] - returned]) else st
    case OnEvents(e) => AfterEvent(st, e)
    case OnSessions(s) => st.(sessions := SessionsAfter(st, s))
    case OnOffers(o) => AfterOffer(st, o)
  }

  function Run(st: Store, steps: seq<Step>): Store
    decreases steps
  {
    if steps == [] then st else Run(Apply(st, steps[0]), steps[1..])
  }

  /** A refund of the tickets of a sale undoes it, but for the tickets that once referred to the session. */
  lemma RefundUndoesSale(st: Store, id: SessionId, tickets: nat)
    ensures var sold := Apply(st, Sell(id, tickets));
            var back := Apply(sold, Refund(id, tickets));
            if CanSell(st, id, tickets)
            then && SoldCount(sold, id) == SoldCount(st, id) + tickets
                 && (forall x | x != id :: SoldCount(sold, x) == SoldCount(st, x))
                 && (forall x :: SoldCount(back, x) == SoldCount(st, x))
                 && back.ticketed == sold.ticketed == st.ticketed + {id}
                 && sold == st.(sold := sold.sold, ticketed := sold.ticketed) && back == sold.(sold := back.sold)
            else sold == st
    ensures CanSell(st, id, tickets)
       <==> && id in st.sessions
            && var s := st.sessions[id];
               var total := if s.capacity.Some? then s.capacity
                            else if s.eventId in st.events then st.events[s.eventId].defaultCapacity else None;
               total.None? || SoldCount(st, id) + tickets <= total.value
    ensures SoldCount(st, id) < tickets ==> Apply(st, Refund(id, tickets)) == st
    ensures Apply(st, Tick(tickets)) == st.(clock := st.clock + tickets)
  {
  }

  // ----- What each kind of step leaves alone -----

  ghost predicate EventFrame(st: Store, after: Store) {
    && after.sessions == st.sessions && after.sold == st.sold && after.ticketed == st.ticketed
    && after.clock == st.clock
    && st.offers.Keys <= after.offers.Keys
    && (forall id | id in st.offers :: after.offers[id] == st.offers[id])
    && st.events.Keys <= after.events.Keys
    && (forall id | id in st.events :: after.events[id].defaultCapacity == st.events[id].defaultCapacity
                                    && after.events[id].source == st.events[id].source)
  }

  lemma CreateFrame(st: Store, id: EventId, title: string, cityKnown: bool, locationKnown: bool,
                    offer: Option<(OfferId, Source)>)
    ensures EventFrame(st, EventSteps.CreateEvent(st, id, title, cityKnown, locationKnown, offer).0)
  {
  }

  lemma EventsFrame(st: Store, step: EventStep)
    ensures EventFrame(st, st.(events := EventsAfter(st, step)))
  {
  }

  lemma EventStepFrame(st: Store, step: EventStep)
    ensures EventFrame(st, AfterEvent(st, step))
  {
    hide EventsAfter, EventSteps.CreateEvent, EventFrame;
    match step
    case Create(id, title, cityKnown, locationKnown, offer) =>
      CreateFrame(st, id, title, cityKnown, locationKnown, offer);
    case _ => EventsFrame(st, step);
  }

  ghost predicate OfferFrame(st: Store, after: Store, merged: bool) {
    && after.sold == st.sold && after.ticketed == st.ticketed && after.clock == st.clock
    && after.sessions.Keys == st.sessions.Keys
    && after.events.Keys == st.events.Keys
    && st.offers.Keys <= after.offers.Keys
    && (forall id | id in st.sessions ::
          var s, s' := st.sessions[id], after.sessions[id];
          && s' == s.(eventId := s'.eventId, isActive := s'.isActive)
          && (s'.isActive ==> s.isActive)
          && (!merged ==> s'.eventId == s.eventId))
    && (forall id | id in st.events ::
          after.events[id] == st.events[id].(canonicalOf := after.events[id].canonicalOf))
    && (!merged ==> after.events == st.events)
  }

  lemma MergeFrame(st: Store, source: EventId, id: OfferId, target: EventId)
    ensures OfferFrame(st, OfferSteps.MergeOffer(st, source, id, target).0, true)
  {
    hide UniqueTimes;
  }

  lemma DeleteFrame(st: Store, eventId: EventId, id: OfferId)
    ensures OfferFrame(st, OfferSteps.DeleteOffer(st, eventId, id).0, false)
  {
  }

  lemma OnlyOffers(st: Store, offers: Offers)
    requires st.offers.Keys <= offers.Keys
    ensures OfferFrame(st, st.(offers := offers), false)
  {
  }

  lemma OfferStepFrame(st: Store, step: OfferStep)
    ensures OfferFrame(st, AfterOffer(st, step), step.Merge?)
  {
    hide OfferSteps.MergeOffer, OfferSteps.DeleteOffer, OfferFrame;
    match step
    case Merge(source, id, target) => MergeFrame(st, source, id, target);
    case RemoveOffer(eventId, id) => DeleteFrame(st, eventId, id);
    case _ => OnlyOffers(st, AfterOffer(st, step).offers);
  }

  /** Time only moves forward. */
  lemma {:induction false} ClockAdvances(st: Store, steps: seq<Step>)
    ensures Run(st, steps).clock >= st.clock
    decreases steps
  {
    hide AfterEvent, AfterOffer;
    if steps != [] {
      match steps[0] {
        case OnEvents(e) => EventStepFrame(st, e);
        case OnOffers(o) => OfferStepFrame(st, o);
        case _ =>
      }
      ClockAdvances(Apply(st, steps[0]), steps[1..]);
    }
  }
}
