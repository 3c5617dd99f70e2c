/**
  The endpoints that edit events: creation, copies, slugs, groups and duplicates
  (packages/backend/src/admin/admin-events.controller.ts).  Each function gives the event table an
  endpoint leaves and its outcome.  New identifiers are parameters, as are the answers of the
  lookups of cities and locations.
 */
module EventSteps {
  import opened Prelude
  import opened Catalogue
  import opened Letters
  import Slug
  import Tidy

  function CreateEvent(st: Store, id: EventId, title: string, cityKnown: bool, locationKnown: bool,
                       offer: Option<(OfferId, Source)>): (Store, Outcome) {
    var slug := Slug.AdminTransliterate(title);
    if slug in SlugsOf(st.events) then (st, Failed(BadRequest))
    else if !cityKnown then (st, Failed(NotFound))
    else if !locationKnown then (st, Failed(BadRequest))
    else if id in st.events || (offer.Some? && offer.value.0 in st.offers) then (st, Failed(Conflict))
    else
      var events := st.events[id := Event(MANUAL, slug, None, None, st.clock, true, false, None)];
      var offers := if offer.None? then st.offers
                    else st.offers[offer.value.0 := Offer(id, offer.value.1, true, ACTIVE, false)];
      (st.(events := events, offers := offers), Done)
  }

  function CopySlug(events: Events, slug: string): string {
    Slug.FirstFree(SlugsOf(events), slug + "-copy", slug + "-copy", 2)
  }

  function DuplicateEvent(events: Events, clock: int, id: EventId, copyId: EventId): (Events, Outcome) {
    if id !in events || events[id].isDeleted then (events, Failed(NotFound))
    else if copyId in events then (events, Failed(Conflict))
    else
      var e := events[id];
      var copy := Event(MANUAL, CopySlug(events, e.slug), e.groupingKey, None, clock, false, false, e.defaultCapacity);
      (events[copyId := copy], Done)
  }

  function RenamedSlug(events: Events, id: EventId, base: string): string {
    Slug.FirstFree(SlugsOfOthers(events, id), base, base, 2)
  }

  function UpdateEventSlug(events: Events, id: EventId, text: string): (Events, Outcome) {
    var base := Slug.AdminTransliterate(text);
    if base == "" then (events, Failed(BadRequest))
    else if id !in events then (events, Failed(NotFound))
    else (events[id := events[id].(slug := RenamedSlug(events, id, base))], Done)
  }

  function MarkDuplicate(events: Events, id: EventId, target: EventId): (Events, Outcome) {
    if target == "" || id == target then (events, Failed(BadRequest))
    else if target !in events || id !in events then (events, Failed(NotFound))
    else (events[id := events[id].(canonicalOf := Some(target))], Done)
  }

  function UpdateEventGrouping(events: Events, id: EventId, text: string): (Events, Outcome) {
    var key := Tidy.Trim(text, IsSpace);
    if key == "" then (events, Failed(BadRequest))
    else if id !in events || events[id].isDeleted then (events, Failed(NotFound))
    else
      var e := events[id];
      var canonicalOf := if e.groupingKey != Some(key) then None else e.canonicalOf;
      (events[id := e.(groupingKey := Some(key), canonicalOf := canonicalOf)], Done)
  }

  function ClearEventGrouping(events: Events, id: EventId): (Events, Outcome) {
    if id !in events || events[id].isDeleted then (events, Failed(NotFound))
    else (events[id := events[id].(groupingKey := None, canonicalOf := None)], Done)
  }

  /** Every other member of the group, deleted ones included, points at `id`. */
  function Crowned(events: Events, id: EventId, key: string): Events
    requires id in events
  {
    map x | x in events ::
      if x == id then events[x].(canonicalOf := None)
      else if events[x].groupingKey == Some(key) then events[x].(canonicalOf := Some(id))
      else events[x]
  }

  function MakeEventCanonical(events: Events, id: EventId): (Events, Outcome) {
    if id !in events || events[id].isDeleted then (events, Failed(NotFound))
    else if events[id].groupingKey.GetOr("") == "" then (events, Failed(BadRequest))
    else (Crowned(events, id, events[id].groupingKey.value), Done)
  }

  function SetArchived(events: Events, id: EventId, isArchived: bool): (Events, Outcome) {
    if id !in events then (events, Failed(NotFound))
    else if events[id].source == MANUAL then (events, Failed(BadRequest))
    else (events[id := events[id].(isActive := !isArchived)], Done)
  }

  function UpdateActivation(events: Events, id: EventId, isActive: bool): (Events, Outcome) {
    if id !in events then (events, Failed(NotFound))
    else (events[id := events[id].(isActive := isActive)], Done)
  }

  function BulkUpdated(e: Event, isActive: Option<bool>, softDelete: bool): Event {
    if softDelete then e.(isDeleted := true, isActive := false) else e.(isActive := isActive.GetOr(e.isActive))
  }

  /** `hasCategory` says whether the request sets a category, which is not part of the model. */
  function BulkUpdateEvents(events: Events, ids: set<EventId>, hasCategory: bool, isActive: Option<bool>,
                            softDelete: bool): (Events, Outcome) {
    if ids == {} || (!hasCategory && isActive.None? && !softDelete) then (events, Failed(BadRequest))
    else (map x | x in events ::
            if x in ids && !events[x].isDeleted then BulkUpdated(events[x], isActive, softDelete) else events[x],
          Done)
  }
}
