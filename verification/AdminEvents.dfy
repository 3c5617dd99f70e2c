/**
  The administration of events as it runs: one object holds the tables, and each endpoint changes
  them statement by statement (packages/backend/src/admin/admin-events.controller.ts).  Every
  endpoint keeps the tables sound and is proved to be a step of the runs in Runs, by its function in
  EventSteps, SessionSteps, OfferSteps or Archive; its other clauses say what the caller may rely on.
 */
module AdminEvents {
  import opened Prelude
  import opened Catalogue
  import opened Letters
  import opened EndpointProofs
  import Archive
  import Calendar
  import Decimal
  import EventProofs
  import EventSteps
  import Groups
  import OfferOutcomes
  import OfferProofs
  import OfferSteps
  import Runs
  import SessionOutcomes
  import SessionProofs
  import SessionSteps
  import Slug
  import Tidy

  class Tables {
    var events: Events
    var offers: Offers
    var sessions: Sessions
    var sold: map<SessionId, nat>
    var ticketed: set<SessionId>
    var clock: int

    function State(): Store
      reads this
    {
      Store(events, offers, sessions, sold, ticketed, clock)
    }

    ghost predicate Valid()
      reads this
    {
      Sound(State())
    }

    // ----- Slugs -----

    /** The slugs of all events, or of all events but one. */
    ghost function TakenSlugs(me: Option<EventId>): set<string>
      reads this
    {
      if me.Some? then SlugsOfOthers(events, me.value) else SlugsOf(events)
    }

    predicate SlugTaken(slug: string, me: Option<EventId>)
      reads this
      ensures SlugTaken(slug, me) <==> slug in TakenSlugs(me)
    {
      exists id | id in events :: me != Some(id) && events[id].slug == slug
    }

    /** The loop that tries base, base-2, base-3, ... until a slug is free. */
    method FindFreeSlug(base: string, me: Option<EventId>) returns (slug: string)
      ensures slug == Slug.FirstFree(TakenSlugs(me), base, base, 2)
    {
      slug := base;
      var suffix: nat := 1;
      ghost var taken := TakenSlugs(me);
      ghost var untried := taken;
      while SlugTaken(slug, me)
        invariant 1 <= suffix && untried <= taken
        invariant slug == if suffix == 1 then base else Slug.Numbered(base, suffix)
        invariant suffix > 1 ==> base in taken
        invariant forall k: nat | suffix <= k && 1 < k :: Slug.Numbered(base, k) in untried <==> Slug.Numbered(base, k) in taken
        invariant Slug.FirstFreeNumbered(taken, base, 2)
               == Slug.FirstFreeNumbered(untried, base, if suffix == 1 then 2 else suffix)
        decreases untried, 2 - suffix
      {
        if suffix > 1 {
          ghost var tried := slug;
          forall k: nat | suffix < k
            ensures Slug.Numbered(base, k) != tried
          {
            if Slug.Numbered(base, k) == tried {
              Slug.NumberedInjective(base, k, suffix);
            }
          }
          untried := untried - {tried};
        }
        suffix := suffix + 1;
        slug := base + "-" + Decimal.Print(suffix);
      }
    }

    // ----- Events -----

    method CreateEvent(id: EventId, title: string, cityKnown: bool, locationKnown: bool, offer: Option<(OfferId, Source)>)
      returns (r: Outcome)
      requires Valid()
      modifies this
      ensures Valid()
      ensures (State(), r) == EventSteps.CreateEvent(old(State()), id, title, cityKnown, locationKnown, offer)
      ensures !r.Done? ==> State() == old(State())
      ensures r.Done? ==> id in events && events - {id} == old(events) && TitleRefused(State(), title)
      ensures r.Done? ==> OfferSteps.OffersOf(offers, id) == (if offer.Some? then {offer.value.0} else {})
      ensures r.Done? ==> forall o | o in OfferSteps.OffersOf(offers, id) :: offers[o].isPrimary
    {
      hide Sound, ForeignKeys, CancelledAreInactive, TitleRefused, OfferSteps.OffersOf;
      StepKeepsSound(State(), Runs.OnEvents(Runs.Create(id, title, cityKnown, locationKnown, offer)));
      SoundKeys(State());
      CreatedEvent(State(), id, title, cityKnown, locationKnown, offer);
      var slug := Slug.AdminTransliterate(title);
      if SlugTaken(slug, None) {
        return Failed(BadRequest);
      }
      if !cityKnown {
        return Failed(NotFound);
      }
      if !locationKnown {
        return Failed(BadRequest);
      }
      if id in events || (offer.Some? && offer.value.0 in offers) {
        return Failed(Conflict);
      }
      events := events[id := Event(MANUAL, slug, None, None, clock, true, false, None)];
      if offer.Some? {
        offers := offers[offer.value.0 := Offer(id, offer.value.1, true, ACTIVE, false)];
      }
      r := Done;
    }

    method DuplicateEvent(id: EventId, copyId: EventId) returns (r: Outcome)
      requires Valid()
      modifies this`events
      ensures Valid()
      ensures (events, r) == EventSteps.DuplicateEvent(old(events), clock, id, copyId)
      ensures r.Done? ==> events - {copyId} == old(events) && copyId in events && !events[copyId].isActive
      ensures Groups.Forest(old(events)) ==> Groups.Forest(events)
    {
      hide Sound, ForeignKeys, CancelledAreInactive, Groups.Forest;
      StepKeepsSound(State(), Runs.OnEvents(Runs.Duplicate(id, copyId)));
      SoundKeys(State());
      KeepsForest(State(), Runs.Duplicate(id, copyId));
      if id !in events || events[id].isDeleted {
        return Failed(NotFound);
      }
      var original := events[id];
      var slug := FindFreeSlug(original.slug + "-copy", None);
      if copyId in events {
        return Failed(Conflict);
      }
      events := events[copyId := Event(MANUAL, slug, original.groupingKey, None, clock, false, false, original.defaultCapacity)];
      r := Done;
    }

    method UpdateEventSlug(id: EventId, text: string) returns (r: Outcome)
      requires Valid()
      modifies this`events
      ensures Valid()
      ensures (events, r) == EventSteps.UpdateEventSlug(old(events), id, text)
      ensures r.Done? ==> EventSteps.UpdateEventSlug(events, id, text) == (events, Done)
    {
      hide Sound, ForeignKeys, CancelledAreInactive;
      StepKeepsSound(State(), Runs.OnEvents(Runs.Rename(id, text)));
      EventProofs.RenameTwice(events, id, text);
      var base := Slug.AdminTransliterate(text);
      if base == "" {
        return Failed(BadRequest);
      }
      var slug := FindFreeSlug(base, Some(id));
      if id !in events {
        return Failed(NotFound);
      }
      events := events[id := events[id].(slug := slug)];
      r := Done;
    }

    method MarkDuplicate(id: EventId, target: EventId) returns (r: Outcome)
      requires Valid()
      modifies this`events
      ensures Valid()
      ensures (events, r) == EventSteps.MarkDuplicate(old(events), id, target)
      ensures r.Done? && Groups.Forest(old(events)) ==>
                (Groups.Forest(events) <==> !Groups.Reaches(old(events), target, id))
    {
      hide Sound, ForeignKeys, CancelledAreInactive, Groups.Forest, Groups.Reaches;
      StepKeepsSound(State(), Runs.OnEvents(Runs.Mark(id, target)));
      SoundKeys(State());
      MarkedForest(State(), id, target);
      if target == "" || id == target {
        return Failed(BadRequest);
      }
      if target !in events || id !in events {
        return Failed(NotFound);
      }
      events := events[id := events[id].(canonicalOf := Some(target))];
      r := Done;
    }

    method UpdateEventGrouping(id: EventId, text: string) returns (r: Outcome)
      requires Valid()
      modifies this`events
      ensures Valid()
      ensures (events, r) == EventSteps.UpdateEventGrouping(old(events), id, text)
      ensures Groups.Forest(old(events)) ==> Groups.Forest(events)
      ensures r.Done? ==> forall k ::
                Members(events, k) == if k == Tidy.Trim(text, IsSpace) then Members(old(events), k) + {id}
                                      else Members(old(events), k) - {id}
      ensures r.Done? ==> EventSteps.UpdateEventGrouping(events, id, text) == (events, Done)
      ensures !r.Done? ==> events == old(events)
    {
      hide Sound, ForeignKeys, CancelledAreInactive, Groups.Forest, Members, Tidy.Trim;
      StepKeepsSound(State(), Runs.OnEvents(Runs.Group(id, text)));
      SoundKeys(State());
      KeepsForest(State(), Runs.Group(id, text));
      RegroupedMembers(events, id, text);
      var trimmed := Tidy.Trim(text, IsSpace);
      if trimmed == "" {
        return Failed(BadRequest);
      }
      if id !in events || events[id].isDeleted {
        return Failed(NotFound);
      }
      var e := events[id].(groupingKey := Some(trimmed));
      if events[id].groupingKey != Some(trimmed) {
        e := e.(canonicalOf := None);
      }
      events := events[id := e];
      r := Done;
    }

    method ClearEventGrouping(id: EventId) returns (r: Outcome)
      requires Valid()
      modifies this`events
      ensures Valid()
      ensures (events, r) == EventSteps.ClearEventGrouping(old(events), id)
      ensures Groups.Forest(old(events)) ==> Groups.Forest(events)
      ensures r.Done? ==> forall k :: Members(events, k) == Members(old(events), k) - {id}
      ensures !r.Done? ==> events == old(events)
    {
      hide Sound, ForeignKeys, CancelledAreInactive, Groups.Forest, Members;
      StepKeepsSound(State(), Runs.OnEvents(Runs.Ungroup(id)));
      SoundKeys(State());
      KeepsForest(State(), Runs.Ungroup(id));
      UngroupedMembers(events, id);
      if id !in events || events[id].isDeleted {
        return Failed(NotFound);
      }
      events := events[id := events[id].(groupingKey := None, canonicalOf := None)];
      r := Done;
    }

    method MakeEventCanonical(id: EventId) returns (r: Outcome)
      requires Valid()
      modifies this`events
      ensures Valid()
      ensures (events, r) == EventSteps.MakeEventCanonical(old(events), id)
      ensures Groups.Forest(old(events)) ==> Groups.Forest(events)
      ensures r.Done? ==> Groups.Leads(events, old(events)[id].groupingKey.value, id)
    {
      hide Sound, ForeignKeys, CancelledAreInactive, Groups.Forest, Groups.Leads;
      StepKeepsSound(State(), Runs.OnEvents(Runs.Crown(id)));
      SoundKeys(State());
      KeepsForest(State(), Runs.Crown(id));
      if EventSteps.MakeEventCanonical(events, id).1.Done? {
        Groups.CrownedLeads(events, id);
      }
      if id !in events || events[id].isDeleted {
        return Failed(NotFound);
      }
      var key := events[id].groupingKey;
      if key.GetOr("") == "" {
        return Failed(BadRequest);
      }
      events := map x | x in events ::
        if events[x].groupingKey == key && x != id then events[x].(canonicalOf := Some(id)) else events[x];
      events := events[id := events[id].(canonicalOf := None)];
      assert events == EventSteps.Crowned(old(events), id, key.value);
      r := Done;
    }

    method SetArchived(id: EventId, isArchived: bool) returns (r: Outcome)
      requires Valid()
      modifies this`events
      ensures Valid()
      ensures (events, r) == EventSteps.SetArchived(old(events), id, isArchived)
    {
      hide Sound, ForeignKeys, CancelledAreInactive;
      StepKeepsSound(State(), Runs.OnEvents(Runs.SetArchived(id, isArchived)));
      if id !in events {
        return Failed(NotFound);
      }
      if events[id].source == MANUAL {
        return Failed(BadRequest);
      }
      events := events[id := events[id].(isActive := if isArchived then false else true)];
      r := Done;
    }

    method UpdateActivation(id: EventId, isActive: bool) returns (r: Outcome)
      requires Valid()
      modifies this`events
      ensures Valid()
      ensures (events, r) == EventSteps.UpdateActivation(old(events), id, isActive)
    {
      hide Sound, ForeignKeys, CancelledAreInactive;
      StepKeepsSound(State(), Runs.OnEvents(Runs.Activate(id, isActive)));
      if id !in events {
        return Failed(NotFound);
      }
      events := events[id := events[id].(isActive := isActive)];
      r := Done;
    }

    method BulkUpdateEvents(ids: set<EventId>, hasCategory: bool, isActive: Option<bool>, softDelete: bool)
      returns (r: Outcome)
      requires Valid()
      modifies this`events
      ensures Valid()
      ensures (events, r) == EventSteps.BulkUpdateEvents(old(events), ids, hasCategory, isActive, softDelete)
    {
      hide Sound, ForeignKeys, CancelledAreInactive;
      StepKeepsSound(State(), Runs.OnEvents(Runs.BulkUpdate(ids, hasCategory, isActive, softDelete)));
      if ids == {} {
        return Failed(BadRequest);
      }
      var active := isActive;
      if softDelete {
        active := Some(false);
      }
      if !hasCategory && active.None? && !softDelete {
        return Failed(BadRequest);
      }
      events := map x | x in events ::
        if x in ids && !events[x].isDeleted
        then events[x].(isActive := active.GetOr(events[x].isActive), isDeleted := softDelete)
        else events[x];
      assert events == EventSteps.BulkUpdateEvents(old(events), ids, hasCategory, isActive, softDelete).0;
      r := Done;
    }

    // ----- Batch archive -----

    /**
      The read of a batch archive, given the rows its candidate query returned and the latest start of
      each row's sessions.
     */
    method PlanArchive(rows: seq<EventId>, lastSessions: map<EventId, int>, since: int, olderThanDays: int)
      returns (ids: Option<seq<EventId>>)
      requires Archive.IsLastSessions(sessions, rows, lastSessions)
      ensures ids == Archive.ArchivePlan(State(), rows, since, olderThanDays)
      ensures ids.Some? ==> |ids.value| <= Archive.MAX_ARCHIVED
      ensures ids.Some? ==> forall id ::
        id in ids.value
        <==> id in rows && id in lastSessions && lastSessions[id] < since - olderThanDays * Calendar.MS_PER_DAY
    {
      hide Archive.Filtered, Archive.EndedBefore, Archive.IsLastSessions;
      var threshold := since - olderThanDays * Calendar.MS_PER_DAY;
      var items: seq<EventId> := [];
      assert rows[0..] == rows;
      for i := 0 to |rows|
        invariant Archive.Filtered(sessions, rows, threshold) == items + Archive.Filtered(sessions, rows[i..], threshold)
        invariant forall id :: id in items <==> id in rows[..i] && id in lastSessions && lastSessions[id] < threshold
      {
        var id := rows[i];
        assert rows[..i + 1] == rows[..i] + [id];
        Archive.FilteredFrom(sessions, rows, i, threshold);
        Archive.EndedByLast(sessions, rows, lastSessions, id, threshold);
        if id in lastSessions && lastSessions[id] < threshold {
          items := items + [id];
        }
      }
      Archive.FilteredNothing(sessions, threshold);
      assert rows[|rows|..] == [];
      assert rows[..|rows|] == rows && items + [] == items;
      if |items| > Archive.MAX_ARCHIVED {
        return None;
      }
      ids := Some(items);
    }

    /** The write of a batch archive that took the time `since` when it started. */
    method WriteArchive(ids: seq<EventId>, source: Source, since: int)
      requires Valid() && since <= clock
      modifies this`events
      ensures Valid()
      ensures events == Archive.ArchiveWrite(old(State()), ids, source, since)
      ensures events.Keys == old(events).Keys
      ensures forall id | id in events && events[id] != old(events)[id] ::
                id in ids && old(events)[id].source == source && !Archive.HasFutureSession(sessions, id, clock)
    {
      hide Sound, ForeignKeys, CancelledAreInactive, Archive.HasFutureSession;
      StepKeepsSound(State(), Runs.OnEvents(Runs.ArchiveWrite(ids, source, since)));
      ghost var before := State();
      forall id | id in events
        ensures Archive.ArchiveWrite(before, ids, source, since)[id] != events[id] ==>
                  && id in ids && events[id].source == source && !Archive.HasFutureSession(sessions, id, clock)
      {
        Archive.WriteIsSafe(before, ids, source, since, id);
      }
      var st := State();
      events := map id | id in events ::
        if id in ids && Archive.IsCandidate(st, id, source, since) then events[id].(isActive := false) else events[id];
    }

    // ----- Sessions -----

    method CreateSession(id: SessionId, eventId: EventId, startsAt: SessionSteps.DateArg, endsAt: SessionSteps.DateArg,
                         capacity: Option<int>) returns (r: Outcome)
      requires Valid()
      modifies this`sessions
      ensures Valid()
      ensures (sessions, r) == SessionSteps.CreateSession(old(State()), id, eventId, startsAt, endsAt, capacity)
      ensures !r.Done? ==> sessions == old(sessions)
      ensures r.Done? ==> id in sessions && sessions - {id} == old(sessions)
      ensures r.Done? ==> sessions[id].isActive && ShownEditable(State(), id)
      ensures r.Done? ==>
                forall s | s in sessions && sessions[s].eventId == eventId && sessions[s].startsAt == sessions[id].startsAt ::
                  s == id
    {
      hide Sound, ForeignKeys, CancelledAreInactive, ShownEditable, SessionSteps.TimeTaken;
      StepKeepsSound(State(), Runs.OnSessions(Runs.Add(id, eventId, startsAt, endsAt, capacity)));
      SoundKeys(State());
      CreatedSession(State(), id, eventId, startsAt, endsAt, capacity);
      if eventId !in events {
        return Failed(NotFound);
      }
      var event := events[eventId];
      if event.source != MANUAL {
        return Failed(SessionLocked(IMPORTED));
      }
      if !startsAt.At? {
        return Failed(BadRequest);
      }
      var end: Option<int> := None;
      if endsAt.Invalid? {
        return Failed(BadRequest);
      } else if endsAt.At? {
        end := Some(endsAt.time);
      }
      if startsAt.time < clock {
        return Failed(SessionLocked(PAST));
      }
      var total := if capacity.Some? then capacity else event.defaultCapacity;
      if id in sessions || SessionSteps.TimeTaken(sessions, eventId, startsAt.time) {
        return Failed(Conflict);
      }
      sessions := sessions[id := Session(eventId, None, startsAt.time, end, total, true, None, None)];
      r := Done;
    }

    /** The slots of a batch that are dates, not past and not on a time the event already has. */
    method SelectSlots(eventId: EventId, slots: seq<SessionSteps.Slot>) returns (wanted: seq<SessionSteps.Slot>)
      ensures wanted == SessionSteps.Wanted(State(), eventId, slots)
    {
      hide SessionSteps.TimeTaken, SessionSteps.Wanted;
      wanted := [];
      assert slots[0..] == slots;
      for i := 0 to |slots|
        invariant SessionSteps.Wanted(State(), eventId, slots) == wanted + SessionSteps.Wanted(State(), eventId, slots[i..])
      {
        SessionProofs.WantedFrom(State(), eventId, slots, i);
        if !slots[i].startsAt.At? {
          continue;
        }
        if slots[i].startsAt.time < clock {
          continue;
        }
        if !SessionSteps.TimeTaken(sessions, eventId, slots[i].startsAt.time) {
          wanted := wanted + [slots[i]];
        }
      }
      assert SessionSteps.Wanted(State(), eventId, []) == [] by {
        SessionProofs.WantedNothing(State(), eventId);
      }
    }

    /** The rows of a batch, inserted in one transaction. */
    method InsertSlots(event: Event, eventId: EventId, slots: seq<SessionSteps.Slot>) returns (created: Option<Sessions>)
      requires forall s | s in slots :: s.startsAt.At?
      ensures created == SessionSteps.Insert(sessions, event, eventId, slots)
    {
      hide SessionSteps.TimeTaken;
      var rows := sessions;
      for i := 0 to |slots|
        invariant SessionSteps.Insert(sessions, event, eventId, slots) == SessionSteps.Insert(rows, event, eventId, slots[i..])
      {
        var n := slots[i];
        assert slots[i..][1..] == slots[i + 1..];
        if n.id in rows || SessionSteps.TimeTaken(rows, eventId, n.startsAt.time) {
          return None;
        }
        var total := if n.capacity.Some? then n.capacity else event.defaultCapacity;
        rows := rows[n.id := Session(eventId, None, n.startsAt.time, None, total, n.isActive.GetOr(true), None, None)];
      }
      created := Some(rows);
    }

    method BatchCreateSessions(eventId: EventId, slots: seq<SessionSteps.Slot>) returns (r: Outcome)
      requires Valid()
      modifies this`sessions
      ensures Valid()
      ensures (sessions, r) == SessionSteps.BatchCreateSessions(old(State()), eventId, slots)
    {
      hide Sound, ForeignKeys, CancelledAreInactive, SessionSteps.Wanted;
      StepKeepsSound(State(), Runs.OnSessions(Runs.AddBatch(eventId, slots)));
      if eventId !in events {
        return Failed(NotFound);
      }
      if events[eventId].source != MANUAL {
        return Failed(SessionLocked(IMPORTED));
      }
      if slots == [] || |slots| > SessionSteps.MAX_SLOTS {
        return Failed(BadRequest);
      }
      var wanted := SelectSlots(eventId, slots);
      if wanted == [] {
        return Done;
      }
      var created := InsertSlots(events[eventId], eventId, wanted);
      if created.None? {
        return Failed(Conflict);
      }
      sessions := created.value;
      r := Done;
    }

    /** `assertSessionMutable`, after finding the session with its event and its sold tickets. */
    method AssertSessionMutable(id: SessionId) returns (lock: Option<Error>)
      ensures lock == SessionSteps.FindLock(State(), id)
      ensures lock.None? <==> ShownEditable(State(), id)
    {
      LockIsShown(State(), id);
      if id !in sessions || sessions[id].eventId !in events {
        return Some(NotFound);
      }
      var session, event := sessions[id], events[sessions[id].eventId];
      if event.source != MANUAL {
        return Some(SessionLocked(IMPORTED));
      }
      if session.canceledAt.Some? {
        return Some(SessionLocked(OTHER));
      }
      if session.startsAt < clock {
        return Some(SessionLocked(PAST));
      }
      if SoldCount(State(), id) > 0 {
        return Some(SessionLocked(SOLD));
      }
      lock := None;
    }

    method UpdateSession(id: SessionId, startsAt: SessionSteps.DateArg, endsAt: SessionSteps.Change,
                         capacity: SessionSteps.Change) returns (r: Outcome)
      requires Valid()
      modifies this`sessions
      ensures Valid()
      ensures (sessions, r) == SessionSteps.UpdateSession(old(State()), id, startsAt, endsAt, capacity)
      ensures r.Done? ==> ShownEditable(old(State()), id)
      ensures if r.Done?
              then && id in old(sessions) && SessionOutcomes.OnlySession(old(sessions), sessions, id)
                   && SessionOutcomes.Updated(old(sessions)[id], sessions[id], startsAt, endsAt, capacity)
              else sessions == old(sessions)
    {
      hide Sound, ForeignKeys, CancelledAreInactive, ShownEditable, SessionSteps.TimeTakenByOther;
      hide SessionOutcomes.OnlySession, SessionOutcomes.Updated;
      SessionOutcomes.UpdateWrites(State(), id, startsAt, endsAt, capacity);
      StepKeepsSound(State(), Runs.OnSessions(Runs.Update(id, startsAt, endsAt, capacity)));
      LockIsShown(State(), id);
      var lock := AssertSessionMutable(id);
      if lock.Some? {
        return Failed(lock.value);
      }
      var data := sessions[id];
      match startsAt {
        case Absent =>
        case Invalid => return Failed(BadRequest);
        case At(time) => data := data.(startsAt := time);
      }
      match endsAt {
        case Keep =>
        case Clear => data := data.(endsAt := None);
        case Unreadable => return Failed(BadRequest);
        case SetTo(time) => data := data.(endsAt := Some(time));
      }
      match capacity {
        case Clear => data := data.(capacity := None);
        case SetTo(total) =>
          if total < SoldCount(State(), id) {
            return Failed(SessionLocked(SOLD));
          }
          data := data.(capacity := Some(total));
        case _ =>
      }
      if SessionSteps.TimeTakenByOther(sessions, id, data.eventId, data.startsAt) {
        return Failed(Conflict);
      }
      sessions := sessions[id := data];
      r := Done;
    }

    method StopSession(id: SessionId, reason: Option<string>) returns (r: Outcome)
      requires Valid()
      modifies this`sessions
      ensures Valid()
      ensures (sessions, r) == SessionSteps.StopSession(old(State()), id, reason)
      ensures r.Done? <==> ShownEditable(old(State()), id)
      ensures if r.Done? then CancelledForGood(State(), id, clock, reason) else sessions == old(sessions)
    {
      hide Sound, ForeignKeys, CancelledAreInactive, ShownEditable, CancelledForGood;
      StepKeepsSound(State(), Runs.OnSessions(Runs.Stop(id, reason)));
      StopIsFinal(State(), id, reason);
      var lock := AssertSessionMutable(id);
      if lock.Some? {
        return Failed(lock.value);
      }
      sessions := sessions[id := sessions[id].(isActive := false, canceledAt := Some(clock), cancelReason := reason)];
      r := Done;
    }

    method CancelSession(id: SessionId, reason: Option<string>) returns (r: Outcome)
      requires Valid()
      modifies this`sessions
      ensures Valid()
      ensures (sessions, r) == SessionSteps.CancelSession(old(State()), id, reason)
      ensures r.Done? <==> RowOf(old(State()), id).Some? && !RowOf(old(State()), id).value.locked
      ensures r.Done? ==> var first := old(sessions)[id];
                          if first.canceledAt.Some?
                          then sessions == old(sessions) && CancelledForGood(State(), id, first.canceledAt.value, first.cancelReason)
                          else CancelledForGood(State(), id, clock, SessionSteps.CancelReason(reason))
    {
      hide Sound, ForeignKeys, CancelledAreInactive, CancelledForGood, RowOf;
      StepKeepsSound(State(), Runs.OnSessions(Runs.Cancel(id, reason)));
      SoundKeys(State());
      CancelIsFinal(State(), id, reason);
      if id !in sessions || sessions[id].eventId !in events {
        return Failed(NotFound);
      }
      var session, event := sessions[id], events[sessions[id].eventId];
      if event.source != MANUAL {
        return Failed(SessionLocked(IMPORTED));
      }
      if session.startsAt < clock {
        return Failed(SessionLocked(PAST));
      }
      if SoldCount(State(), id) > 0 {
        return Failed(SessionLocked(SOLD));
      }
      if session.canceledAt.Some? {
        return Done;
      }
      var trimmed := Tidy.Trim(reason.GetOr(""), IsSpace);
      var stored := if trimmed == "" then None else Some(trimmed);
      if sessions[id].canceledAt.None? {
        sessions := sessions[id := session.(isActive := false, canceledAt := Some(clock), cancelReason := stored)];
      }
      r := Done;
    }

    method DeleteSession(id: SessionId) returns (r: Outcome)
      requires Valid()
      modifies this`sessions
      ensures Valid()
      ensures (sessions, r) == SessionSteps.DeleteSession(old(State()), id)
      ensures r.Done? <==> ShownEditable(old(State()), id) && id !in ticketed
      ensures sessions == if r.Done? then old(sessions) - {id} else old(sessions)
    {
      hide Sound, ForeignKeys, CancelledAreInactive, ShownEditable;
      StepKeepsSound(State(), Runs.OnSessions(Runs.Delete(id)));
      DeletedSession(State(), id);
      var lock := AssertSessionMutable(id);
      if lock.Some? {
        return Failed(lock.value);
      }
      if id in ticketed {
        return Failed(Conflict);
      }
      sessions := sessions - {id};
      r := Done;
    }

    /** The distinct trimmed ids that are not empty, in order of appearance, a hundred at most. */
    method UniqueIds(sessionIds: seq<string>) returns (ids: seq<SessionId>)
      ensures ids == SessionSteps.BulkIds(sessionIds)
    {
      ids := [];
      for i := 0 to |sessionIds|
        invariant ids == SessionSteps.DistinctIds(sessionIds[..i])
      {
        var id := Tidy.Trim(sessionIds[i], IsSpace);
        assert sessionIds[..i + 1][..i] == sessionIds[..i];
        if id != "" && id !in ids {
          ids := ids + [id];
        }
      }
      assert sessionIds[..|sessionIds|] == sessionIds;
      if |ids| > SessionSteps.MAX_BULK {
        ids := ids[..SessionSteps.MAX_BULK];
      }
    }

    method BulkSessions(sessionIds: seq<string>, pause: bool) returns (r: Outcome, results: seq<SessionSteps.BulkResult>)
      requires Valid()
      modifies this`sessions
      ensures Valid()
      ensures (sessions, r) == SessionSteps.BulkSessions(old(State()), sessionIds, pause)
      ensures r.Done? ==> var ids := SessionSteps.BulkIds(sessionIds);
                          |results| == |ids| && forall i | 0 <= i < |ids| ::
                            results[i] == SessionSteps.BulkResult(ids[i], SessionSteps.BulkErrorOf(old(State()), ids[i], pause))
      ensures r.Done? ==> BulkExact(old(State()), SessionSteps.BulkIds(sessionIds), pause, sessions)
    {
      hide Sound, BulkExact, SessionSteps.BulkErrorOf, SessionSteps.BulkOne, SessionSteps.BulkIds;
      StepKeepsSound(State(), Runs.OnSessions(Runs.Bulk(sessionIds, pause)));
      BulkIsExact(State(), sessionIds, pause);
      results := [];
      var ids := UniqueIds(sessionIds);
      if ids == [] {
        return Failed(BadRequest), [];
      }
      ghost var before := State();
      for i := 0 to |ids|
        invariant SessionSteps.BulkAll(before, ids, pause) == SessionSteps.BulkAll(State(), ids[i..], pause)
        invariant State() == before.(sessions := sessions)
        invariant forall id :: SessionSteps.BulkErrorOf(State(), id, pause) == SessionSteps.BulkErrorOf(before, id, pause)
        invariant |results| == i && forall j | 0 <= j < i ::
                    results[j] == SessionSteps.BulkResult(ids[j], SessionSteps.BulkErrorOf(before, ids[j], pause))
      {
        assert ids[i..][1..] == ids[i + 1..];
        forall x {
          SessionProofs.ErrorIgnoresActivity(State(), ids[i], x, pause);
        }
        var error := BulkOne(ids[i], pause);
        results := results + [SessionSteps.BulkResult(ids[i], error)];
      }
      r := Done;
    }

    /** One turn of the loop in `bulkSessions`. */
    method BulkOne(id: SessionId, pause: bool) returns (error: Option<SessionSteps.BulkError>)
      modifies this`sessions
      ensures error == SessionSteps.BulkErrorOf(old(State()), id, pause)
      ensures sessions == SessionSteps.BulkOne(old(State()), id, pause)
    {
      if id !in sessions || sessions[id].eventId !in events {
        return Some(SessionSteps.BulkNotFound);
      }
      var session, event := sessions[id], events[sessions[id].eventId];
      if event.source != MANUAL {
        return Some(SessionSteps.BulkImported);
      }
      if session.canceledAt.Some? {
        return Some(SessionSteps.BulkCancelled);
      }
      if session.startsAt < clock {
        return Some(SessionSteps.BulkPast);
      }
      if pause {
        var capacity := if session.capacity.Some? then session.capacity else event.defaultCapacity;
        if capacity.Some? && capacity.value > 0 && SoldCount(State(), id) >= capacity.value {
          return Some(SessionSteps.BulkSoldOut);
        }
      }
      if session.isActive == pause {
        sessions := sessions[id := session.(isActive := !pause)];
      } else {
        assert sessions[id := session.(isActive := !pause)] == sessions;
      }
      error := None;
    }

    // ----- Offers -----

    method CreateOffer(id: OfferId, eventId: EventId, source: Source, isPrimary: bool, status: OfferStatus, accepted: bool)
      returns (r: Outcome)
      requires Valid()
      modifies this`offers
      ensures Valid()
      ensures (offers, r) == OfferSteps.CreateOffer(old(State()), id, eventId, source, isPrimary, status, accepted)
      ensures r.Done? <==> eventId in events && accepted && id !in old(offers)
      ensures OtherEventsKeepOffers(old(offers), offers, eventId)
      ensures OfferSteps.OffersOf(offers, eventId) == OfferSteps.OffersOf(old(offers), eventId) + (if r.Done? then {id} else {})
      ensures PrimaryOffers(offers, eventId)
           == if eventId !in events || !isPrimary then PrimaryOffers(old(offers), eventId) else if r.Done? then {id} else {}
    {
      hide Sound, ForeignKeys, CancelledAreInactive, OfferSteps.OffersOf, PrimaryOffers, OtherEventsKeepOffers;
      StepKeepsSound(State(), Runs.OnOffers(Runs.AddOffer(id, eventId, source, isPrimary, status, accepted)));
      CreatedOffer(State(), id, eventId, source, isPrimary, status, accepted);
      if eventId !in events {
        return Failed(NotFound);
      }
      if isPrimary {
        offers := map o | o in offers ::
          if offers[o].eventId == eventId then offers[o].(isPrimary := false) else offers[o];
        assert offers == OfferSteps.Demoted(old(offers), eventId, None);
      }
      if !accepted {
        return Failed(BadRequest);
      }
      if id in offers {
        return Failed(Conflict);
      }
      offers := offers[id := Offer(eventId, source, isPrimary, status, false)];
      r := Done;
    }

    method FullUpdateOffer(eventId: EventId, id: OfferId, isPrimary: Option<bool>, status: Option<OfferStatus>,
                           source: Option<Source>, accepted: bool) returns (r: Outcome)
      requires Valid()
      modifies this`offers
      ensures Valid()
      ensures (offers, r) == OfferSteps.UpdateOffer(old(State()), eventId, id, isPrimary, status, source, accepted)
      ensures r.Done? <==> id in OfferSteps.OffersOf(old(offers), eventId) && accepted
      ensures OtherEventsKeepOffers(old(offers), offers, eventId)
      ensures OfferSteps.OffersOf(offers, eventId) == OfferSteps.OffersOf(old(offers), eventId)
      ensures PrimaryOffers(offers, eventId) == PrimaryAfter(PrimaryOffers(old(offers), eventId), id, isPrimary, r)
      ensures !r.Done? && (isPrimary != Some(true) || r == Failed(NotFound)) ==> offers == old(offers)
    {
      hide Sound, ForeignKeys, CancelledAreInactive, OfferSteps.OffersOf, PrimaryOffers, OtherEventsKeepOffers;
      StepKeepsSound(State(), Runs.OnOffers(Runs.ChangeOffer(eventId, id, isPrimary, status, source, accepted)));
      UpdatedOffer(State(), eventId, id, isPrimary, status, source, accepted);
      if id !in offers || offers[id].eventId != eventId {
        return Failed(NotFound);
      }
      if isPrimary == Some(true) {
        offers := map o | o in offers ::
          if offers[o].eventId == eventId && o != id then offers[o].(isPrimary := false) else offers[o];
        assert offers == OfferSteps.Demoted(old(offers), eventId, Some(id));
      }
      if !accepted {
        return Failed(Conflict);
      }
      var data := offers[id];
      if source.Some? {
        data := data.(source := source.value);
      }
      if isPrimary.Some? {
        data := data.(isPrimary := isPrimary.value);
      }
      if status.Some? {
        data := data.(status := status.value);
      }
      offers := offers[id := data];
      r := Done;
    }

    method UpdateOffer(eventId: EventId, id: OfferId, isPrimary: Option<bool>, status: Option<OfferStatus>)
      returns (r: Outcome)
      requires Valid()
      modifies this`offers
      ensures Valid()
      ensures (offers, r) == OfferSteps.UpdateOffer(old(State()), eventId, id, isPrimary, status, None, true)
      ensures r.Done? <==> id in OfferSteps.OffersOf(old(offers), eventId)
      ensures OtherEventsKeepOffers(old(offers), offers, eventId)
      ensures OfferSteps.OffersOf(offers, eventId) == OfferSteps.OffersOf(old(offers), eventId)
      ensures PrimaryOffers(offers, eventId) == PrimaryAfter(PrimaryOffers(old(offers), eventId), id, isPrimary, r)
      ensures !r.Done? && (isPrimary != Some(true) || r == Failed(NotFound)) ==> offers == old(offers)
      ensures r.Done? ==> offers[id].source == old(offers)[id].source
    {
      hide Sound, ForeignKeys, CancelledAreInactive, OfferSteps.OffersOf, PrimaryOffers, OtherEventsKeepOffers;
      r := FullUpdateOffer(eventId, id, isPrimary, status, None, true);
    }

    method DeleteOffer(eventId: EventId, id: OfferId) returns (r: Outcome)
      requires Valid()
      modifies this`offers, this`sessions
      ensures Valid()
      ensures (State(), r) == OfferSteps.DeleteOffer(old(State()), eventId, id)
      ensures r.Done? <==> id in OfferSteps.OffersOf(old(offers), eventId) && old(offers)[id].source == MANUAL
      ensures if r.Done? then id in old(offers) && OfferOutcomes.OfferDeleted(old(offers), offers, id) else offers == old(offers)
      ensures r.Done? ==> forall s | s in sessions && sessions[s].isActive ::
        s in old(sessions) && old(sessions)[s] == sessions[s] && sessions[s].offerId != Some(id)
      ensures forall s | s in old(sessions) && old(sessions)[s].offerId != Some(id) :: s in sessions && sessions[s] == old(sessions)[s]
      ensures forall e :: PrimaryOffers(offers, e) == PrimaryOffers(old(offers), e)
    {
      hide Sound, ForeignKeys, CancelledAreInactive, PrimaryOffers, OfferOutcomes.OfferDeleted;
      OfferOutcomes.DeleteWrites(State(), eventId, id);
      StepKeepsSound(State(), Runs.OnOffers(Runs.RemoveOffer(eventId, id)));
      DeletedOffer(State(), eventId, id);
      if id !in offers || offers[id].eventId != eventId {
        return Failed(NotFound);
      }
      if offers[id].source != MANUAL {
        return Failed(BadRequest);
      }
      sessions := map s | s in sessions ::
        if sessions[s].offerId == Some(id) then sessions[s].(isActive := false) else sessions[s];
      offers := offers[id := offers[id].(isDeleted := true, status := DISABLED)];
      r := Done;
    }

    method CloneOffer(eventId: EventId, id: OfferId, cloneId: OfferId) returns (r: Outcome)
      requires Valid()
      modifies this`offers
      ensures Valid()
      ensures (offers, r) == OfferSteps.CloneOffer(old(State()), eventId, id, cloneId)
      ensures OfferSteps.OffersOf(offers, eventId) == OfferSteps.OffersOf(old(offers), eventId) + (if r.Done? then {cloneId} else {})
      ensures forall e :: PrimaryOffers(offers, e) == PrimaryOffers(old(offers), e)
    {
      hide Sound, ForeignKeys, CancelledAreInactive, OfferSteps.OffersOf, PrimaryOffers;
      StepKeepsSound(State(), Runs.OnOffers(Runs.CloneOffer(eventId, id, cloneId)));
      ClonedOffer(State(), eventId, id, cloneId);
      if id !in offers || offers[id].eventId != eventId {
        return Failed(NotFound);
      }
      if cloneId in offers {
        return Failed(Conflict);
      }
      offers := offers[cloneId := Offer(eventId, MANUAL, false, HIDDEN, false)];
      r := Done;
    }

    method MergeOffer(source: EventId, id: OfferId, target: EventId) returns (r: Outcome)
      requires Valid()
      modifies this
      ensures Valid()
      ensures (State(), r) == OfferSteps.MergeOffer(old(State()), source, id, target)
      ensures r.Done? <==> OfferSteps.MergeStarts(old(State()), source, id, target) && !OfferSteps.Clash(old(sessions), id, target)
      ensures if OfferSteps.MergeStarts(old(State()), source, id, target)
              then && OfferSteps.OffersOf(offers, source) == OfferSteps.OffersOf(old(offers), source) - {id}
                   && OfferSteps.OffersOf(offers, target) == OfferSteps.OffersOf(old(offers), target) + {id}
              else State() == old(State())
      ensures OfferProofs.Coherent(old(State())) ==>
                (OfferProofs.Coherent(State())
                 <==> !(OfferSteps.MergeStarts(old(State()), source, id, target) && OfferSteps.Clash(old(sessions), id, target)))
    {
      hide Sound, OfferProofs.Coherent, OfferSteps.MergeStarts, OfferSteps.OffersOf, UniqueTimes;
      MergedOffer(State(), source, id, target);
      if target == "" || source == target || target !in events {
        return Failed(NotFound);
      }
      if id !in offers || offers[id].eventId != source {
        return Failed(NotFound);
      }
      offers := offers[id := offers[id].(eventId := target, isPrimary := false)];
      var moved := map s | s in sessions ::
        if sessions[s].offerId == Some(id) then sessions[s].(eventId := target) else sessions[s];
      assert moved == OfferSteps.MovedSessions(old(sessions), id, target);
      if !UniqueTimes(moved) {
        return Failed(Conflict);
      }
      sessions := moved;
      var remaining := set o | o in offers && offers[o].eventId == source;
      OffersAre(offers, source, remaining);
      if |remaining| == 0 && source in events {
        events := events[source := events[source].(canonicalOf := Some(target))];
      }
      r := Done;
    }

    // ----- The outside world -----

    method Tick(elapsed: nat)
      requires Valid()
      modifies this`clock
      ensures Valid()
      ensures clock == old(clock) + elapsed
    {
      StepKeepsSound(State(), Runs.Tick(elapsed));
      clock := clock + elapsed;
    }
  }
}
