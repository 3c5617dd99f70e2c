/** What the tables keep through every endpoint, and what a caller of an endpoint may rely on afterwards. */
module EndpointProofs {
  import opened Prelude
  import opened Catalogue
  import opened SessionSteps
  import opened Runs
  import CancelRace
  import EventProofs
  import EventSteps
  import Groups
  import Letters
  import OfferProofs
  import OfferSteps
  import SessionProofs
  import Slug
  import Tidy

  // ----- The invariant of the tables -----

  predicate CancelledAreInactive(sessions: Sessions) {
    forall id | id in sessions && sessions[id].canceledAt.Some? :: !sessions[id].isActive
  }

  /** The keys of the schema, one primary offer for each event, and no cancelled session on sale. */
  ghost predicate Sound(st: Store) {
    Consistent(st) && OfferProofs.OnePrimary(st.offers) && CancelledAreInactive(st.sessions)
  }

  lemma SoundKeys(st: Store)
    requires Sound(st)
    ensures ForeignKeys(st) && UniqueTimes(st.sessions) && CancelledAreInactive(st.sessions)
  {
  }

  lemma StepKeepsInactive(st: Store, step: Step)
    requires CancelledAreInactive(st.sessions)
    ensures CancelledAreInactive(Apply(st, step).sessions)
  {
    hide Apply;
    forall id | CancelRace.IsCancelled(Apply(st, step), id)
      ensures SessionProofs.Over(Apply(st, step).sessions, id)
    {
      if CancelRace.IsCancelled(st, id) {
        CancelRace.OneStep(st, step);
        SessionProofs.CancellationIsFinal(st, id, [step]);
      } else {
        CancelRace.CancelsIsOver(st, step, id);
      }
    }
    assert forall id | id in Apply(st, step).sessions && Apply(st, step).sessions[id].canceledAt.Some? ::
      CancelRace.IsCancelled(Apply(st, step), id);
  }

  lemma StepKeepsSound(st: Store, step: Step)
    requires Sound(st)
    ensures Sound(Apply(st, step))
  {
    hide Apply, ForeignKeys, UniqueSlugs, UniqueTimes, OfferProofs.OnePrimary, CancelledAreInactive;
    CancelRace.OneStep(st, step);
    OfferProofs.ConsistentForever(st, [step]);
    OfferProofs.OnePrimaryForever(st, [step]);
    StepKeepsInactive(st, step);
  }

  /** The tables are sound in every state of every run. */
  lemma {:induction false} SoundForever(st: Store, steps: seq<Step>)
    requires Sound(st)
    ensures Sound(Run(st, steps))
    decreases steps
  {
    hide Apply, Sound;
    if steps != [] {
      StepKeepsSound(st, steps[0]);
      SoundForever(Apply(st, steps[0]), steps[1..]);
    }
  }

  // ----- Events -----

  /** Creating an event with the title is refused, whoever tries. */
  ghost predicate TitleRefused(st: Store, title: string) {
    forall id, cityKnown, locationKnown, offer ::
      EventSteps.CreateEvent(st, id, title, cityKnown, locationKnown, offer).1 == Failed(BadRequest)
  }

  /**
    A creation that succeeds adds one event and no more; the offer that came with it is the event's
    only one and primary; and the title is taken.  One that fails changes nothing.
   */
  lemma CreatedEvent(st: Store, id: EventId, title: string, cityKnown: bool, locationKnown: bool,
                     offer: Option<(OfferId, Source)>)
    requires ForeignKeys(st)
    ensures var (after, r) := EventSteps.CreateEvent(st, id, title, cityKnown, locationKnown, offer);
            if r.Done?
            then && id in after.events && after.events - {id} == st.events && TitleRefused(after, title)
                 && OfferSteps.OffersOf(after.offers, id) == (if offer.Some? then {offer.value.0} else {})
                 && (forall o | o in OfferSteps.OffersOf(after.offers, id) :: after.offers[o].isPrimary)
            else after == st
  {
    hide Slug.AdminTransliterate;
    var (after, r) := EventSteps.CreateEvent(st, id, title, cityKnown, locationKnown, offer);
    if r.Done? {
      assert after.events[id].slug in SlugsOf(after.events);
    }
  }

  /** The live members of a group. */
  function Members(events: Events, key: string): set<EventId> {
    set x | x in events && events[x].groupingKey == Some(key) && !events[x].isDeleted
  }

  /** Regrouping moves an event into one group and out of every other one; other members stay. */
  lemma RegroupedMembers(events: Events, id: EventId, text: string)
    ensures var (after, r) := EventSteps.UpdateEventGrouping(events, id, text);
            if r.Done?
            then var key := Tidy.Trim(text, Letters.IsSpace);
                 && (forall k :: Members(after, k) == if k == key then Members(events, k) + {id} else Members(events, k) - {id})
                 && EventSteps.UpdateEventGrouping(after, id, text) == (after, Done)
            else after == events
  {
    hide Tidy.Trim;
    var (after, r) := EventSteps.UpdateEventGrouping(events, id, text);
    if r.Done? {
      assert after[id := after[id]] == after;
    }
  }

  /** Leaving takes an event out of every group. */
  lemma UngroupedMembers(events: Events, id: EventId)
    ensures var (after, r) := EventSteps.ClearEventGrouping(events, id);
            if r.Done? then forall k :: Members(after, k) == Members(events, k) - {id} else after == events
  {
  }

  /** The event steps that cannot close a cycle of duplicates. */
  lemma KeepsForest(st: Store, step: EventStep)
    requires ForeignKeys(st) && !step.Mark?
    ensures Groups.Forest(st.events) ==> Groups.Forest(AfterEvent(st, step).events)
  {
    hide Groups.Forest, AfterEvent;
    if Groups.Forest(st.events) {
      EventProofs.EventStepKeepsForest(st, step);
    }
  }

  /** A mark keeps the forest exactly when the target does not lead back to the event. */
  lemma MarkedForest(st: Store, id: EventId, target: EventId)
    requires ForeignKeys(st)
    ensures var (after, r) := EventSteps.MarkDuplicate(st.events, id, target);
            r.Done? && Groups.Forest(st.events) ==> (Groups.Forest(after) <==> !Groups.Reaches(st.events, target, id))
  {
    hide Groups.Forest, Groups.Reaches;
    if EventSteps.MarkDuplicate(st.events, id, target).1.Done? && Groups.Forest(st.events) {
      Groups.MarkingKeepsForestIff(st.events, id, target);
    }
  }

  // ----- Sessions -----

  /** The row an administrator is shown for a session. */
  function RowOf(st: Store, id: SessionId): Option<Row> {
    var found := SessionWithEvent(st, id);
    if found.None? then None else Some(BuildRow(found.value.0, found.value.1, SoldCount(st, id), st.clock))
  }

  /** The row shows neither a lock nor a cancellation. */
  predicate ShownEditable(st: Store, id: SessionId) {
    var row := RowOf(st, id);
    row.Some? && !row.value.locked && !row.value.isCancelled
  }

  /** A session may be changed exactly when its row shows neither a lock nor a cancellation. */
  lemma LockIsShown(st: Store, id: SessionId)
    ensures FindLock(st, id).None? <==> ShownEditable(st, id)
  {
    var found := SessionWithEvent(st, id);
    if found.Some? {
      SessionProofs.RowShowsLock(found.value.0, found.value.1, SoldCount(st, id), st.clock);
    }
  }

  /**
    Over every run whose other writes come with their reads the session stays there, cancelled, off
    sale, with this time and reason; LateWrites says what late writes do to it.
   */
  ghost predicate CancelledForGood(st: Store, id: SessionId, at: int, reason: Option<string>) {
    forall steps ::
      var sessions := Run(st, steps).sessions;
      id in sessions && !sessions[id].isActive && sessions[id].canceledAt == Some(at) && sessions[id].cancelReason == reason
  }

  lemma StaysCancelled(st: Store, id: SessionId)
    requires SessionProofs.Over(st.sessions, id)
    ensures CancelledForGood(st, id, st.sessions[id].canceledAt.value, st.sessions[id].cancelReason)
  {
    forall steps
      ensures var sessions := Run(st, steps).sessions;
              && id in sessions && !sessions[id].isActive
              && sessions[id].canceledAt == st.sessions[id].canceledAt && sessions[id].cancelReason == st.sessions[id].cancelReason
    {
      SessionProofs.CancellationIsFinal(st, id, steps);
      hide Run;
    }
  }

  /** A stop succeeds exactly when the row is shown as editable, and is final. */
  lemma StopIsFinal(st: Store, id: SessionId, reason: Option<string>)
    ensures var (after, r) := StopSession(st, id, reason);
            && (r.Done? <==> ShownEditable(st, id))
            && if r.Done? then CancelledForGood(st.(sessions := after), id, st.clock, reason) else after == st.sessions
  {
    hide Run, ShownEditable, CancelledForGood;
    LockIsShown(st, id);
    var (after, r) := StopSession(st, id, reason);
    if r.Done? {
      StaysCancelled(st.(sessions := after), id);
    }
  }

  /**
    A cancellation succeeds exactly when the row shows no lock.  It is final, with the time and reason
    of the request, or those of the cancellation that came before it.
   */
  lemma CancelIsFinal(st: Store, id: SessionId, reason: Option<string>)
    requires CancelledAreInactive(st.sessions)
    ensures var (after, r) := CancelSession(st, id, reason);
            && (r.Done? <==> RowOf(st, id).Some? && !RowOf(st, id).value.locked)
            && (!r.Done? || st.sessions[id].canceledAt.Some? ==> after == st.sessions)
            && (r.Done? ==>
                  var first := st.sessions[id];
                  if first.canceledAt.Some?
                  then CancelledForGood(st.(sessions := after), id, first.canceledAt.value, first.cancelReason)
                  else CancelledForGood(st.(sessions := after), id, st.clock, CancelReason(reason)))
  {
    hide Run, CancelledForGood, CancelReason;
    var (after, r) := CancelSession(st, id, reason);
    if r.Done? {
      StaysCancelled(st.(sessions := after), id);
    }
  }

  /** Exactly the sessions with one of the ids and without an error are paused or resumed. */
  predicate BulkExact(before: Store, ids: seq<SessionId>, pause: bool, after: Sessions) {
    && after.Keys == before.sessions.Keys
    && forall id | id in after ::
         after[id] == if id in ids && BulkErrorOf(before, id, pause).None? then before.sessions[id].(isActive := !pause)
                      else before.sessions[id]
  }

  lemma BulkIsExact(st: Store, sessionIds: seq<string>, pause: bool)
    ensures var (after, r) := BulkSessions(st, sessionIds, pause);
            r.Done? ==> BulkExact(st, BulkIds(sessionIds), pause, after)
  {
    hide BulkIds, BulkErrorOf, BulkAll;
    var ids := BulkIds(sessionIds);
    SessionProofs.BulkOnlyActivity(st, ids, pause);
    forall id | id in st.sessions
      ensures BulkAll(st, ids, pause)[id]
           == if id in ids && BulkErrorOf(st, id, pause).None? then st.sessions[id].(isActive := !pause) else st.sessions[id]
    {
      SessionProofs.BulkChangesExactly(st, ids, pause, id);
    }
  }

  /** A deletion succeeds exactly when the row is shown as editable and no package item refers to it. */
  lemma DeletedSession(st: Store, id: SessionId)
    ensures var (after, r) := DeleteSession(st, id);
            && (r.Done? <==> ShownEditable(st, id) && id !in st.ticketed)
            && after == if r.Done? then st.sessions - {id} else st.sessions
  {
    hide ShownEditable;
    LockIsShown(st, id);
  }

  /** A new session is on sale and editable, and no session of its event starts with it. */
  lemma CreatedSession(st: Store, id: SessionId, eventId: EventId, startsAt: DateArg, endsAt: DateArg, capacity: Option<int>)
    requires ForeignKeys(st)
    ensures var (after, r) := CreateSession(st, id, eventId, startsAt, endsAt, capacity);
            if r.Done?
            then && id in after && after - {id} == st.sessions
                 && after[id].isActive && ShownEditable(st.(sessions := after), id)
                 && forall s | s in after && after[s].eventId == eventId && after[s].startsAt == after[id].startsAt :: s == id
            else after == st.sessions
  {
    var (after, r) := CreateSession(st, id, eventId, startsAt, endsAt, capacity);
    if r.Done? {
      assert SoldCount(st, id) == 0;
      LockIsShown(st.(sessions := after), id);
      hide ShownEditable;
    }
  }

  // ----- Offers -----

  /** The primary offers of an event. */
  function PrimaryOffers(offers: Offers, eventId: EventId): set<OfferId> {
    set o | o in offers && offers[o].eventId == eventId && offers[o].isPrimary
  }

  predicate OtherEventsKeepOffers(offers: Offers, after: Offers, eventId: EventId) {
    && (forall o | o in offers && offers[o].eventId != eventId :: o in after && after[o] == offers[o])
    && forall o | o in after && after[o].eventId != eventId :: o in offers
  }

  /**
    A new offer that is to be primary is the event's only primary one; any other leaves the primary
    offer alone.  A creation that is refused by validation has already demoted it.
   */
  lemma CreatedOffer(st: Store, id: OfferId, eventId: EventId, source: Source, isPrimary: bool, status: OfferStatus,
                     accepted: bool)
    ensures var (after, r) := OfferSteps.CreateOffer(st, id, eventId, source, isPrimary, status, accepted);
            && (r.Done? <==> eventId in st.events && accepted && id !in st.offers)
            && OtherEventsKeepOffers(st.offers, after, eventId)
            && OfferSteps.OffersOf(after, eventId) == OfferSteps.OffersOf(st.offers, eventId) + (if r.Done? then {id} else {})
            && PrimaryOffers(after, eventId)
            == if eventId !in st.events || !isPrimary then PrimaryOffers(st.offers, eventId)
               else if r.Done? then {id} else {}
  {
  }

  /** The primary offers of an event after an update of one of its offers. */
  function PrimaryAfter(before: set<OfferId>, id: OfferId, isPrimary: Option<bool>, r: Outcome): set<OfferId> {
    if isPrimary.None? || r == Failed(NotFound) then before
    else if isPrimary.value then (if r.Done? then {id} else before * {id})
    else if r.Done? then before - {id} else before
  }

  /**
    An update makes its offer the only primary one, or not primary, or leaves the primary offer alone.
    One that was to make it primary and that a key refuses has demoted the others already.
   */
  lemma UpdatedOffer(st: Store, eventId: EventId, id: OfferId, isPrimary: Option<bool>, status: Option<OfferStatus>,
                     source: Option<Source>, accepted: bool)
    ensures var (after, r) := OfferSteps.UpdateOffer(st, eventId, id, isPrimary, status, source, accepted);
            && (r.Done? <==> id in OfferSteps.OffersOf(st.offers, eventId) && accepted)
            && OtherEventsKeepOffers(st.offers, after, eventId)
            && OfferSteps.OffersOf(after, eventId) == OfferSteps.OffersOf(st.offers, eventId)
            && PrimaryOffers(after, eventId) == PrimaryAfter(PrimaryOffers(st.offers, eventId), id, isPrimary, r)
            && (!r.Done? && (isPrimary != Some(true) || r == Failed(NotFound)) ==> after == st.offers)
  {
  }

  /**
    A deleted offer takes all its sessions off sale and no others; only manual offers are deleted.
    It stays the primary offer of its event if it was.
   */
  lemma DeletedOffer(st: Store, eventId: EventId, id: OfferId)
    ensures var (after, r) := OfferSteps.DeleteOffer(st, eventId, id);
            && (r.Done? <==> id in OfferSteps.OffersOf(st.offers, eventId) && st.offers[id].source == MANUAL)
            && (forall e :: PrimaryOffers(after.offers, e) == PrimaryOffers(st.offers, e))
            && if r.Done?
               then && (forall s | s in after.sessions && after.sessions[s].isActive ::
                          s in st.sessions && st.sessions[s] == after.sessions[s] && st.sessions[s].offerId != Some(id))
                    && (forall s | s in st.sessions && st.sessions[s].offerId != Some(id) ::
                          s in after.sessions && after.sessions[s] == st.sessions[s])
               else after == st
  {
  }

  /** A clone is never primary, and no event's primary offer changes. */
  lemma ClonedOffer(st: Store, eventId: EventId, id: OfferId, cloneId: OfferId)
    ensures var (after, r) := OfferSteps.CloneOffer(st, eventId, id, cloneId);
            && (r.Done? <==> id in OfferSteps.OffersOf(st.offers, eventId) && cloneId !in st.offers)
            && (forall e :: PrimaryOffers(after, e) == PrimaryOffers(st.offers, e))
            && OfferSteps.OffersOf(after, eventId)
            == OfferSteps.OffersOf(st.offers, eventId) + (if r.Done? then {cloneId} else {})
  {
  }

  lemma OffersAre(offers: Offers, eventId: EventId, found: set<OfferId>)
    requires forall o :: o in found <==> o in offers && offers[o].eventId == eventId
    ensures found == OfferSteps.OffersOf(offers, eventId)
  {
  }

  lemma MovedOffers(st: Store, source: EventId, id: OfferId, target: EventId)
    ensures var (after, r) := OfferSteps.MergeOffer(st, source, id, target);
            var starts := OfferSteps.MergeStarts(st, source, id, target);
            && (r.Done? <==> starts && !OfferSteps.Clash(st.sessions, id, target))
            && (if starts
                then && OfferSteps.OffersOf(after.offers, source) == OfferSteps.OffersOf(st.offers, source) - {id}
                     && OfferSteps.OffersOf(after.offers, target) == OfferSteps.OffersOf(st.offers, target) + {id}
                else after == st)
  {
    hide OfferSteps.Clash;
  }

  lemma MergeKeepsSound(st: Store, source: EventId, id: OfferId, target: EventId)
    requires Sound(st)
    ensures Sound(OfferSteps.MergeOffer(st, source, id, target).0)
  {
    hide AfterOffer, Sound;
    StepKeepsSound(st, OnOffers(Merge(source, id, target)));
    EventProofs.AfterMerge(st, source, id, target);
  }

  /**
    The offer moves from its event to the target once the checks pass, whether the merge completes or
    not; sessions stay under the event of their offer exactly when it is not stopped half way.
   */
  lemma MergedOffer(st: Store, source: EventId, id: OfferId, target: EventId)
    requires Sound(st)
    ensures var (after, r) := OfferSteps.MergeOffer(st, source, id, target);
            var starts, clash := OfferSteps.MergeStarts(st, source, id, target), OfferSteps.Clash(st.sessions, id, target);
            && Sound(after)
            && (r.Done? <==> starts && !clash)
            && (if starts
                then && OfferSteps.OffersOf(after.offers, source) == OfferSteps.OffersOf(st.offers, source) - {id}
                     && OfferSteps.OffersOf(after.offers, target) == OfferSteps.OffersOf(st.offers, target) + {id}
                else after == st)
            && (OfferProofs.Coherent(st) ==> (OfferProofs.Coherent(after) <==> !(starts && clash)))
  {
    SoundKeys(st);
    hide OfferSteps.MergeOffer, OfferSteps.OffersOf, OfferSteps.MergeStarts, OfferSteps.Clash, Sound, OfferProofs.Coherent;
    hide ForeignKeys, UniqueTimes, CancelledAreInactive;
    if OfferProofs.Coherent(st) {
      OfferProofs.MergeCoherentIff(st, source, id, target);
    }
    MovedOffers(st, source, id, target);
    MergeKeepsSound(st, source, id, target);
  }
}
