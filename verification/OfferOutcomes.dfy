/**
  What each endpoint of offers answers and writes
  (packages/backend/src/admin/admin-events.controller.ts): the answer to each request, and the rows
  it leaves field by field.
 */
module OfferOutcomes {
  import opened Prelude
  import opened Catalogue
  import opened OfferSteps

  predicate OfEvent(offers: Offers, eventId: EventId, id: OfferId) {
    id in offers && offers[id].eventId == eventId
  }

  /** The two rows are the same but for the primary flag. */
  predicate SameButPrimary(o: Offer, p: Offer) {
    p.eventId == o.eventId && p.source == o.source && p.status == o.status && p.isDeleted == o.isDeleted
  }

  /** The rows of the table that are not `id`: those of the event are demoted if asked, the others untouched. */
  predicate OthersDemoted(offers: Offers, after: Offers, eventId: EventId, id: OfferId, demoted: bool) {
    forall o | o in offers && o != id ::
      && o in after && SameButPrimary(offers[o], after[o])
      && after[o].isPrimary == (offers[o].isPrimary && !(demoted && offers[o].eventId == eventId))
  }

  lemma CreateWrites(st: Store, id: OfferId, eventId: EventId, source: Source, isPrimary: bool, status: OfferStatus,
                     accepted: bool)
    ensures var (after, r) := CreateOffer(st, id, eventId, source, isPrimary, status, accepted);
            && (r == Failed(NotFound) <==> eventId !in st.events)
            && (r == Failed(BadRequest) <==> eventId in st.events && !accepted)
            && (r == Failed(Conflict) <==> eventId in st.events && accepted && id in st.offers)
            && (eventId !in st.events ==> after == st.offers)
            && OthersDemoted(st.offers, after, eventId, id, eventId in st.events && isPrimary)
            && after.Keys == st.offers.Keys + (if r.Done? then {id} else {})
            && (r.Done? ==>
                  var o := after[id];
                  o.eventId == eventId && o.source == source && o.isPrimary == isPrimary && o.status == status && !o.isDeleted)
  {
  }

  /** An update writes the flag, the status and the source of the request where it gives them, and nothing else. */
  lemma UpdateWrites(st: Store, eventId: EventId, id: OfferId, isPrimary: Option<bool>, status: Option<OfferStatus>,
                     source: Option<Source>, accepted: bool)
    ensures var (after, r) := UpdateOffer(st, eventId, id, isPrimary, status, source, accepted);
            var found := OfEvent(st.offers, eventId, id);
            && (r == Failed(NotFound) <==> !found)
            && (r == Failed(Conflict) <==> found && !accepted)
            && (r.Done? <==> found && accepted)
            && after.Keys == st.offers.Keys
            && OthersDemoted(st.offers, after, eventId, id, found && isPrimary == Some(true))
            && (id in st.offers && !r.Done? ==> after[id] == st.offers[id])
            && (r.Done? ==>
                  var (o, p) := (st.offers[id], after[id]);
                  && p.isPrimary == (if isPrimary.Some? then isPrimary.value else o.isPrimary)
                  && p.status == (if status.Some? then status.value else o.status)
                  && p.source == (if source.Some? then source.value else o.source)
                  && p.eventId == o.eventId && p.isDeleted == o.isDeleted)
  {
  }

  /** A deletion is soft: the offer stays with its event, source and flag, deleted and disabled; its sessions go off sale. */
  lemma DeleteWrites(st: Store, eventId: EventId, id: OfferId)
    ensures var (after, r) := DeleteOffer(st, eventId, id);
            var found := OfEvent(st.offers, eventId, id);
            && (r == Failed(NotFound) <==> !found)
            && (r == Failed(BadRequest) <==> found && st.offers[id].source != MANUAL)
            && if found && st.offers[id].source == MANUAL
               then && r.Done? && OfferDeleted(st.offers, after.offers, id)
                    && after.events == st.events && after.sold == st.sold && after.ticketed == st.ticketed && after.clock == st.clock
                    && after.sessions.Keys == st.sessions.Keys
                    && (forall s | s in st.sessions :: OffSaleOnly(st.sessions[s], after.sessions[s], st.sessions[s].offerId == Some(id)))
               else after == st
  {
  }

  /** The session is as it was, but off sale if asked. */
  predicate OffSaleOnly(s: Session, t: Session, off: bool) {
    && t.isActive == (s.isActive && !off)
    && t.eventId == s.eventId && t.offerId == s.offerId && t.startsAt == s.startsAt && t.endsAt == s.endsAt
    && t.capacity == s.capacity && t.canceledAt == s.canceledAt && t.cancelReason == s.cancelReason
  }

  predicate OfferDeleted(offers: Offers, after: Offers, id: OfferId)
    requires id in offers
  {
    && after.Keys == offers.Keys && (forall o | o in offers && o != id :: after[o] == offers[o])
    && after[id].isDeleted && after[id].status == DISABLED
    && after[id].eventId == offers[id].eventId && after[id].source == offers[id].source
    && after[id].isPrimary == offers[id].isPrimary
  }

  /** A clone is a manual, hidden offer of the same event, not primary and not deleted. */
  lemma CloneWrites(st: Store, eventId: EventId, id: OfferId, cloneId: OfferId)
    ensures var (after, r) := CloneOffer(st, eventId, id, cloneId);
            var found := OfEvent(st.offers, eventId, id);
            && (r == Failed(NotFound) <==> !found)
            && (r == Failed(Conflict) <==> found && cloneId in st.offers)
            && if found && cloneId !in st.offers
               then && r.Done? && after.Keys == st.offers.Keys + {cloneId}
                    && (forall o | o in st.offers :: after[o] == st.offers[o])
                    && var c := after[cloneId];
                       c.eventId == eventId && c.source == MANUAL && !c.isPrimary && c.status == HIDDEN && !c.isDeleted
               else after == st.offers
  {
  }

  /** The answers of a merge; one that its checks refuse changes nothing, one that a key stops has moved the offer only. */
  lemma MergeAnswers(st: Store, source: EventId, id: OfferId, target: EventId)
    ensures var (after, r) := MergeOffer(st, source, id, target);
            var starts := target != "" && source != target && target in st.events && OfEvent(st.offers, source, id);
            && (r == Failed(NotFound) <==> !starts)
            && (r == Failed(Conflict) <==> starts && Clash(st.sessions, id, target))
            && (!starts ==> after == st)
            && (r == Failed(Conflict) ==>
                  && after.events == st.events && after.sessions == st.sessions
                  && after.offers.Keys == st.offers.Keys && (forall o | o in st.offers && o != id :: after.offers[o] == st.offers[o])
                  && after.offers[id].eventId == target && !after.offers[id].isPrimary
                  && SameButPrimary(st.offers[id].(eventId := target), after.offers[id]))
            && after.sold == st.sold && after.ticketed == st.ticketed && after.clock == st.clock
  {
    hide Clash;
  }
}
