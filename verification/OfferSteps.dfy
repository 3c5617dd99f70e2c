/**
  The endpoints that edit offers (packages/backend/src/admin/admin-events.controller.ts).  None of
  them runs in a transaction: a statement that fails leaves the statements before it in place.
 */
module OfferSteps {
  import opened Prelude
  import opened Catalogue

  /** No offer of the event is primary, `kept` aside. */
  function Demoted(offers: Offers, eventId: EventId, kept: Option<OfferId>): Offers {
    map id | id in offers ::
      if offers[id].eventId == eventId && kept != Some(id) then offers[id].(isPrimary := false) else offers[id]
  }

  /** `accepted`: the widget payload is valid and the new row meets the keys that are not modelled. */
  function CreateOffer(st: Store, id: OfferId, eventId: EventId, source: Source, isPrimary: bool, status: OfferStatus,
                       accepted: bool): (Offers, Outcome) {
    if eventId !in st.events then (st.offers, Failed(NotFound))
    else
      var offers := if isPrimary then Demoted(st.offers, eventId, None) else st.offers;
      if !accepted then (offers, Failed(BadRequest))
      else if id in offers then (offers, Failed(Conflict))
      else (offers[id := Offer(eventId, source, isPrimary, status, false)], Done)
  }

  /**
    `fullUpdateOffer`; `updateOffer` is the case without a source, which is always accepted.
    `accepted`: the changed row meets the keys that are not modelled, on the source and external id.
   */
  function UpdateOffer(st: Store, eventId: EventId, id: OfferId, isPrimary: Option<bool>, status: Option<OfferStatus>,
                       source: Option<Source>, accepted: bool): (Offers, Outcome) {
    if id !in st.offers || st.offers[id].eventId != eventId then (st.offers, Failed(NotFound))
    else
      var offers := if isPrimary == Some(true) then Demoted(st.offers, eventId, Some(id)) else st.offers;
      var o := st.offers[id];
      if !accepted then (offers, Failed(Conflict))
      else (offers[id := o.(isPrimary := isPrimary.GetOr(o.isPrimary), status := status.GetOr(o.status),
                            source := source.GetOr(o.source))], Done)
  }

  function DeleteOffer(st: Store, eventId: EventId, id: OfferId): (Store, Outcome) {
    if id !in st.offers || st.offers[id].eventId != eventId then (st, Failed(NotFound))
    else if st.offers[id].source != MANUAL then (st, Failed(BadRequest))
    else
      var sessions := map s | s in st.sessions ::
        if st.sessions[s].offerId == Some(id) then st.sessions[s].(isActive := false) else st.sessions[s];
      (st.(sessions := sessions, offers := st.offers[id := st.offers[id].(isDeleted := true, status := DISABLED)]), Done)
  }

  function CloneOffer(st: Store, eventId: EventId, id: OfferId, cloneId: OfferId): (Offers, Outcome) {
    if id !in st.offers || st.offers[id].eventId != eventId then (st.offers, Failed(NotFound))
    else if cloneId in st.offers then (st.offers, Failed(Conflict))
    else (st.offers[cloneId := Offer(eventId, MANUAL, false, HIDDEN, false)], Done)
  }

  function OffersOf(offers: Offers, eventId: EventId): set<OfferId> {
    set id | id in offers && offers[id].eventId == eventId
  }

  /** The sessions of the offer, moved to the target event. */
  function MovedSessions(sessions: Sessions, id: OfferId, target: EventId): Sessions {
    map s | s in sessions ::
      if sessions[s].offerId == Some(id) then sessions[s].(eventId := target) else sessions[s]
  }

  /** Moving the sessions would give the target two sessions at one time. */
  predicate Clash(sessions: Sessions, id: OfferId, target: EventId) {
    !UniqueTimes(MovedSessions(sessions, id, target))
  }

  /** The merge passes its checks; only a clash of session times can still stop it. */
  predicate MergeStarts(st: Store, source: EventId, id: OfferId, target: EventId) {
    && target != "" && source != target && target in st.events
    && id in st.offers && st.offers[id].eventId == source
  }

  /** The event has offers besides `id`. */
  predicate HasOtherOffers(offers: Offers, eventId: EventId, id: OfferId) {
    exists o | o in offers :: o != id && offers[o].eventId == eventId
  }

  function MergeOffer(st: Store, source: EventId, id: OfferId, target: EventId): (Store, Outcome) {
    if target == "" || source == target || target !in st.events then (st, Failed(NotFound))
    else if id !in st.offers || st.offers[id].eventId != source then (st, Failed(NotFound))
    else
      var offers := st.offers[id := st.offers[id].(eventId := target, isPrimary := false)];
      if Clash(st.sessions, id, target) then (st.(offers := offers), Failed(Conflict))
      else
        var events :=
          if OffersOf(offers, source) == {} && source in st.events
          then st.events[source := st.events[source].(canonicalOf := Some(target))]
          else st.events;
        (st.(offers := offers, sessions := MovedSessions(st.sessions, id, target), events := events), Done)
  }

  /** Once the offer has moved, its event has none left exactly when it had no other. */
  lemma MovedAway(offers: Offers, id: OfferId, source: EventId, target: EventId)
    requires id in offers && source != target
    ensures OffersOf(offers[id := offers[id].(eventId := target, isPrimary := false)], source) == {}
       <==> !HasOtherOffers(offers, source, id)
  {
    var moved := offers[id := offers[id].(eventId := target, isPrimary := false)];
    if HasOtherOffers(offers, source, id) {
      var o :| o in offers && o != id && offers[o].eventId == source;
      assert o in OffersOf(moved, source);
    }
  }
}
