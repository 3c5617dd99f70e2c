/** What every run keeps of offers: one primary offer per event, sessions under their offer's event. */
module OfferProofs {
  import opened Prelude
  import opened Catalogue
  import opened OfferSteps
  import opened Runs
  import SessionSteps
  import SessionProofs
  import EventProofs

  /** An event has at most one primary offer. */
  predicate OnePrimary(offers: Offers) {
    forall a, b | a in offers && b in offers && offers[a].isPrimary && offers[b].isPrimary
                  && offers[a].eventId == offers[b].eventId :: a == b
  }

  /** A session belongs to the event of its offer. */
  predicate Coherent(st: Store) {
    forall s | s in st.sessions && st.sessions[s].offerId.Some? && st.sessions[s].offerId.value in st.offers ::
      st.sessions[s].eventId == st.offers[st.sessions[s].offerId.value].eventId
  }

  // ----- One primary offer -----

  lemma CreateKeepsOnePrimary(st: Store, id: OfferId, eventId: EventId, source: Source, isPrimary: bool,
                              status: OfferStatus, accepted: bool)
    requires OnePrimary(st.offers)
    ensures OnePrimary(CreateOffer(st, id, eventId, source, isPrimary, status, accepted).0)
  {
  }

  lemma UpdateKeepsOnePrimary(st: Store, eventId: EventId, id: OfferId, isPrimary: Option<bool>,
                              status: Option<OfferStatus>, source: Option<Source>, accepted: bool)
    requires OnePrimary(st.offers)
    ensures OnePrimary(UpdateOffer(st, eventId, id, isPrimary, status, source, accepted).0)
  {
  }

  lemma MergeKeepsOnePrimary(st: Store, source: EventId, id: OfferId, target: EventId)
    requires OnePrimary(st.offers)
    ensures OnePrimary(MergeOffer(st, source, id, target).0.offers)
  {
    hide Clash, OffersOf;
  }

  lemma OfferStepKeepsOnePrimary(st: Store, step: OfferStep)
    requires OnePrimary(st.offers)
    ensures OnePrimary(AfterOffer(st, step).offers)
  {
    match step
    case AddOffer(id, eventId, source, isPrimary, status, accepted) =>
      CreateKeepsOnePrimary(st, id, eventId, source, isPrimary, status, accepted);
      hide CreateOffer, OnePrimary;
    case ChangeOffer(eventId, id, isPrimary, status, source, accepted) =>
      UpdateKeepsOnePrimary(st, eventId, id, isPrimary, status, source, accepted);
      hide UpdateOffer, OnePrimary;
    case Merge(source, id, target) =>
      MergeKeepsOnePrimary(st, source, id, target);
      hide MergeOffer, OnePrimary;
    case _ =>
  }

  lemma EventStepKeepsOnePrimary(st: Store, step: EventStep)
    requires OnePrimary(st.offers) && ForeignKeys(st)
    ensures OnePrimary(AfterEvent(st, step).offers)
  {
    match step
    case Create(_, _, _, _, _) =>
    case _ => hide EventsAfter, OnePrimary;
  }

  /** In every state of every run an event has at most one primary offer. */
  lemma {:induction false} OnePrimaryForever(st: Store, steps: seq<Step>)
    requires OnePrimary(st.offers) && ForeignKeys(st) && UniqueTimes(st.sessions)
    ensures OnePrimary(Run(st, steps).offers)
    decreases steps
  {
    hide AfterEvent, AfterOffer, OnePrimary, ForeignKeys, UniqueTimes;
    if steps != [] {
      match steps[0] {
        case OnEvents(e) => EventStepKeepsOnePrimary(st, e);
        case OnOffers(o) => OfferStepKeepsOnePrimary(st, o);
        case _ =>
      }
      SessionProofs.StepKeepsKeys(st, steps[0]);
      OnePrimaryForever(Apply(st, steps[0]), steps[1..]);
    }
  }

  /**
    A rejected `createOffer` still demotes the primary offer of the event: it leaves the offers as
    they were exactly when the new offer was not to be primary or there was no primary offer.
   */
  lemma RejectedCreateDemotes(st: Store, id: OfferId, eventId: EventId, source: Source, isPrimary: bool, status: OfferStatus)
    requires eventId in st.events
    ensures var r := CreateOffer(st, id, eventId, source, isPrimary, status, false);
            && r.1 == Failed(BadRequest)
            && (r.0 == st.offers <==>
                  !isPrimary || forall o | o in st.offers && st.offers[o].eventId == eventId :: !st.offers[o].isPrimary)
            && (isPrimary ==> forall o | o in r.0 && r.0[o].eventId == eventId :: !r.0[o].isPrimary)
  {
    var after := CreateOffer(st, id, eventId, source, isPrimary, status, false).0;
    if isPrimary && forall o | o in st.offers && st.offers[o].eventId == eventId :: !st.offers[o].isPrimary {
      assert forall o | o in st.offers :: after[o] == st.offers[o];
      assert after == st.offers;
    }
    if isPrimary && exists o :: o in st.offers && st.offers[o].eventId == eventId && st.offers[o].isPrimary {
      var o :| o in st.offers && st.offers[o].eventId == eventId && st.offers[o].isPrimary;
      assert after[o] != st.offers[o];
    }
  }

  /**
    An update that a key refuses has demoted the other offers too: it leaves the offers as they were
    exactly when it was not to make its offer primary or no other offer was.  Otherwise the event is
    left without a primary offer.
   */
  lemma RejectedUpdateDemotes(st: Store, eventId: EventId, id: OfferId, isPrimary: Option<bool>,
                              status: Option<OfferStatus>, source: Option<Source>)
    requires OnePrimary(st.offers) && id in st.offers && st.offers[id].eventId == eventId
    ensures var r := UpdateOffer(st, eventId, id, isPrimary, status, source, false);
            var otherPrimary := exists o :: o in st.offers && o != id && st.offers[o].eventId == eventId && st.offers[o].isPrimary;
            && r.1 == Failed(Conflict)
            && (r.0 == st.offers <==> isPrimary != Some(true) || !otherPrimary)
            && (isPrimary == Some(true) && otherPrimary ==>
                  forall o | o in r.0 && r.0[o].eventId == eventId :: !r.0[o].isPrimary)
  {
    var after := UpdateOffer(st, eventId, id, isPrimary, status, source, false).0;
    if isPrimary == Some(true) {
      if o :| o in st.offers && o != id && st.offers[o].eventId == eventId && st.offers[o].isPrimary {
        assert after[o] != st.offers[o];
      } else {
        assert forall o | o in st.offers :: after[o] == st.offers[o];
        assert after == st.offers;
      }
    }
  }

  // ----- Merging -----

  /** A session of the offer starts when another session of the target does. */
  lemma ClashIff(st: Store, id: OfferId, target: EventId)
    requires UniqueTimes(st.sessions) && Coherent(st) && id in st.offers && st.offers[id].eventId != target
    ensures Clash(st.sessions, id, target)
       <==> exists s, t :: && s in st.sessions && st.sessions[s].offerId == Some(id)
                           && t in st.sessions && st.sessions[t].eventId == target
                           && st.sessions[s].startsAt == st.sessions[t].startsAt
  {
    var moved := MovedSessions(st.sessions, id, target);
    if Clash(st.sessions, id, target) {
      var a, b :| a in moved && b in moved && a != b && moved[a].eventId == moved[b].eventId
                  && moved[a].startsAt == moved[b].startsAt;
      assert st.sessions[a].startsAt == st.sessions[b].startsAt;
    }
    if s, t :| && s in st.sessions && st.sessions[s].offerId == Some(id)
               && t in st.sessions && st.sessions[t].eventId == target
               && st.sessions[s].startsAt == st.sessions[t].startsAt {
      assert moved[s].eventId == moved[t].eventId && s != t;
    }
  }

  /**
    A merge that succeeds keeps all offers and sessions, moves the offer and exactly its sessions,
    and marks the source as a duplicate of the target exactly when the source has no offer left.
   */
  lemma MergeMovesExactly(st: Store, source: EventId, id: OfferId, target: EventId)
    requires ForeignKeys(st) && MergeStarts(st, source, id, target) && !Clash(st.sessions, id, target)
    ensures MergeOffer(st, source, id, target).1.Done?
    ensures var after := MergeOffer(st, source, id, target).0;
            && after.offers.Keys == st.offers.Keys && after.sessions.Keys == st.sessions.Keys
            && (forall o | o in st.offers ::
                  after.offers[o] == if o == id then st.offers[o].(eventId := target, isPrimary := false) else st.offers[o])
            && (forall s | s in st.sessions ::
                  after.sessions[s] == if st.sessions[s].offerId == Some(id) then st.sessions[s].(eventId := target)
                                       else st.sessions[s])
            && (forall e | e in st.events ::
                  after.events[e] == if e == source && !HasOtherOffers(st.offers, source, id)
                                     then st.events[e].(canonicalOf := Some(target)) else st.events[e])
  {
    hide Clash;
    var after := MergeOffer(st, source, id, target).0;
    MovedAway(st.offers, id, source, target);
  }

  /** The merge stops half way: it has passed its checks and moves the sessions onto taken times. */
  predicate MergeClashes(st: Store, step: Step) {
    match step
    case OnOffers(Merge(source, id, target)) =>
      MergeStarts(st, source, id, target) && Clash(st.sessions, id, target)
    case _ => false
  }

  lemma MergeCoherentIff(st: Store, source: EventId, id: OfferId, target: EventId)
    requires Coherent(st) && UniqueTimes(st.sessions)
    ensures Coherent(MergeOffer(st, source, id, target).0)
       <==> !(MergeStarts(st, source, id, target) && Clash(st.sessions, id, target))
  {
    if MergeStarts(st, source, id, target) {
      ClashIff(st, id, target);
      hide Clash, UniqueTimes;
      var after := MergeOffer(st, source, id, target).0;
      if Clash(st.sessions, id, target) {
        var s :| s in st.sessions && st.sessions[s].offerId == Some(id);
        assert after.sessions[s].eventId == source && after.offers[id].eventId == target;
      }
    } else {
      hide Clash, UniqueTimes;
    }
  }

  lemma OtherOffersStayPut(st: Store, step: OfferStep)
    requires !step.Merge?
    ensures forall o | o in st.offers :: o in AfterOffer(st, step).offers
                                      && AfterOffer(st, step).offers[o].eventId == st.offers[o].eventId
  {
  }

  lemma OfferStepCoherentIff(st: Store, step: OfferStep)
    requires Coherent(st) && ForeignKeys(st) && UniqueTimes(st.sessions)
    ensures Coherent(AfterOffer(st, step)) <==> !MergeClashes(st, OnOffers(step))
  {
    match step
    case Merge(source, id, target) =>
      MergeCoherentIff(st, source, id, target);
      hide MergeOffer, Coherent, Clash, ForeignKeys, UniqueTimes;
    case _ =>
      OfferStepFrame(st, step);
      OtherOffersStayPut(st, step);
      hide AfterOffer, UniqueTimes;
  }

  /** New rows have no offer, and rows keep the event and the offer they had. */
  lemma SessionRows(st: Store, step: SessionStep)
    ensures var after := SessionsAfter(st, step);
            forall id | id in after ::
              if id in st.sessions
              then after[id].eventId == st.sessions[id].eventId && after[id].offerId == st.sessions[id].offerId
              else after[id].offerId.None?
  {
    match step
    case Add(id, eventId, startsAt, endsAt, capacity) => hide SessionSteps.TimeTaken;
    case AddBatch(eventId, slots) =>
      hide SessionSteps.Insert, SessionSteps.Wanted;
      if SessionSteps.BatchCreateSessions(st, eventId, slots).1.Done? {
        var wanted := SessionSteps.Wanted(st, eventId, slots);
        SessionProofs.InsertExtends(st.sessions, st.events[eventId], eventId, wanted);
        forall id | id in SessionsAfter(st, step) && id !in st.sessions
          ensures SessionsAfter(st, step)[id].offerId.None?
        {
          var s :| s in wanted && s.id == id;
        }
      }
    case _ =>
      SessionProofs.OtherStepRows(st, step);
      hide SessionsAfter;
  }

  /**
    One step keeps every session under the event of its offer exactly when it is not a merge whose
    sessions clash with the target's: such a merge leaves the offer moved and its sessions behind.
   */
  lemma StepCoherentIff(st: Store, step: Step)
    requires Coherent(st) && ForeignKeys(st) && UniqueTimes(st.sessions)
    ensures Coherent(Apply(st, step)) <==> !MergeClashes(st, step)
  {
    match step
    case OnEvents(e) =>
      EventStepFrame(st, e);
      hide AfterEvent, UniqueTimes;
    case OnSessions(s) =>
      SessionRows(st, s);
      hide SessionsAfter, UniqueTimes;
    case OnOffers(o) =>
      OfferStepCoherentIff(st, o);
      hide AfterOffer, MergeClashes, Coherent, ForeignKeys, UniqueTimes;
    case _ => hide UniqueTimes;
  }

  predicate NeverClashes(st: Store, steps: seq<Step>)
    decreases steps
  {
    steps == [] || (!MergeClashes(st, steps[0]) && NeverClashes(Apply(st, steps[0]), steps[1..]))
  }

  /** In every state of every run without a clashing merge, sessions are under their offer's event. */
  lemma {:induction false} CoherentForever(st: Store, steps: seq<Step>)
    requires Coherent(st) && ForeignKeys(st) && UniqueTimes(st.sessions) && NeverClashes(st, steps)
    ensures Coherent(Run(st, steps))
    decreases steps
  {
    hide Apply, Coherent, ForeignKeys, UniqueTimes, MergeClashes;
    if steps != [] {
      StepCoherentIff(st, steps[0]);
      SessionProofs.StepKeepsKeys(st, steps[0]);
      CoherentForever(Apply(st, steps[0]), steps[1..]);
    }
  }

  /** The foreign keys and unique keys of the schema hold in every state of every run. */
  lemma ConsistentForever(st: Store, steps: seq<Step>)
    requires Consistent(st)
    ensures Consistent(Run(st, steps))
  {
    EventProofs.SlugsStayUnique(st, steps);
    SessionProofs.KeysHold(st, steps);
  }
}
