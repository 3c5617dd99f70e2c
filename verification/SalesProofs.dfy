/**
  Sold sessions and capacities when writes arrive late
  (packages/backend/src/admin/admin-events.controller.ts).  `stopSession` and `updateSession` count the
  tickets and then write without a condition, so a sale in between is not noticed.
 */
module SalesProofs {
  import opened Prelude
  import opened Catalogue
  import opened SessionSteps
  import opened Runs
  import opened LateWrites
  import OfferSteps
  import SessionProofs

  // ----- Keys -----

  lemma LateWriteKeepsKeys(st: Store, write: LateWrite)
    requires ForeignKeys(st) && UniqueTimes(st.sessions)
    ensures var after := st.(sessions := SessionsAfterLate(st, write)); ForeignKeys(after) && UniqueTimes(after.sessions)
  {
  }

  /** The keys of the schema hold with late writes too. */
  lemma ActKeepsKeys(st: Store, act: Act)
    requires ForeignKeys(st) && UniqueTimes(st.sessions)
    ensures ForeignKeys(Next(st, act)) && UniqueTimes(Next(st, act).sessions)
  {
    match act
    case Endpoint(step) =>
      SessionProofs.StepKeepsKeys(st, step);
      hide Apply, ForeignKeys, UniqueTimes;
    case Late(write) =>
      LateWriteKeepsKeys(st, write);
      hide SessionsAfterLate, ForeignKeys, UniqueTimes;
  }

  // ----- Sold sessions -----

  /** The write cancels, reschedules or resizes the session. */
  predicate LateDisturbs(st: Store, write: LateWrite, id: SessionId)
    requires id in st.sessions
  {
    var s := st.sessions[id];
    match write
    case UpdateWrite(x, startsAt, endsAt, capacity) =>
      && x == id && Changes(s, startsAt, endsAt, capacity)
      && !TimeTakenByOther(st.sessions, id, s.eventId, if startsAt.At? then startsAt.time else s.startsAt)
    case StopWrite(x, at, _) => x == id && s.canceledAt != Some(at)
    case _ => false
  }

  /** A late write keeps a sold session there, and as it is exactly when it is no such write of it. */
  lemma LateWriteKeepsSoldIff(st: Store, write: LateWrite, id: SessionId)
    requires id in st.sessions && SoldCount(st, id) > 0 && ForeignKeys(st)
    ensures id in SessionsAfterLate(st, write)
    ensures SessionProofs.SameSlot(st.sessions[id], SessionsAfterLate(st, write)[id]) <==> !LateDisturbs(st, write, id)
  {
    hide TimeTakenByOther;
  }

  predicate Disturbs(st: Store, act: Act, id: SessionId)
    requires id in st.sessions
  {
    match act
    case Endpoint(step) => st.sessions[id].canceledAt.None? && SessionProofs.CancelsLate(step, id)
    case Late(write) => LateDisturbs(st, write, id)
  }

  lemma ActKeepsSoldIff(st: Store, act: Act, id: SessionId)
    requires id in st.sessions && SoldCount(st, id) > 0 && ForeignKeys(st)
    ensures id in Next(st, act).sessions
    ensures SessionProofs.SameSlot(st.sessions[id], Next(st, act).sessions[id]) <==> !Disturbs(st, act, id)
  {
    match act
    case Endpoint(step) =>
      SessionProofs.StepKeepsSoldIff(st, step, id);
      hide Apply, ForeignKeys;
    case Late(write) =>
      LateWriteKeepsSoldIff(st, write, id);
      hide SessionsAfterLate, LateDisturbs, ForeignKeys;
  }

  /** Refunds never take back the last ticket of the session. */
  predicate StaysSold(st: Store, acts: seq<Act>, id: SessionId)
    decreases acts
  {
    SoldCount(st, id) > 0 && (acts == [] || StaysSold(Next(st, acts[0]), acts[1..], id))
  }

  predicate NeverDisturbed(st: Store, acts: seq<Act>, id: SessionId)
    decreases acts
  {
    acts == [] || (id in st.sessions && !Disturbs(st, acts[0], id) && NeverDisturbed(Next(st, acts[0]), acts[1..], id))
  }

  predicate ThereThroughout(st: Store, acts: seq<Act>, id: SessionId)
    decreases acts
  {
    id in st.sessions && (acts == [] || ThereThroughout(Next(st, acts[0]), acts[1..], id))
  }

  /** The session is there with the times, the capacity and the cancellation of `s`. */
  predicate SlotThroughout(st: Store, acts: seq<Act>, id: SessionId, s: Session)
    decreases acts
  {
    && id in st.sessions && SessionProofs.SameSlot(s, st.sessions[id])
    && (acts == [] || SlotThroughout(Next(st, acts[0]), acts[1..], id, s))
  }

  /**
    While it has sold tickets a session is never deleted.  It is not cancelled, rescheduled or resized
    in any state of a run exactly when no late cancellation or stop cancels it and no late update
    changes it.
   */
  lemma {:induction false} SoldSessionIsLockedIff(st: Store, acts: seq<Act>, id: SessionId, s: Session)
    requires ForeignKeys(st) && UniqueTimes(st.sessions)
    requires id in st.sessions && SessionProofs.SameSlot(s, st.sessions[id]) && StaysSold(st, acts, id)
    ensures ThereThroughout(st, acts, id)
    ensures SlotThroughout(st, acts, id, s) <==> NeverDisturbed(st, acts, id)
    decreases acts
  {
    hide Next, Disturbs, ForeignKeys, UniqueTimes;
    if acts != [] {
      var next := Next(st, acts[0]);
      ActKeepsSoldIff(st, acts[0], id);
      ActKeepsKeys(st, acts[0]);
      if Disturbs(st, acts[0], id) {
        SoldSessionIsLockedIff(next, acts[1..], id, next.sessions[id]);
        StaysOut(next, acts[1..], id, s);
      } else {
        SoldSessionIsLockedIff(next, acts[1..], id, s);
      }
    }
  }

  lemma StaysOut(st: Store, acts: seq<Act>, id: SessionId, s: Session)
    requires id in st.sessions && !SessionProofs.SameSlot(s, st.sessions[id])
    ensures !SlotThroughout(st, acts, id, s)
  {
  }

  /**
    A sale between the checks and the write of a stop is not noticed: the stop passes every check,
    would be refused after the sale, and still cancels the session that was sold.
   */
  lemma StopAfterSale(st: Store, id: SessionId, tickets: nat, reason: Option<string>)
    requires FindLock(st, id).None? && tickets > 0 && CanSell(st, id, tickets)
    ensures StopSession(st, id, reason).1.Done? && SoldCount(st, id) == 0
    ensures var sold := Apply(st, Sell(id, tickets));
            && StopSession(sold, id, reason).1 == Failed(SessionLocked(SOLD))
            && var after := Next(sold, Late(StopWrite(id, st.clock, reason)));
               id in after.sessions && after.sessions[id].canceledAt == Some(st.clock) && SoldCount(after, id) > 0
  {
  }

  // ----- Capacities -----

  /** The write gives a session a capacity below what it has sold. */
  predicate LateOversells(st: Store, write: LateWrite) {
    match write
    case UpdateWrite(id, startsAt, _, capacity) =>
      && id in st.sessions
      && var s := st.sessions[id];
         var default := if s.eventId in st.events then st.events[s.eventId].defaultCapacity else None;
         && !TimeTakenByOther(st.sessions, id, s.eventId, if startsAt.At? then startsAt.time else s.startsAt)
         && (|| (capacity.SetTo? && capacity.value < SoldCount(st, id))
             || (capacity.Clear? && default.Some? && default.value < SoldCount(st, id)))
    case _ => false
  }

  /** A late write keeps sales within capacities exactly when it is no such write. */
  lemma LateWriteKeepsCapacityIff(st: Store, write: LateWrite)
    requires SessionProofs.WithinCapacity(st)
    ensures SessionProofs.WithinCapacity(st.(sessions := SessionsAfterLate(st, write))) <==> !LateOversells(st, write)
  {
    hide TimeTakenByOther;
    var after := st.(sessions := SessionsAfterLate(st, write));
    forall x | x in after.sessions
      ensures x in st.sessions && SoldCount(after, x) == SoldCount(st, x)
      ensures !(write.UpdateWrite? && write.updated == x) ==> CapacityOf(after, after.sessions[x]) == CapacityOf(st, st.sessions[x])
    {
    }
    if LateOversells(st, write) {
      assert write.updated in after.sessions;
    }
  }

  /** The creation goes through, with a capacity below zero. */
  predicate AddsNegative(st: Store, step: SessionStep) {
    match step
    case Add(id, eventId, startsAt, endsAt, capacity) =>
      && eventId in st.events && st.events[eventId].source == MANUAL && startsAt.At? && !endsAt.Invalid?
      && st.clock <= startsAt.time && id !in st.sessions && !TimeTaken(st.sessions, eventId, startsAt.time)
      && capacity.GetOr(0) < 0
    case AddBatch(eventId, slots) =>
      && eventId in st.events && st.events[eventId].source == MANUAL && 0 < |slots| <= MAX_SLOTS
      && SessionProofs.Insertable(st.sessions, eventId, Wanted(st, eventId, slots))
      && exists s :: s in Wanted(st, eventId, slots) && s.capacity.GetOr(0) < 0
    case _ => false
  }

  /** The merge goes through and moves a session to an event whose default is below what it has sold. */
  predicate MergeOversells(st: Store, id: OfferId, source: EventId, target: EventId) {
    && OfferSteps.MergeStarts(st, source, id, target) && !OfferSteps.Clash(st.sessions, id, target)
    && exists s :: && s in st.sessions && st.sessions[s].offerId == Some(id) && st.sessions[s].capacity.None?
                   && st.events[target].defaultCapacity.Some?
                   && st.events[target].defaultCapacity.value < SoldCount(st, s)
  }

  predicate StepOversells(st: Store, step: Step) {
    match step
    case OnSessions(change) => AddsNegative(st, change)
    case OnOffers(Merge(source, id, target)) => MergeOversells(st, id, source, target)
    case _ => false
  }

  lemma AddKeepsCapacityIff(st: Store, step: SessionStep)
    requires ForeignKeys(st) && SessionProofs.WithinCapacity(st) && SessionProofs.DefaultsNotNegative(st.events)
    requires step.Add?
    ensures SessionProofs.WithinCapacity(st.(sessions := SessionsAfter(st, step))) <==> !AddsNegative(st, step)
  {
    if step.capacity.GetOr(0) >= 0 {
      SessionProofs.SessionStepWithinCapacity(st, step);
      hide SessionsAfter, SessionProofs.WithinCapacity, ForeignKeys, SessionProofs.DefaultsNotNegative;
    } else {
      hide TimeTaken;
      if AddsNegative(st, step) {
        var after := st.(sessions := SessionsAfter(st, step));
        assert step.id in after.sessions && CapacityOf(after, after.sessions[step.id]) == step.capacity;
      }
    }
  }

  lemma SlotIsCreated(st: Store, eventId: EventId, slots: seq<Slot>, s: Slot)
    requires BatchCreateSessions(st, eventId, slots).1.Done? && s in Wanted(st, eventId, slots)
    ensures s.id in BatchCreateSessions(st, eventId, slots).0
    ensures BatchCreateSessions(st, eventId, slots).0[s.id] == SlotSession(st.events[eventId], eventId, s)
  {
    hide Insert, Wanted, TimeTaken;
    SessionProofs.InsertExtends(st.sessions, st.events[eventId], eventId, Wanted(st, eventId, slots));
  }

  lemma NegativeRowOversells(st: Store, id: SessionId)
    requires id in st.sessions && st.sessions[id].capacity.GetOr(0) < 0
    ensures !SessionProofs.WithinCapacity(st)
  {
    assert CapacityOf(st, st.sessions[id]) == st.sessions[id].capacity;
  }

  lemma SucceededBatch(st: Store, eventId: EventId, slots: seq<Slot>)
    requires ForeignKeys(st) && SessionProofs.WithinCapacity(st) && SessionProofs.DefaultsNotNegative(st.events)
    requires BatchCreateSessions(st, eventId, slots).1.Done?
    ensures SessionProofs.WithinCapacity(st.(sessions := BatchCreateSessions(st, eventId, slots).0))
       <==> forall s | s in Wanted(st, eventId, slots) :: s.capacity.GetOr(0) >= 0
  {
    hide BatchCreateSessions, Wanted, ForeignKeys, SessionProofs.WithinCapacity, SessionProofs.DefaultsNotNegative;
    hide SessionProofs.FitsIn;
    var after, wanted := BatchCreateSessions(st, eventId, slots).0, Wanted(st, eventId, slots);
    if s :| s in wanted && s.capacity.GetOr(0) < 0 {
      SlotIsCreated(st, eventId, slots, s);
      NegativeRowOversells(st.(sessions := after), s.id);
    } else {
      SessionProofs.BatchFits(st, eventId, slots);
      SessionProofs.FittingStaysWithin(st, after);
    }
  }

  lemma BatchKeepsCapacityIff(st: Store, step: SessionStep)
    requires ForeignKeys(st) && SessionProofs.WithinCapacity(st) && SessionProofs.DefaultsNotNegative(st.events)
    requires step.AddBatch?
    ensures SessionProofs.WithinCapacity(st.(sessions := SessionsAfter(st, step))) <==> !AddsNegative(st, step)
  {
    hide Insert, Wanted, TimeTaken, SessionProofs.Insertable, SessionProofs.WithinCapacity;
    hide SessionProofs.DefaultsNotNegative, ForeignKeys;
    var eventId, slots := step.batchEvent, step.slots;
    if eventId in st.events && st.events[eventId].source == MANUAL && 0 < |slots| <= MAX_SLOTS {
      SessionProofs.BatchSucceedsIff(st, eventId, slots);
    }
    if BatchCreateSessions(st, eventId, slots).1.Done? {
      SucceededBatch(st, eventId, slots);
    } else {
      SessionProofs.FailedBatch(st, eventId, slots);
      assert st.(sessions := st.sessions) == st;
    }
  }

  /** One step keeps sales within capacities exactly when it is no creation below zero and no such merge. */
  lemma StepKeepsCapacityIff(st: Store, step: Step)
    requires ForeignKeys(st) && SessionProofs.WithinCapacity(st) && SessionProofs.DefaultsNotNegative(st.events)
    ensures SessionProofs.WithinCapacity(Apply(st, step)) <==> !StepOversells(st, step)
  {
    match step
    case OnSessions(change) =>
      if change.Add? {
        AddKeepsCapacityIff(st, change);
      } else if change.AddBatch? {
        BatchKeepsCapacityIff(st, change);
      } else {
        SessionProofs.SessionStepWithinCapacity(st, change);
      }
      hide SessionsAfter, SessionProofs.WithinCapacity, SessionProofs.DefaultsNotNegative, ForeignKeys;
    case OnOffers(Merge(source, id, target)) =>
      SessionProofs.MergeWithinCapacityIff(st, source, id, target);
      hide OfferSteps.MergeOffer, OfferSteps.MergeStarts, OfferSteps.Clash, SessionProofs.WithinCapacity, ForeignKeys;
    case _ =>
      SessionProofs.StepWithinCapacity(st, step);
      hide Apply, SessionProofs.WithinCapacity, SessionProofs.DefaultsNotNegative, ForeignKeys;
  }

  predicate Oversells(st: Store, act: Act) {
    match act
    case Endpoint(step) => StepOversells(st, step)
    case Late(write) => LateOversells(st, write)
  }

  lemma ActKeepsCapacityIff(st: Store, act: Act)
    requires ForeignKeys(st) && SessionProofs.WithinCapacity(st) && SessionProofs.DefaultsNotNegative(st.events)
    ensures SessionProofs.WithinCapacity(Next(st, act)) <==> !Oversells(st, act)
    ensures SessionProofs.DefaultsNotNegative(Next(st, act).events)
  {
    match act
    case Endpoint(step) =>
      StepKeepsCapacityIff(st, step);
      StepKeepsDefaults(st, step);
      hide Apply, StepOversells, SessionProofs.WithinCapacity, SessionProofs.DefaultsNotNegative, ForeignKeys;
    case Late(write) =>
      LateWriteKeepsCapacityIff(st, write);
      hide SessionsAfterLate, LateOversells, SessionProofs.WithinCapacity, ForeignKeys;
  }

  lemma StepKeepsDefaults(st: Store, step: Step)
    requires SessionProofs.DefaultsNotNegative(st.events)
    ensures SessionProofs.DefaultsNotNegative(Apply(st, step).events)
  {
    match step
    case OnEvents(e) =>
      SessionProofs.NewDefaults(st, e);
      hide AfterEvent, SessionProofs.DefaultsNotNegative;
    case OnOffers(o) =>
      OfferStepFrame(st, o);
      hide AfterOffer;
    case _ =>
  }

  predicate WithinThroughout(st: Store, acts: seq<Act>)
    decreases acts
  {
    SessionProofs.WithinCapacity(st) && (acts == [] || WithinThroughout(Next(st, acts[0]), acts[1..]))
  }

  predicate NeverOversells(st: Store, acts: seq<Act>)
    decreases acts
  {
    acts == [] || (!Oversells(st, acts[0]) && NeverOversells(Next(st, acts[0]), acts[1..]))
  }

  /**
    No session is oversold in any state of a run, with merges, creations of any capacity and late
    writes, exactly when none of its steps is one that oversells.
   */
  lemma {:induction false} NeverOversoldIff(st: Store, acts: seq<Act>)
    requires ForeignKeys(st) && UniqueTimes(st.sessions)
    requires SessionProofs.WithinCapacity(st) && SessionProofs.DefaultsNotNegative(st.events)
    ensures WithinThroughout(st, acts) <==> NeverOversells(st, acts)
    decreases acts
  {
    hide Next, Oversells, ForeignKeys, UniqueTimes, SessionProofs.WithinCapacity, SessionProofs.DefaultsNotNegative;
    if acts != [] {
      ActKeepsCapacityIff(st, acts[0]);
      ActKeepsKeys(st, acts[0]);
      if !Oversells(st, acts[0]) {
        NeverOversoldIff(Next(st, acts[0]), acts[1..]);
      }
    }
  }

  /**
    A sale between the checks and the write of a smaller capacity is not noticed: the update passes
    every check, would be refused after the sale, and still leaves the session oversold.
   */
  lemma ResizeAfterSale(st: Store, id: SessionId, tickets: nat)
    requires FindLock(st, id).None? && tickets > 0 && CanSell(st, id, tickets) && UniqueTimes(st.sessions)
    ensures UpdateSession(st, id, Absent, Keep, SetTo(0)).1.Done?
    ensures var sold := Apply(st, Sell(id, tickets));
            && UpdateSession(sold, id, Absent, Keep, SetTo(0)).1 == Failed(SessionLocked(SOLD))
            && var after := Next(sold, Late(UpdateWrite(id, Absent, Keep, SetTo(0))));
               id in after.sessions && CapacityOf(after, after.sessions[id]) == Some(0) && SoldCount(after, id) > 0
  {
    assert Rescheduled(st.sessions[id], Absent, Keep, SetTo(0)).startsAt == st.sessions[id].startsAt;
    assert !TimeTakenByOther(st.sessions, id, st.sessions[id].eventId, st.sessions[id].startsAt);
    hide UniqueTimes;
  }
}
