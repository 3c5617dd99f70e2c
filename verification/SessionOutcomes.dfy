/**
  What each endpoint of the schedule answers and writes
  (packages/backend/src/admin/admin-events.controller.ts): the requests that succeed, the answer to
  each other one, and the new rows field by field.
 */
module SessionOutcomes {
  import opened Prelude
  import opened Catalogue
  import opened SessionSteps
  import EndpointProofs
  import Letters
  import SessionProofs
  import Tidy

  /** The table has the same sessions, and all but one are as they were. */
  predicate OnlySession(sessions: Sessions, after: Sessions, id: SessionId) {
    after.Keys == sessions.Keys && forall x | x in sessions && x != id :: after[x] == sessions[x]
  }

  predicate Found(st: Store, id: SessionId) {
    id in st.sessions && st.sessions[id].eventId in st.events
  }

  predicate OfManual(st: Store, id: SessionId) {
    Found(st, id) && st.events[st.sessions[id].eventId].source == MANUAL
  }

  /** The answer to a change of a session that may not be changed: the first reason in the order of the code. */
  lemma WhyLocked(st: Store, id: SessionId)
    ensures FindLock(st, id) == Some(NotFound) <==> !Found(st, id)
    ensures FindLock(st, id) == Some(SessionLocked(IMPORTED)) <==> Found(st, id) && !OfManual(st, id)
    ensures FindLock(st, id) == Some(SessionLocked(OTHER)) <==> OfManual(st, id) && st.sessions[id].canceledAt.Some?
    ensures FindLock(st, id) == Some(SessionLocked(PAST))
       <==> OfManual(st, id) && st.sessions[id].canceledAt.None? && st.sessions[id].startsAt < st.clock
    ensures FindLock(st, id) == Some(SessionLocked(SOLD))
       <==> OfManual(st, id) && st.sessions[id].canceledAt.None? && st.sessions[id].startsAt >= st.clock && SoldCount(st, id) > 0
    ensures FindLock(st, id).None?
       <==> OfManual(st, id) && st.sessions[id].canceledAt.None? && st.sessions[id].startsAt >= st.clock && SoldCount(st, id) == 0
  {
  }

  /** Some session of the event starts at the time. */
  predicate StartsThen(sessions: Sessions, eventId: EventId, time: int) {
    exists x | x in sessions :: sessions[x].eventId == eventId && sessions[x].startsAt == time
  }

  // ----- Creation -----

  lemma CreateAnswers(st: Store, id: SessionId, eventId: EventId, startsAt: DateArg, endsAt: DateArg, capacity: Option<int>)
    ensures var r := CreateSession(st, id, eventId, startsAt, endsAt, capacity).1;
            var manual := eventId in st.events && st.events[eventId].source == MANUAL;
            var dated := startsAt.At? && !endsAt.Invalid?;
            && (r == Failed(NotFound) <==> eventId !in st.events)
            && (r == Failed(SessionLocked(IMPORTED)) <==> eventId in st.events && !manual)
            && (r == Failed(BadRequest) <==> manual && !dated)
            && (r == Failed(SessionLocked(PAST)) <==> manual && dated && startsAt.time < st.clock)
            && (r == Failed(Conflict) <==> manual && dated && startsAt.time >= st.clock
                                           && (id in st.sessions || StartsThen(st.sessions, eventId, startsAt.time)))
            && (r.Done? <==> manual && dated && startsAt.time >= st.clock
                             && id !in st.sessions && !StartsThen(st.sessions, eventId, startsAt.time))
  {
  }

  /** A new session has the times of the request, its capacity or the default, and is on sale without an offer. */
  lemma CreateWrites(st: Store, id: SessionId, eventId: EventId, startsAt: DateArg, endsAt: DateArg, capacity: Option<int>)
    requires CreateSession(st, id, eventId, startsAt, endsAt, capacity).1.Done?
    ensures var after := CreateSession(st, id, eventId, startsAt, endsAt, capacity).0;
            && after.Keys == st.sessions.Keys + {id} && (forall x | x in st.sessions :: after[x] == st.sessions[x])
            && var s := after[id];
               && s.eventId == eventId && s.startsAt == startsAt.time && s.isActive
               && (if endsAt.At? then s.endsAt == Some(endsAt.time) else s.endsAt.None?)
               && (if capacity.Some? then s.capacity == capacity else s.capacity == st.events[eventId].defaultCapacity)
               && s.offerId.None? && s.canceledAt.None? && s.cancelReason.None?
  {
    hide TimeTaken;
  }

  /** A slot of a batch is passed over when it is no date, past, or at a time the event already has. */
  lemma WhySkipped(st: Store, eventId: EventId, slot: Slot)
    ensures SkipOf(st, eventId, slot) == Some(SkipInvalid) <==> !slot.startsAt.At?
    ensures SkipOf(st, eventId, slot) == Some(SkipPast) <==> slot.startsAt.At? && slot.startsAt.time < st.clock
    ensures SkipOf(st, eventId, slot) == Some(SkipDuplicate)
       <==> slot.startsAt.At? && slot.startsAt.time >= st.clock && StartsThen(st.sessions, eventId, slot.startsAt.time)
  {
  }

  lemma WantedFirst(st: Store, eventId: EventId, slots: seq<Slot>)
    requires slots != []
    ensures Wanted(st, eventId, slots)
         == (if SkipOf(st, eventId, slots[0]).None? then [slots[0]] else []) + Wanted(st, eventId, slots[1..])
  {
    hide SkipOf;
  }

  lemma NoneWanted(st: Store, eventId: EventId)
    ensures Wanted(st, eventId, []) == []
  {
  }

  /** Of the slots of a batch exactly those not passed over are wanted, in their order. */
  lemma {:induction false} WantedSlots(st: Store, eventId: EventId, a: seq<Slot>, b: seq<Slot>, slot: Slot)
    ensures Wanted(st, eventId, a + b) == Wanted(st, eventId, a) + Wanted(st, eventId, b)
    ensures Wanted(st, eventId, [slot]) == if SkipOf(st, eventId, slot).None? then [slot] else []
  {
    hide Wanted, SkipOf;
    NoneWanted(st, eventId);
    WantedFirst(st, eventId, [slot]);
    assert [slot][1..] == [];
    if a == [] {
      assert a + b == b;
    } else {
      WantedFirst(st, eventId, a);
      WantedFirst(st, eventId, a + b);
      WantedSlots(st, eventId, a[1..], b, slot);
      var first := if SkipOf(st, eventId, a[0]).None? then [a[0]] else [];
      var x, y := Wanted(st, eventId, a[1..]), Wanted(st, eventId, b);
      assert (a + b)[1..] == a[1..] + b && first + (x + y) == (first + x) + y;
    }
  }

  /** The row of a slot has its time and capacity, or the default, and is on sale unless it asks not to be. */
  lemma SlotRow(e: Event, eventId: EventId, slot: Slot)
    requires slot.startsAt.At?
    ensures var s := SlotSession(e, eventId, slot);
            && s.eventId == eventId && s.startsAt == slot.startsAt.time && s.endsAt.None?
            && (if slot.capacity.Some? then s.capacity == slot.capacity else s.capacity == e.defaultCapacity)
            && (s.isActive <==> slot.isActive != Some(false))
            && s.offerId.None? && s.canceledAt.None? && s.cancelReason.None?
  {
  }

  lemma BatchAnswers(st: Store, eventId: EventId, slots: seq<Slot>)
    ensures var r := BatchCreateSessions(st, eventId, slots).1;
            var manual := eventId in st.events && st.events[eventId].source == MANUAL;
            && (r == Failed(NotFound) <==> eventId !in st.events)
            && (r == Failed(SessionLocked(IMPORTED)) <==> eventId in st.events && !manual)
            && (r == Failed(BadRequest) <==> manual && (|slots| == 0 || |slots| > 200))
            && (r == Failed(Conflict) <==> manual && 0 < |slots| <= 200
                                           && !SessionProofs.Insertable(st.sessions, eventId, Wanted(st, eventId, slots)))
  {
    hide Insert, Wanted, SessionProofs.Insertable;
    if eventId in st.events && st.events[eventId].source == MANUAL && 0 < |slots| <= MAX_SLOTS {
      SessionProofs.BatchSucceedsIff(st, eventId, slots);
    }
  }

  // ----- Changes -----

  /** The time of the request, if it gives one, is free among the other sessions of the event. */
  predicate TimeFree(st: Store, id: SessionId, startsAt: DateArg)
    requires id in st.sessions
  {
    startsAt.At? ==> forall x | x in st.sessions && x != id && st.sessions[x].eventId == st.sessions[id].eventId ::
                       st.sessions[x].startsAt != startsAt.time
  }

  /** Which updates succeed, and the answer to each other one. */
  lemma UpdateAnswers(st: Store, id: SessionId, startsAt: DateArg, endsAt: Change, capacity: Change)
    requires UniqueTimes(st.sessions)
    ensures var r := UpdateSession(st, id, startsAt, endsAt, capacity).1;
            var dated := !startsAt.Invalid? && !endsAt.Unreadable?;
            && (FindLock(st, id).Some? ==> r == Failed(FindLock(st, id).value))
            && (FindLock(st, id).None? <==> EndpointProofs.ShownEditable(st, id))
            && (EndpointProofs.ShownEditable(st, id) ==>
                  && id in st.sessions
                  && (r == Failed(BadRequest) <==> !dated)
                  && (r == Failed(SessionLocked(SOLD)) <==> dated && capacity.SetTo? && capacity.value < 0)
                  && (r == Failed(Conflict) <==> dated && !(capacity.SetTo? && capacity.value < 0) && !TimeFree(st, id, startsAt))
                  && (r.Done? <==> dated && !(capacity.SetTo? && capacity.value < 0) && TimeFree(st, id, startsAt)))
  {
    hide EndpointProofs.ShownEditable;
    EndpointProofs.LockIsShown(st, id);
  }

  /** An update writes the start, end and capacity of the request where it gives them, and nothing else. */
  lemma UpdateWrites(st: Store, id: SessionId, startsAt: DateArg, endsAt: Change, capacity: Change)
    ensures var (after, r) := UpdateSession(st, id, startsAt, endsAt, capacity);
            if r.Done?
            then && id in st.sessions && OnlySession(st.sessions, after, id) && Updated(st.sessions[id], after[id], startsAt, endsAt, capacity)
            else after == st.sessions
  {
    hide TimeTakenByOther, FindLock;
    if UpdateSession(st, id, startsAt, endsAt, capacity).1.Done? {
      WhyLocked(st, id);
    }
  }

  predicate Updated(s: Session, t: Session, startsAt: DateArg, endsAt: Change, capacity: Change) {
    && (if startsAt.At? then t.startsAt == startsAt.time else t.startsAt == s.startsAt)
    && (match endsAt
        case SetTo(time) => t.endsAt == Some(time)
        case Clear => t.endsAt.None?
        case _ => t.endsAt == s.endsAt)
    && (match capacity
        case SetTo(total) => t.capacity == Some(total)
        case Clear => t.capacity.None?
        case _ => t.capacity == s.capacity)
    && t.eventId == s.eventId && t.offerId == s.offerId && t.isActive == s.isActive
    && t.canceledAt == s.canceledAt && t.cancelReason == s.cancelReason
  }

  /** A stop writes the cancellation, off sale, with the time of the request and its reason as it is. */
  lemma StopWrites(st: Store, id: SessionId, reason: Option<string>)
    ensures var (after, r) := StopSession(st, id, reason);
            if FindLock(st, id).None?
            then && r.Done? && id in st.sessions && OnlySession(st.sessions, after, id)
                 && CancelledAs(st.sessions[id], after[id], st.clock, reason)
            else r == Failed(FindLock(st, id).value) && after == st.sessions
  {
  }

  /** Off sale and cancelled at a time for a reason; times, capacity, event and offer as they were. */
  predicate CancelledAs(s: Session, t: Session, at: int, reason: Option<string>) {
    && !t.isActive && t.canceledAt == Some(at) && t.cancelReason == reason
    && t.eventId == s.eventId && t.offerId == s.offerId
    && t.startsAt == s.startsAt && t.endsAt == s.endsAt && t.capacity == s.capacity
  }

  lemma CancelAnswers(st: Store, id: SessionId, reason: Option<string>)
    ensures var r := CancelSession(st, id, reason).1;
            && (r == Failed(NotFound) <==> !Found(st, id))
            && (r == Failed(SessionLocked(IMPORTED)) <==> Found(st, id) && !OfManual(st, id))
            && (r == Failed(SessionLocked(PAST)) <==> OfManual(st, id) && st.sessions[id].startsAt < st.clock)
            && (r == Failed(SessionLocked(SOLD))
                <==> OfManual(st, id) && st.sessions[id].startsAt >= st.clock && SoldCount(st, id) > 0)
            && (r.Done? <==> OfManual(st, id) && st.sessions[id].startsAt >= st.clock && SoldCount(st, id) == 0)
  {
    hide CancelWrite, CancelReason;
  }

  lemma CancelWrites(st: Store, id: SessionId, reason: Option<string>)
    ensures var (after, r) := CancelSession(st, id, reason);
            if r.Done? && st.sessions[id].canceledAt.None?
            then OnlySession(st.sessions, after, id) && CancelledAs(st.sessions[id], after[id], st.clock, CancelReason(reason))
            else after == st.sessions
  {
    hide CancelReason;
  }

  /** The reason of a cancellation is kept without the spaces around it; one without text is no reason. */
  lemma ReasonIsTrimmed(reason: Option<string>) returns (before: string, after: string)
    ensures reason.GetOr("") == before + CancelReason(reason).GetOr("") + after
    ensures forall i | 0 <= i < |before| :: Letters.IsSpace(before[i])
    ensures forall i | 0 <= i < |after| :: Letters.IsSpace(after[i])
    ensures CancelReason(reason).Some? ==>
              var kept := CancelReason(reason).value;
              kept != "" && !Letters.IsSpace(kept[0]) && !Letters.IsSpace(kept[|kept| - 1])
  {
    hide Tidy.Trim, Letters.IsSpace;
    before, after := Tidy.TrimIs(reason.GetOr(""), Letters.IsSpace);
  }

  lemma DeleteAnswers(st: Store, id: SessionId)
    ensures var (after, r) := DeleteSession(st, id);
            && (FindLock(st, id).Some? ==> r == Failed(FindLock(st, id).value))
            && (r == Failed(Conflict) <==> FindLock(st, id).None? && id in st.ticketed)
            && (r.Done? <==> FindLock(st, id).None? && id !in st.ticketed)
            && after == if r.Done? then map x | x in st.sessions && x != id :: st.sessions[x] else st.sessions
  {
    WhyLocked(st, id);
    hide OfManual, Found;
  }

  // ----- Bulk -----

  /** Why a session of a bulk request is left alone: the first reason in the order of the code. */
  lemma WhyLeftAlone(st: Store, id: SessionId, pause: bool)
    ensures BulkErrorOf(st, id, pause) == Some(BulkNotFound) <==> !Found(st, id)
    ensures BulkErrorOf(st, id, pause) == Some(BulkImported) <==> Found(st, id) && !OfManual(st, id)
    ensures BulkErrorOf(st, id, pause) == Some(BulkCancelled) <==> OfManual(st, id) && st.sessions[id].canceledAt.Some?
    ensures BulkErrorOf(st, id, pause) == Some(BulkPast)
       <==> OfManual(st, id) && st.sessions[id].canceledAt.None? && st.sessions[id].startsAt < st.clock
    ensures BulkErrorOf(st, id, pause) == Some(BulkSoldOut)
       <==> OfManual(st, id) && st.sessions[id].canceledAt.None? && st.sessions[id].startsAt >= st.clock && pause && SoldOut(st, id)
    ensures BulkErrorOf(st, id, pause).None?
       <==> OfManual(st, id) && st.sessions[id].canceledAt.None? && st.sessions[id].startsAt >= st.clock && !(pause && SoldOut(st, id))
  {
  }

  /** All places of a session with a positive capacity are sold; without a capacity it is never sold out. */
  predicate SoldOut(st: Store, id: SessionId)
    requires Found(st, id)
  {
    var s, e := st.sessions[id], st.events[st.sessions[id].eventId];
    var places := if s.capacity.Some? then s.capacity.value else if e.defaultCapacity.Some? then e.defaultCapacity.value else 0;
    places > 0 && SoldCount(st, id) >= places
  }

  /** The ids of a bulk request come in the order of their first appearance, a hundred at most. */
  lemma {:induction false} IdsInOrder(ids: seq<string>, more: seq<string>)
    ensures DistinctIds(ids) <= DistinctIds(ids + more)
    ensures BulkIds(ids) <= DistinctIds(ids)
    ensures |BulkIds(ids)| == if |DistinctIds(ids)| > 100 then 100 else |DistinctIds(ids)|
    decreases more
  {
    hide Tidy.Trim;
    if more == [] {
      assert ids + more == ids;
    } else {
      var rest := more[..|more| - 1];
      IdsInOrder(ids, rest);
      assert (ids + more)[..|ids + more| - 1] == ids + rest;
    }
  }

  lemma BulkAnswers(st: Store, ids: seq<string>, pause: bool)
    ensures var (after, r) := BulkSessions(st, ids, pause);
            && (r.Done? || r == Failed(BadRequest))
            && (r.Done? <==> exists i | 0 <= i < |ids| :: Tidy.Trim(ids[i], Letters.IsSpace) != "")
            && (!r.Done? ==> after == st.sessions)
  {
    hide BulkAll, Tidy.Trim, DistinctIds;
    SessionProofs.DistinctIdsAre(ids);
    if i :| 0 <= i < |ids| && Tidy.Trim(ids[i], Letters.IsSpace) != "" {
      assert SessionProofs.Asks(ids, Tidy.Trim(ids[i], Letters.IsSpace));
      assert DistinctIds(ids) != [];
    }
    if BulkIds(ids) != [] {
      assert BulkIds(ids)[0] in DistinctIds(ids);
    }
  }

  // ----- The row an administrator sees -----

  /** The row shows the session, its capacity or the default, and why it is locked: sold before past before imported. */
  lemma RowShows(s: Session, e: Event, sold: nat, clock: int)
    ensures var row := BuildRow(s, e, sold, clock);
            && row.startsAt == s.startsAt && row.endsAt == s.endsAt && row.sold == sold
            && row.capacity == (if s.capacity.Some? then s.capacity else e.defaultCapacity)
            && row.canceledAt == s.canceledAt && row.cancelReason == s.cancelReason
            && (row.isCancelled <==> s.canceledAt.Some?)
            && (row.locked <==> sold > 0 || s.startsAt < clock || e.source != MANUAL)
            && (row.lockReason == Some(SOLD) <==> sold > 0)
            && (row.lockReason == Some(PAST) <==> sold == 0 && s.startsAt < clock)
            && (row.lockReason == Some(IMPORTED) <==> sold == 0 && s.startsAt >= clock && e.source != MANUAL)
            && (row.lockReason.None? <==> !row.locked)
  {
  }
}
