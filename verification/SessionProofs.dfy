/** What every run keeps of the schedule: cancellations, sold sessions, capacities, keys. */
module SessionProofs {
  import opened Prelude
  import opened Catalogue
  import opened SessionSteps
  import opened Runs
  import OfferSteps
  import Letters
  import Tidy

  // ----- Bulk changes and batches -----

  /** A bulk change touches nothing but the `isActive` of sessions that are not cancelled. */
  ghost predicate OnlyActivity(sessions: Sessions, after: Sessions) {
    && after.Keys == sessions.Keys
    && forall id | id in sessions ::
         && after[id] == sessions[id].(isActive := after[id].isActive)
         && (sessions[id].canceledAt.Some? ==> after[id] == sessions[id])
  }

  lemma BulkOneOnlyActivity(st: Store, id: SessionId, pause: bool)
    ensures OnlyActivity(st.sessions, BulkOne(st, id, pause))
  {
  }

  lemma {:induction false} BulkOnlyActivity(st: Store, ids: seq<SessionId>, pause: bool)
    ensures OnlyActivity(st.sessions, BulkAll(st, ids, pause))
    decreases ids
  {
    if ids != [] {
      BulkOneOnlyActivity(st, ids[0], pause);
      hide BulkOne;
      BulkOnlyActivity(st.(sessions := BulkOne(st, ids[0], pause)), ids[1..], pause);
    }
  }

  /** Inserted rows extend the table by the slots' sessions and nothing else. */
  lemma {:induction false} InsertExtends(sessions: Sessions, e: Event, eventId: EventId, slots: seq<Slot>)
    requires forall s | s in slots :: s.startsAt.At?
    requires Insert(sessions, e, eventId, slots).Some?
    ensures var after := Insert(sessions, e, eventId, slots).value;
            && (forall id | id in sessions :: id in after && after[id] == sessions[id])
            && (forall s | s in slots :: s.id in after && s.id !in sessions && after[s.id] == SlotSession(e, eventId, s))
            && (forall id | id in after :: id in sessions || exists s :: s in slots && s.id == id)
            && |after| == |sessions| + |slots|
            && (UniqueTimes(sessions) ==> UniqueTimes(after))
    decreases slots
  {
    hide UniqueTimes;
    if slots != [] {
      var s := slots[0];
      InsertedOne(sessions, s.id, SlotSession(e, eventId, s));
      InsertExtends(sessions[s.id := SlotSession(e, eventId, s)], e, eventId, slots[1..]);
      var after := Insert(sessions, e, eventId, slots).value;
      forall id | id in after
        ensures id in sessions || exists s :: s in slots && s.id == id
      {
        if id !in sessions && id != s.id {
          var t :| t in slots[1..] && t.id == id;
          assert t in slots;
        }
      }
    }
  }

  lemma InsertedOne(sessions: Sessions, id: SessionId, s: Session)
    requires id !in sessions && !TimeTaken(sessions, s.eventId, s.startsAt)
    ensures UniqueTimes(sessions) ==> UniqueTimes(sessions[id := s])
    ensures |sessions[id := s]| == |sessions| + 1
  {
  }

  /** The slots can all be inserted: their ids and their times are new and distinct. */
  predicate Insertable(sessions: Sessions, eventId: EventId, slots: seq<Slot>)
    requires forall s | s in slots :: s.startsAt.At?
  {
    && (forall s | s in slots :: s.id !in sessions && !TimeTaken(sessions, eventId, s.startsAt.time))
    && (forall i, j | 0 <= i < j < |slots| :: slots[i].id != slots[j].id && slots[i].startsAt != slots[j].startsAt)
  }

  /** A batch inserts all its rows exactly when it can, and otherwise none of them. */
  lemma {:induction false} InsertSucceedsIff(sessions: Sessions, e: Event, eventId: EventId, slots: seq<Slot>)
    requires forall s | s in slots :: s.startsAt.At?
    ensures Insert(sessions, e, eventId, slots).Some? <==> Insertable(sessions, eventId, slots)
    decreases slots
  {
    hide TimeTaken, SlotSession;
    if slots != [] {
      var s, rest := slots[0], slots[1..];
      assert s in slots;
      if s.id !in sessions && !TimeTaken(sessions, eventId, s.startsAt.time) {
        InsertSucceedsIff(sessions[s.id := SlotSession(e, eventId, s)], e, eventId, rest);
        hide Insert;
        InsertableStep(sessions, e, eventId, slots);
      }
    }
  }

  lemma InsertableStep(sessions: Sessions, e: Event, eventId: EventId, slots: seq<Slot>)
    requires slots != [] && forall s | s in slots :: s.startsAt.At?
    requires slots[0].id !in sessions && !TimeTaken(sessions, eventId, slots[0].startsAt.time)
    ensures Insertable(sessions, eventId, slots)
       <==> Insertable(sessions[slots[0].id := SlotSession(e, eventId, slots[0])], eventId, slots[1..])
  {
    hide TimeTaken;
    var s, rest := slots[0], slots[1..];
    var next := sessions[s.id := SlotSession(e, eventId, s)];
    forall t | t in rest
      ensures (t.id in next || TimeTaken(next, eventId, t.startsAt.time))
         <==> (t.id in sessions || TimeTaken(sessions, eventId, t.startsAt.time) || t.id == s.id || t.startsAt == s.startsAt)
    {
      TakenAfterInsert(sessions, s.id, next[s.id], eventId, t.startsAt.time);
    }
    assert forall j | 1 <= j < |slots| :: slots[j] == rest[j - 1] && slots[j] in rest;
    assert forall i | 0 <= i < |rest| :: rest[i] == slots[i + 1];
  }

  lemma TakenAfterInsert(sessions: Sessions, id: SessionId, s: Session, eventId: EventId, time: int)
    requires id !in sessions
    ensures TimeTaken(sessions[id := s], eventId, time)
       <==> TimeTaken(sessions, eventId, time) || (s.eventId == eventId && s.startsAt == time)
  {
    var next := sessions[id := s];
    if TimeTaken(sessions, eventId, time) {
      var x :| x in sessions && sessions[x].eventId == eventId && sessions[x].startsAt == time;
      assert next[x].eventId == eventId && next[x].startsAt == time;
    }
    if s.eventId == eventId && s.startsAt == time {
      assert next[id].eventId == eventId && next[id].startsAt == time;
    }
  }

  lemma WantedFrom(st: Store, eventId: EventId, slots: seq<Slot>, i: nat)
    requires i < |slots|
    ensures Wanted(st, eventId, slots[i..])
         == (if SkipOf(st, eventId, slots[i]).None? then [slots[i]] else []) + Wanted(st, eventId, slots[i + 1..])
  {
    assert slots[i..][1..] == slots[i + 1..];
  }

  lemma WantedNothing(st: Store, eventId: EventId)
    ensures Wanted(st, eventId, []) == []
  {
  }

  /** Which batches succeed; a batch that fails creates nothing. */
  lemma BatchSucceedsIff(st: Store, eventId: EventId, slots: seq<Slot>)
    requires eventId in st.events && st.events[eventId].source == MANUAL && 0 < |slots| <= MAX_SLOTS
    ensures var r := BatchCreateSessions(st, eventId, slots);
            && (r.1.Done? <==> Insertable(st.sessions, eventId, Wanted(st, eventId, slots)))
            && (!r.1.Done? ==> r.0 == st.sessions)
            && (r.1.Done? ==> |r.0| == |st.sessions| + |Wanted(st, eventId, slots)|)
  {
    hide Insert, Wanted, Insertable;
    var wanted := Wanted(st, eventId, slots);
    InsertSucceedsIff(st.sessions, st.events[eventId], eventId, wanted);
    if Insert(st.sessions, st.events[eventId], eventId, wanted).Some? {
      InsertExtends(st.sessions, st.events[eventId], eventId, wanted);
    }
  }

  /** Some id of the request is `x` once trimmed. */
  ghost predicate Asks(ids: seq<string>, x: SessionId) {
    exists i | 0 <= i < |ids| :: Tidy.Trim(ids[i], Letters.IsSpace) == x
  }

  /** The ids of a bulk request are the distinct trimmed ones that are not empty. */
  lemma {:induction false} DistinctIdsAre(ids: seq<string>)
    ensures var r := DistinctIds(ids); forall i, j | 0 <= i < j < |r| :: r[i] != r[j]
    ensures forall x :: x in DistinctIds(ids) <==> x != "" && Asks(ids, x)
  {
    hide Tidy.Trim, Asks;
    if ids == [] {
      AsksNothing();
    } else {
      var rest, last := ids[..|ids| - 1], ids[|ids| - 1];
      DistinctIdsAre(rest);
      assert DistinctIds(ids) == var id := Tidy.Trim(last, Letters.IsSpace);
                                 if id == "" || id in DistinctIds(rest) then DistinctIds(rest) else DistinctIds(rest) + [id];
      hide DistinctIds;
      forall x
        ensures x in DistinctIds(ids) <==> x != "" && Asks(ids, x)
      {
        AsksLast(ids, x);
      }
    }
  }

  lemma AsksNothing()
    ensures forall x :: !Asks([], x)
  {
  }

  lemma AsksLast(ids: seq<string>, x: SessionId)
    requires ids != []
    ensures Asks(ids, x) <==> Asks(ids[..|ids| - 1], x) || Tidy.Trim(ids[|ids| - 1], Letters.IsSpace) == x
  {
    hide Tidy.Trim;
    var rest := ids[..|ids| - 1];
    assert forall i | 0 <= i < |rest| :: rest[i] == ids[i];
  }

  lemma ErrorIgnoresActivity(st: Store, other: SessionId, id: SessionId, pause: bool)
    ensures BulkErrorOf(st.(sessions := BulkOne(st, other, pause)), id, pause) == BulkErrorOf(st, id, pause)
  {
    BulkOneOnlyActivity(st, other, pause);
    hide BulkOne;
  }

  /** A bulk request pauses or resumes exactly the requested sessions that answer without an error. */
  lemma {:induction false} BulkChangesExactly(st: Store, ids: seq<SessionId>, pause: bool, id: SessionId)
    requires id in st.sessions
    ensures id in BulkAll(st, ids, pause)
    ensures BulkAll(st, ids, pause)[id]
         == if id in ids && BulkErrorOf(st, id, pause).None? then st.sessions[id].(isActive := !pause) else st.sessions[id]
    decreases ids
  {
    if ids != [] {
      ErrorIgnoresActivity(st, ids[0], id, pause);
      BulkOneOnlyActivity(st, ids[0], pause);
      hide BulkErrorOf;
      BulkChangesExactly(st.(sessions := BulkOne(st, ids[0], pause)), ids[1..], pause, id);
    }
  }

  /** A session may be changed exactly when its row shows neither a lock nor a cancellation. */
  lemma RowShowsLock(s: Session, e: Event, sold: nat, clock: int)
    ensures var row := BuildRow(s, e, sold, clock);
            && (LockOf(s, e, sold, clock).None? <==> !row.locked && !row.isCancelled)
            && (CancelRefusal(s, e, sold, clock).None? <==> !row.locked)
            && (row.lockReason.Some? && row.lockReason != Some(SOLD) && !row.isCancelled && e.source == MANUAL ==>
                  LockOf(s, e, sold, clock) == Some(SessionLocked(row.lockReason.value)))
  {
  }

  // ----- Cancellation is final -----

  /** The session is cancelled and inactive. */
  predicate Over(sessions: Sessions, id: SessionId) {
    id in sessions && sessions[id].canceledAt.Some? && !sessions[id].isActive
  }

  /** Everything about the session but the event it belongs to. */
  function Facts(s: Session): Session {
    s.(eventId := "")
  }

  lemma SessionStepKeepsOver(st: Store, step: SessionStep, id: SessionId)
    requires Over(st.sessions, id)
    ensures Over(SessionsAfter(st, step), id) && SessionsAfter(st, step)[id] == st.sessions[id]
  {
    hide BulkAll, BulkIds, Insert, Wanted, TimeTaken, TimeTakenByOther;
    match step
    case AddBatch(eventId, slots) =>
      if BatchCreateSessions(st, eventId, slots).1.Done? {
        InsertExtends(st.sessions, st.events[eventId], eventId, Wanted(st, eventId, slots));
      }
    case Bulk(ids, pause) => BulkOnlyActivity(st, BulkIds(ids), pause);
    case _ =>
  }

  /**
    Cancellation is final over every run: a cancelled session is never deleted or resumed, and keeps
    its times, capacity, time of cancellation and reason; only a merge changes the event it is under.
   */
  lemma {:induction false} CancellationIsFinal(st: Store, id: SessionId, steps: seq<Step>)
    requires Over(st.sessions, id)
    ensures var after := Run(st, steps).sessions;
            Over(after, id) && Facts(after[id]) == Facts(st.sessions[id])
    decreases steps
  {
    hide AfterEvent, AfterOffer, SessionsAfter;
    if steps != [] {
      match steps[0] {
        case OnEvents(e) => EventStepFrame(st, e);
        case OnSessions(s) => SessionStepKeepsOver(st, s, id);
        case OnOffers(o) => OfferStepFrame(st, o);
        case _ =>
      }
      CancellationIsFinal(Apply(st, steps[0]), id, steps[1..]);
    }
  }

  // ----- Sold sessions are locked -----

  /** What an administrator may not change once tickets are sold. */
  predicate SameSlot(s: Session, t: Session) {
    t.startsAt == s.startsAt && t.endsAt == s.endsAt && t.capacity == s.capacity && t.canceledAt == s.canceledAt
  }

  /** The step is the write of a cancellation of `id` that was checked on an earlier read. */
  predicate CancelsLate(step: Step, id: SessionId) {
    step.OnSessions? && step.change.CancelLate? && step.change.late == id
  }

  /** One schedule change keeps a sold session as it is, unless a late cancellation of it takes effect. */
  lemma SessionStepKeepsSoldIff(st: Store, step: SessionStep, id: SessionId)
    requires id in st.sessions && SoldCount(st, id) > 0
    ensures id in SessionsAfter(st, step)
    ensures SameSlot(st.sessions[id], SessionsAfter(st, step)[id])
       <==> st.sessions[id].canceledAt.Some? || !CancelsLate(OnSessions(step), id)
    ensures SameSlot(st.sessions[id], SessionsAfter(st, step)[id]) || Over(SessionsAfter(st, step), id)
  {
    hide BulkAll, BulkIds, Insert, Wanted, TimeTaken, TimeTakenByOther;
    match step
    case AddBatch(eventId, slots) =>
      if BatchCreateSessions(st, eventId, slots).1.Done? {
        InsertExtends(st.sessions, st.events[eventId], eventId, Wanted(st, eventId, slots));
      }
    case Bulk(ids, pause) => BulkOnlyActivity(st, BulkIds(ids), pause);
    case _ =>
  }

  lemma StepKeepsSoldIff(st: Store, step: Step, id: SessionId)
    requires id in st.sessions && SoldCount(st, id) > 0
    ensures id in Apply(st, step).sessions
    ensures SameSlot(st.sessions[id], Apply(st, step).sessions[id])
       <==> st.sessions[id].canceledAt.Some? || !CancelsLate(step, id)
    ensures SameSlot(st.sessions[id], Apply(st, step).sessions[id]) || Over(Apply(st, step).sessions, id)
  {
    hide AfterEvent, AfterOffer, SessionsAfter;
    match step
    case OnEvents(e) => EventStepFrame(st, e);
    case OnSessions(s) => SessionStepKeepsSoldIff(st, s, id);
    case OnOffers(o) => OfferStepFrame(st, o);
    case _ =>
  }

  /** Refunds never take back the last ticket of the session. */
  predicate StaysSold(st: Store, steps: seq<Step>, id: SessionId)
    decreases steps
  {
    SoldCount(st, id) > 0 && (steps == [] || StaysSold(Apply(st, steps[0]), steps[1..], id))
  }

  /**
    While it has sold tickets a session is never deleted, and it is never cancelled, rescheduled or
    resized over a run exactly when it was cancelled before or no late write of a cancellation of it
    arrives: other sessions may be cancelled in any way.
   */
  lemma {:induction false} SoldSessionIsLocked(st: Store, id: SessionId, steps: seq<Step>)
    requires id in st.sessions && StaysSold(st, steps, id)
    ensures id in Run(st, steps).sessions
    ensures SameSlot(st.sessions[id], Run(st, steps).sessions[id])
       <==> st.sessions[id].canceledAt.Some? || forall s | s in steps :: !CancelsLate(s, id)
    decreases steps
  {
    hide Apply;
    if steps != [] {
      var next, rest := Apply(st, steps[0]), steps[1..];
      assert forall s :: s in steps <==> s == steps[0] || s in rest;
      StepKeepsSoldIff(st, steps[0], id);
      SoldSessionIsLocked(next, id, rest);
      if st.sessions[id].canceledAt.None? && CancelsLate(steps[0], id) {
        CancellationIsFinal(next, id, rest);
      }
    }
  }

  // ----- Capacities -----

  /** No session is oversold. */
  predicate WithinCapacity(st: Store) {
    forall id | id in st.sessions && CapacityOf(st, st.sessions[id]).Some? ::
      SoldCount(st, id) <= CapacityOf(st, st.sessions[id]).value
  }

  predicate DefaultsNotNegative(events: Events) {
    forall id | id in events && events[id].defaultCapacity.Some? :: events[id].defaultCapacity.value >= 0
  }

  /** The step creates no session with a negative capacity. */
  predicate AddsNoNegative(step: Step) {
    match step
    case OnSessions(Add(_, _, _, _, capacity)) => capacity.GetOr(0) >= 0
    case OnSessions(AddBatch(_, slots)) => forall s | s in slots :: s.capacity.GetOr(0) >= 0
    case _ => true
  }

  /** A session row may be one with the capacity it had, or one without sales and not below zero. */
  predicate FitsIn(st: Store, id: SessionId, s: Session) {
    || (id in st.sessions && s.eventId == st.sessions[id].eventId && s.capacity == st.sessions[id].capacity)
    || (SoldCount(st, id) == 0 && s.capacity.GetOr(0) >= 0)
  }

  lemma FittingStaysWithin(st: Store, after: Sessions)
    requires WithinCapacity(st) && DefaultsNotNegative(st.events)
    requires forall id | id in after :: FitsIn(st, id, after[id])
    ensures WithinCapacity(st.(sessions := after))
  {
    forall id | id in after && CapacityOf(st, after[id]).Some?
      ensures SoldCount(st, id) <= CapacityOf(st, after[id]).value
    {
      assert FitsIn(st, id, after[id]);
    }
  }

  lemma BatchFits(st: Store, eventId: EventId, slots: seq<Slot>)
    requires ForeignKeys(st) && forall s | s in Wanted(st, eventId, slots) :: s.capacity.GetOr(0) >= 0
    requires DefaultsNotNegative(st.events)
    ensures var after := BatchCreateSessions(st, eventId, slots).0; forall id | id in after :: FitsIn(st, id, after[id])
  {
    hide Insert, Wanted, TimeTaken;
    if BatchCreateSessions(st, eventId, slots).1.Done? {
      var wanted := Wanted(st, eventId, slots);
      InsertExtends(st.sessions, st.events[eventId], eventId, wanted);
      var after := BatchCreateSessions(st, eventId, slots).0;
      forall id | id in after && id !in st.sessions
        ensures FitsIn(st, id, after[id])
      {
        var s :| s in wanted && s.id == id;
      }
    }
  }

  lemma AddFits(st: Store, id: SessionId, eventId: EventId, startsAt: DateArg, endsAt: DateArg, capacity: Option<int>)
    requires ForeignKeys(st) && DefaultsNotNegative(st.events) && capacity.GetOr(0) >= 0
    ensures var after := CreateSession(st, id, eventId, startsAt, endsAt, capacity).0;
            forall x | x in after :: FitsIn(st, x, after[x])
  {
    hide TimeTaken;
  }

  lemma UpdateFits(st: Store, id: SessionId, startsAt: DateArg, endsAt: Change, capacity: Change)
    ensures var after := UpdateSession(st, id, startsAt, endsAt, capacity).0;
            forall x | x in after :: FitsIn(st, x, after[x])
  {
    hide TimeTakenByOther;
  }

  lemma OtherStepFits(st: Store, step: SessionStep)
    requires ForeignKeys(st) && DefaultsNotNegative(st.events)
    requires AddsNoNegative(OnSessions(step)) && !step.AddBatch?
    ensures var after := SessionsAfter(st, step); forall id | id in after :: FitsIn(st, id, after[id])
  {
    hide BulkAll, BulkIds, CreateSession, UpdateSession, ForeignKeys, DefaultsNotNegative;
    match step
    case Add(id, eventId, startsAt, endsAt, capacity) => AddFits(st, id, eventId, startsAt, endsAt, capacity);
    case Update(id, startsAt, endsAt, capacity) => UpdateFits(st, id, startsAt, endsAt, capacity);
    case Bulk(ids, pause) => BulkOnlyActivity(st, BulkIds(ids), pause);
    case _ =>
  }

  lemma SessionStepWithinCapacity(st: Store, step: SessionStep)
    requires ForeignKeys(st) && WithinCapacity(st) && DefaultsNotNegative(st.events)
    requires AddsNoNegative(OnSessions(step))
    ensures WithinCapacity(st.(sessions := SessionsAfter(st, step)))
  {
    match step
    case AddBatch(eventId, slots) =>
      BatchFits(st, eventId, slots);
      hide BatchCreateSessions, FitsIn, WithinCapacity;
      FittingStaysWithin(st, SessionsAfter(st, step));
    case _ =>
      OtherStepFits(st, step);
      hide SessionsAfter, FitsIn, WithinCapacity;
      FittingStaysWithin(st, SessionsAfter(st, step));
  }

  lemma EventStepWithinCapacity(st: Store, step: EventStep)
    requires ForeignKeys(st) && WithinCapacity(st) && DefaultsNotNegative(st.events)
    ensures WithinCapacity(AfterEvent(st, step)) && DefaultsNotNegative(AfterEvent(st, step).events)
  {
    EventStepFrame(st, step);
    NewDefaults(st, step);
    hide AfterEvent;
  }

  lemma NewDefaults(st: Store, step: EventStep)
    requires DefaultsNotNegative(st.events)
    ensures DefaultsNotNegative(AfterEvent(st, step).events)
  {
    EventStepFrame(st, step);
    match step
    case Create(id, _, _, _, _) =>
    case Duplicate(id, copyId) =>
    case _ => SameEvents(st, step);
  }

  lemma SameEvents(st: Store, step: EventStep)
    requires !step.Create? && !step.Duplicate?
    ensures EventsAfter(st, step).Keys == st.events.Keys
  {
  }

  lemma OfferStepWithinCapacity(st: Store, step: OfferStep)
    requires WithinCapacity(st) && DefaultsNotNegative(st.events) && !step.Merge?
    ensures WithinCapacity(AfterOffer(st, step)) && DefaultsNotNegative(AfterOffer(st, step).events)
  {
    OfferStepFrame(st, step);
    hide AfterOffer;
  }

  // ----- Keys of the schema -----

  lemma MergeKeepsTimes(st: Store, source: EventId, id: OfferId, target: EventId)
    requires UniqueTimes(st.sessions)
    ensures UniqueTimes(OfferSteps.MergeOffer(st, source, id, target).0.sessions)
  {
  }

  lemma OfferStepKeepsTimes(st: Store, step: OfferStep)
    requires UniqueTimes(st.sessions)
    ensures UniqueTimes(AfterOffer(st, step).sessions)
  {
    match step
    case Merge(source, id, target) =>
      MergeKeepsTimes(st, source, id, target);
      hide OfferSteps.MergeOffer, UniqueTimes;
    case _ =>
      OfferStepFrame(st, step);
      hide AfterOffer;
  }

  lemma SessionStepKeepsTimes(st: Store, step: SessionStep)
    requires UniqueTimes(st.sessions)
    ensures UniqueTimes(SessionsAfter(st, step))
  {
    hide BulkAll, BulkIds, Insert, Wanted;
    match step
    case AddBatch(eventId, slots) =>
      if BatchCreateSessions(st, eventId, slots).1.Done? {
        hide UniqueTimes;
        InsertExtends(st.sessions, st.events[eventId], eventId, Wanted(st, eventId, slots));
      }
    case Bulk(ids, pause) => BulkOnlyActivity(st, BulkIds(ids), pause);
    case _ =>
  }

  lemma AddKeepsKeys(st: Store, id: SessionId, eventId: EventId, startsAt: DateArg, endsAt: DateArg, capacity: Option<int>)
    requires ForeignKeys(st)
    ensures ForeignKeys(st.(sessions := CreateSession(st, id, eventId, startsAt, endsAt, capacity).0))
  {
    hide TimeTaken;
  }

  /** The rows keep the event and the offer they had, and rows with tickets stay. */
  lemma RowsKeepKeys(st: Store, after: Sessions)
    requires ForeignKeys(st) && after.Keys <= st.sessions.Keys && st.ticketed * st.sessions.Keys <= after.Keys
    requires forall id | id in after ::
               after[id].eventId == st.sessions[id].eventId && after[id].offerId == st.sessions[id].offerId
    ensures ForeignKeys(st.(sessions := after))
  {
  }

  lemma OtherStepRows(st: Store, step: SessionStep)
    requires !step.Add? && !step.AddBatch?
    ensures var after := SessionsAfter(st, step);
            && after.Keys <= st.sessions.Keys && st.ticketed * st.sessions.Keys <= after.Keys
            && forall id | id in after ::
                 after[id].eventId == st.sessions[id].eventId && after[id].offerId == st.sessions[id].offerId
  {
    hide BulkAll, BulkIds, TimeTakenByOther;
    match step
    case Bulk(ids, pause) => BulkOnlyActivity(st, BulkIds(ids), pause);
    case _ =>
  }

  lemma SessionStepKeepsKeys(st: Store, step: SessionStep)
    requires ForeignKeys(st)
    ensures ForeignKeys(st.(sessions := SessionsAfter(st, step)))
  {
    hide CreateSession, BatchCreateSessions, ForeignKeys;
    match step
    case Add(id, eventId, startsAt, endsAt, capacity) => AddKeepsKeys(st, id, eventId, startsAt, endsAt, capacity);
    case AddBatch(eventId, slots) =>
      if BatchCreateSessions(st, eventId, slots).1.Done? {
        BatchKeepsKeys(st, eventId, slots);
      } else {
        FailedBatch(st, eventId, slots);
        RowsKeepKeys(st, st.sessions);
      }
    case _ =>
      OtherStepRows(st, step);
      hide SessionsAfter;
      RowsKeepKeys(st, SessionsAfter(st, step));
  }

  lemma FailedBatch(st: Store, eventId: EventId, slots: seq<Slot>)
    ensures BatchCreateSessions(st, eventId, slots).1.Done? || BatchCreateSessions(st, eventId, slots).0 == st.sessions
  {
    hide Insert, Wanted;
  }

  lemma BatchKeepsKeys(st: Store, eventId: EventId, slots: seq<Slot>)
    requires ForeignKeys(st) && BatchCreateSessions(st, eventId, slots).1.Done?
    ensures ForeignKeys(st.(sessions := BatchCreateSessions(st, eventId, slots).0))
  {
    hide Insert, Wanted, TimeTaken;
    var wanted := Wanted(st, eventId, slots);
    InsertExtends(st.sessions, st.events[eventId], eventId, wanted);
    var after := BatchCreateSessions(st, eventId, slots).0;
    forall id | id in after && id !in st.sessions
      ensures after[id].eventId == eventId && after[id].offerId.None?
    {
      var s :| s in wanted && s.id == id;
    }
  }

  lemma EventStepKeepsKeys(st: Store, step: EventStep)
    requires ForeignKeys(st)
    ensures ForeignKeys(AfterEvent(st, step))
  {
    EventStepFrame(st, step);
    NewPointers(st, step);
    NewOffers(st, step);
    hide AfterEvent;
  }

  lemma NewPointers(st: Store, step: EventStep)
    requires ForeignKeys(st)
    ensures var after := AfterEvent(st, step).events;
            forall id | id in after && after[id].canonicalOf.Some? :: after[id].canonicalOf.value in after
  {
  }

  lemma NewOffers(st: Store, step: EventStep)
    requires ForeignKeys(st)
    ensures var after := AfterEvent(st, step); forall id | id in after.offers :: after.offers[id].eventId in after.events
  {
    EventStepFrame(st, step);
    match step
    case Create(_, _, _, _, _) =>
    case _ => hide EventsAfter;
  }

  lemma OfferStepKeepsKeys(st: Store, step: OfferStep)
    requires ForeignKeys(st)
    ensures ForeignKeys(AfterOffer(st, step))
  {
    match step
    case Merge(source, id, target) =>
      MergeKeepsKeys(st, source, id, target);
      hide OfferSteps.MergeOffer, ForeignKeys;
    case _ =>
      OfferStepFrame(st, step);
      OffersKeepEvents(st, step);
      hide AfterOffer;
  }

  lemma CreatedOfferHasEvent(st: Store, id: OfferId, eventId: EventId, source: Source, isPrimary: bool,
                             status: OfferStatus, accepted: bool)
    requires ForeignKeys(st)
    ensures var after := OfferSteps.CreateOffer(st, id, eventId, source, isPrimary, status, accepted).0;
            forall o | o in after :: after[o].eventId in st.events
  {
  }

  lemma OffersKeepEvents(st: Store, step: OfferStep)
    requires ForeignKeys(st) && !step.Merge?
    ensures var after := AfterOffer(st, step); forall id | id in after.offers :: after.offers[id].eventId in st.events
  {
    hide OfferSteps.CreateOffer;
    match step
    case AddOffer(id, eventId, source, isPrimary, status, accepted) =>
      CreatedOfferHasEvent(st, id, eventId, source, isPrimary, status, accepted);
    case _ =>
  }

  lemma MergeKeepsKeys(st: Store, source: EventId, id: OfferId, target: EventId)
    requires ForeignKeys(st)
    ensures ForeignKeys(OfferSteps.MergeOffer(st, source, id, target).0)
  {
    hide OfferSteps.Clash;
  }

  /** Foreign keys and the unique times of an event's sessions hold in every state of every run. */
  lemma {:induction false} KeysHold(st: Store, steps: seq<Step>)
    requires ForeignKeys(st) && UniqueTimes(st.sessions)
    ensures ForeignKeys(Run(st, steps)) && UniqueTimes(Run(st, steps).sessions)
    decreases steps
  {
    if steps != [] {
      StepKeepsKeys(st, steps[0]);
      hide Apply, ForeignKeys, UniqueTimes;
      KeysHold(Apply(st, steps[0]), steps[1..]);
    }
  }

  lemma StepKeepsKeys(st: Store, step: Step)
    requires ForeignKeys(st) && UniqueTimes(st.sessions)
    ensures ForeignKeys(Apply(st, step)) && UniqueTimes(Apply(st, step).sessions)
  {
    match step
    case OnEvents(e) =>
      hide AfterEvent, ForeignKeys, UniqueTimes;
      EventStepFrame(st, e);
      EventStepKeepsKeys(st, e);
    case OnSessions(s) =>
      hide SessionsAfter, ForeignKeys, UniqueTimes;
      SessionStepKeepsKeys(st, s);
      SessionStepKeepsTimes(st, s);
    case OnOffers(o) =>
      hide AfterOffer, ForeignKeys, UniqueTimes;
      OfferStepKeepsKeys(st, o);
      OfferStepKeepsTimes(st, o);
    case _ => hide UniqueTimes;
  }

  // ----- Capacities over runs -----

  lemma StepWithinCapacity(st: Store, step: Step)
    requires ForeignKeys(st) && WithinCapacity(st) && DefaultsNotNegative(st.events)
    requires AddsNoNegative(step) && !(step.OnOffers? && step.offer.Merge?)
    ensures WithinCapacity(Apply(st, step)) && DefaultsNotNegative(Apply(st, step).events)
  {
    match step
    case OnEvents(e) =>
      hide AfterEvent, ForeignKeys, WithinCapacity, DefaultsNotNegative;
      EventStepWithinCapacity(st, e);
    case OnSessions(s) =>
      hide SessionsAfter, ForeignKeys, WithinCapacity, DefaultsNotNegative;
      SessionStepWithinCapacity(st, s);
    case OnOffers(o) =>
      hide AfterOffer, ForeignKeys, WithinCapacity, DefaultsNotNegative;
      OfferStepWithinCapacity(st, o);
    case _ =>
  }

  /**
    With guarded sales and capacities that are not negative, no session is ever sold beyond its own
    capacity, or its event's default, in any state reachable without `mergeOffer`.
   */
  lemma {:induction false} NeverOversold(st: Store, steps: seq<Step>)
    requires ForeignKeys(st) && UniqueTimes(st.sessions) && WithinCapacity(st) && DefaultsNotNegative(st.events)
    requires forall s | s in steps :: AddsNoNegative(s) && !(s.OnOffers? && s.offer.Merge?)
    ensures WithinCapacity(Run(st, steps))
    decreases steps
  {
    if steps != [] {
      StepWithinCapacity(st, steps[0]);
      StepKeepsKeys(st, steps[0]);
      hide Apply, ForeignKeys, UniqueTimes, WithinCapacity, DefaultsNotNegative, AddsNoNegative;
      NeverOversold(Apply(st, steps[0]), steps[1..]);
    }
  }

  /**
    A merge oversells exactly when it goes through and a moved session without a capacity of its own
    has sold more than the default of the event it moves to.
   */
  lemma MergeWithinCapacityIff(st: Store, source: EventId, id: OfferId, target: EventId)
    requires WithinCapacity(st)
    ensures WithinCapacity(OfferSteps.MergeOffer(st, source, id, target).0)
       <==> (OfferSteps.MergeStarts(st, source, id, target) && !OfferSteps.Clash(st.sessions, id, target) ==>
             forall s | s in st.sessions && st.sessions[s].offerId == Some(id) && st.sessions[s].capacity.None?
                       && st.events[target].defaultCapacity.Some? ::
              SoldCount(st, s) <= st.events[target].defaultCapacity.value)
  {
    hide OfferSteps.Clash;
    var after := OfferSteps.MergeOffer(st, source, id, target).0;
    if OfferSteps.MergeStarts(st, source, id, target) && !OfferSteps.Clash(st.sessions, id, target) {
      forall s | s in st.sessions
        ensures after.sessions[s].capacity == st.sessions[s].capacity && SoldCount(after, s) == SoldCount(st, s)
        ensures st.sessions[s].offerId != Some(id) ==> CapacityOf(after, after.sessions[s]) == CapacityOf(st, st.sessions[s])
        ensures st.sessions[s].offerId == Some(id) ==>
                  CapacityOf(after, after.sessions[s]) == st.sessions[s].capacity.OrElse(st.events[target].defaultCapacity)
      {
      }
    }
  }
}
