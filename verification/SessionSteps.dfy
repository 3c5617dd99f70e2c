/**
  The endpoints that edit the schedule of an event
  (packages/backend/src/admin/admin-events.controller.ts).  Each function gives the session table
  an endpoint leaves and its outcome.
 */
module SessionSteps {
  import opened Prelude
  import opened Catalogue
  import opened Letters
  import Tidy

  /** A date in a request: missing, not a date, or a time value. */
  datatype DateArg = Absent | Invalid | At(time: int)

  /** A change of a nullable field: keep it, set it to null, reject it, or set it. */
  datatype Change = Keep | Clear | Unreadable | SetTo(value: int)

  /** A session with its event; None only if one of them is missing. */
  function SessionWithEvent(st: Store, id: SessionId): Option<(Session, Event)> {
    if id in st.sessions && st.sessions[id].eventId in st.events
    then Some((st.sessions[id], st.events[st.sessions[id].eventId]))
    else None
  }

  /** The first reason in `assertSessionMutable` not to touch a session. */
  function LockOf(s: Session, e: Event, sold: nat, clock: int): Option<Error> {
    if e.source != MANUAL then Some(SessionLocked(IMPORTED))
    else if s.canceledAt.Some? then Some(SessionLocked(OTHER))
    else if s.startsAt < clock then Some(SessionLocked(PAST))
    else if sold > 0 then Some(SessionLocked(SOLD))
    else None
  }

  function FindLock(st: Store, id: SessionId): Option<Error> {
    var found := SessionWithEvent(st, id);
    if found.None? then Some(NotFound) else LockOf(found.value.0, found.value.1, SoldCount(st, id), st.clock)
  }

  predicate TimeTaken(sessions: Sessions, eventId: EventId, startsAt: int) {
    exists id | id in sessions :: sessions[id].eventId == eventId && sessions[id].startsAt == startsAt
  }

  predicate TimeTakenByOther(sessions: Sessions, me: SessionId, eventId: EventId, startsAt: int) {
    exists id | id in sessions :: id != me && sessions[id].eventId == eventId && sessions[id].startsAt == startsAt
  }

  // ----- Creation -----

  function CreateSession(st: Store, id: SessionId, eventId: EventId, startsAt: DateArg, endsAt: DateArg,
                         capacity: Option<int>): (Sessions, Outcome) {
    if eventId !in st.events then (st.sessions, Failed(NotFound))
    else if st.events[eventId].source != MANUAL then (st.sessions, Failed(SessionLocked(IMPORTED)))
    else if !startsAt.At? || endsAt.Invalid? then (st.sessions, Failed(BadRequest))
    else if startsAt.time < st.clock then (st.sessions, Failed(SessionLocked(PAST)))
    else if id in st.sessions || TimeTaken(st.sessions, eventId, startsAt.time) then (st.sessions, Failed(Conflict))
    else
      var s := Session(eventId, None, startsAt.time, if endsAt.At? then Some(endsAt.time) else None,
                       capacity.OrElse(st.events[eventId].defaultCapacity), true, None, None);
      (st.sessions[id := s], Done)
  }

  datatype Slot = Slot(id: SessionId, startsAt: DateArg, capacity: Option<int>, isActive: Option<bool>)

  datatype SkipReason = SkipInvalid | SkipPast | SkipDuplicate

  /** Why a slot of a batch is passed over, if it is. */
  function SkipOf(st: Store, eventId: EventId, slot: Slot): Option<SkipReason> {
    if !slot.startsAt.At? then Some(SkipInvalid)
    else if slot.startsAt.time < st.clock then Some(SkipPast)
    else if TimeTaken(st.sessions, eventId, slot.startsAt.time) then Some(SkipDuplicate)
    else None
  }

  function Wanted(st: Store, eventId: EventId, slots: seq<Slot>): (wanted: seq<Slot>)
    ensures forall s | s in wanted :: s in slots && SkipOf(st, eventId, s).None?
  {
    if slots == [] then []
    else (if SkipOf(st, eventId, slots[0]).None? then [slots[0]] else []) + Wanted(st, eventId, slots[1..])
  }

  function SlotSession(e: Event, eventId: EventId, slot: Slot): Session
    requires slot.startsAt.At?
  {
    Session(eventId, None, slot.startsAt.time, None, slot.capacity.OrElse(e.defaultCapacity),
            slot.isActive.GetOr(true), None, None)
  }

  /** The rows of a batch inserted one after the other; None when a unique key refuses one of them. */
  function Insert(sessions: Sessions, e: Event, eventId: EventId, slots: seq<Slot>): Option<Sessions>
    requires forall s | s in slots :: s.startsAt.At?
    decreases slots
  {
    if slots == [] then Some(sessions)
    else if slots[0].id in sessions || TimeTaken(sessions, eventId, slots[0].startsAt.time) then None
    else Insert(sessions[slots[0].id := SlotSession(e, eventId, slots[0])], e, eventId, slots[1..])
  }

  const MAX_SLOTS := 200

  function BatchCreateSessions(st: Store, eventId: EventId, slots: seq<Slot>): (Sessions, Outcome) {
    if eventId !in st.events then (st.sessions, Failed(NotFound))
    else if st.events[eventId].source != MANUAL then (st.sessions, Failed(SessionLocked(IMPORTED)))
    else if slots == [] || |slots| > MAX_SLOTS then (st.sessions, Failed(BadRequest))
    else
      var r := Insert(st.sessions, st.events[eventId], eventId, Wanted(st, eventId, slots));
      if r.Some? then (r.value, Done) else (st.sessions, Failed(Conflict))
  }

  // ----- Changes to one session -----

  function Rescheduled(s: Session, startsAt: DateArg, endsAt: Change, capacity: Change): Session {
    s.(startsAt := if startsAt.At? then startsAt.time else s.startsAt,
       endsAt := if endsAt.SetTo? then Some(endsAt.value) else if endsAt.Clear? then None else s.endsAt,
       capacity := if capacity.SetTo? then Some(capacity.value) else if capacity.Clear? then None else s.capacity)
  }

  function UpdateSession(st: Store, id: SessionId, startsAt: DateArg, endsAt: Change, capacity: Change): (Sessions, Outcome) {
    var lock := FindLock(st, id);
    if lock.Some? then (st.sessions, Failed(lock.value))
    else if startsAt.Invalid? || endsAt.Unreadable? then (st.sessions, Failed(BadRequest))
    else if capacity.SetTo? && capacity.value < SoldCount(st, id) then (st.sessions, Failed(SessionLocked(SOLD)))
    else
      var s := Rescheduled(st.sessions[id], startsAt, endsAt, capacity);
      if TimeTakenByOther(st.sessions, id, s.eventId, s.startsAt) then (st.sessions, Failed(Conflict))
      else (st.sessions[id := s], Done)
  }

  function Cancelled(s: Session, at: int, reason: Option<string>): Session {
    s.(isActive := false, canceledAt := Some(at), cancelReason := reason)
  }

  function StopSession(st: Store, id: SessionId, reason: Option<string>): (Sessions, Outcome) {
    var lock := FindLock(st, id);
    if lock.Some? then (st.sessions, Failed(lock.value))
    else (st.sessions[id := Cancelled(st.sessions[id], st.clock, reason)], Done)
  }

  /** The reason of a cancellation, trimmed; a blank one is no reason. */
  function CancelReason(reason: Option<string>): Option<string> {
    var r := Tidy.Trim(reason.GetOr(""), IsSpace);
    if r == "" then None else Some(r)
  }

  /** The error `cancelSession` answers with after reading, if any. */
  function CancelRefusal(s: Session, e: Event, sold: nat, clock: int): Option<Error> {
    if e.source != MANUAL then Some(SessionLocked(IMPORTED))
    else if s.startsAt < clock then Some(SessionLocked(PAST))
    else if sold > 0 then Some(SessionLocked(SOLD))
    else None
  }

  /** The conditional write of `cancelSession`: it matches only a session that is not cancelled. */
  function CancelWrite(sessions: Sessions, id: SessionId, at: int, reason: Option<string>): Sessions {
    if id in sessions && sessions[id].canceledAt.None? then sessions[id := Cancelled(sessions[id], at, reason)]
    else sessions
  }

  function CancelSession(st: Store, id: SessionId, reason: Option<string>): (Sessions, Outcome) {
    var found := SessionWithEvent(st, id);
    if found.None? then (st.sessions, Failed(NotFound))
    else
      var refusal := CancelRefusal(found.value.0, found.value.1, SoldCount(st, id), st.clock);
      if refusal.Some? then (st.sessions, Failed(refusal.value))
      else (CancelWrite(st.sessions, id, st.clock, CancelReason(reason)), Done)
  }

  /** A session that a package item refers to cannot be deleted. */
  function DeleteSession(st: Store, id: SessionId): (Sessions, Outcome) {
    var lock := FindLock(st, id);
    if lock.Some? then (st.sessions, Failed(lock.value))
    else if id in st.ticketed then (st.sessions, Failed(Conflict))
    else (st.sessions - {id}, Done)
  }

  // ----- Pausing and resuming in bulk -----

  datatype BulkError = BulkImported | BulkCancelled | BulkPast | BulkSoldOut | BulkNotFound

  datatype BulkResult = BulkResult(id: SessionId, error: Option<BulkError>)

  function BulkErrorOf(st: Store, id: SessionId, pause: bool): Option<BulkError> {
    var found := SessionWithEvent(st, id);
    if found.None? then Some(BulkNotFound)
    else
      var (s, e) := found.value;
      var capacity := s.capacity.OrElse(e.defaultCapacity);
      if e.source != MANUAL then Some(BulkImported)
      else if s.canceledAt.Some? then Some(BulkCancelled)
      else if s.startsAt < st.clock then Some(BulkPast)
      else if pause && capacity.Some? && capacity.value > 0 && SoldCount(st, id) >= capacity.value then Some(BulkSoldOut)
      else None
  }

  function BulkOne(st: Store, id: SessionId, pause: bool): Sessions {
    if BulkErrorOf(st, id, pause).Some? || id !in st.sessions then st.sessions
    else st.sessions[id := st.sessions[id].(isActive := !pause)]
  }

  function BulkAll(st: Store, ids: seq<SessionId>, pause: bool): Sessions
    decreases ids
  {
    if ids == [] then st.sessions
    else BulkAll(st.(sessions := BulkOne(st, ids[0], pause)), ids[1..], pause)
  }

  const MAX_BULK := 100

  /** The distinct trimmed ids that are not empty, in order of appearance. */
  function DistinctIds(ids: seq<string>): seq<SessionId> {
    if ids == [] then []
    else
      var before, id := DistinctIds(ids[..|ids| - 1]), Tidy.Trim(ids[|ids| - 1], IsSpace);
      if id == "" || id in before then before else before + [id]
  }

  function BulkIds(ids: seq<string>): seq<SessionId> {
    var unique := DistinctIds(ids);
    if |unique| <= MAX_BULK then unique else unique[..MAX_BULK]
  }

  function BulkSessions(st: Store, ids: seq<string>, pause: bool): (Sessions, Outcome) {
    if BulkIds(ids) == [] then (st.sessions, Failed(BadRequest)) else (BulkAll(st, BulkIds(ids), pause), Done)
  }

  // ----- The row an administrator sees -----

  datatype Row = Row(
    startsAt: int, endsAt: Option<int>, capacity: Option<int>, sold: nat, locked: bool, lockReason: Option<LockReason>,
    isCancelled: bool, canceledAt: Option<int>, cancelReason: Option<string>)

  function BuildRow(s: Session, e: Event, sold: nat, clock: int): Row {
    var reason :=
      if sold > 0 then Some(SOLD)
      else if s.startsAt < clock then Some(PAST)
      else if e.source != MANUAL then Some(IMPORTED)
      else None;
    Row(s.startsAt, s.endsAt, s.capacity.OrElse(e.defaultCapacity), sold, reason.Some?, reason,
        s.canceledAt.Some?, s.canceledAt, s.cancelReason)
  }
}
