/**
  Writes that arrive late and are not checked again.  `updateSession`, `stopSession`, `deleteSession`
  and the bulk endpoint (packages/backend/src/admin/admin-events.controller.ts) check what they have
  read and then write without a condition, unlike `cancelSession`: a session cancelled in between is
  written all the same.
 */
module LateWrites {
  import opened Prelude
  import opened Catalogue
  import opened SessionSteps
  import opened Runs
  import SessionProofs

  datatype LateWrite =
    | UpdateWrite(updated: SessionId, startsAt: DateArg, endsAt: Change, capacity: Change)
    | StopWrite(stopped: SessionId, at: int, reason: Option<string>)
    | ActivityWrite(paused: SessionId, on: bool)
    | DeleteWrite(deleted: SessionId)

  /** The session table after a write; one that finds no row, or that a key forbids, does nothing. */
  function SessionsAfterLate(st: Store, write: LateWrite): Sessions {
    match write
    case UpdateWrite(id, startsAt, endsAt, capacity) =>
      if id !in st.sessions then st.sessions
      else
        var s := Rescheduled(st.sessions[id], startsAt, endsAt, capacity);
        if TimeTakenByOther(st.sessions, id, s.eventId, s.startsAt) then st.sessions else st.sessions[id := s]
    case StopWrite(id, at, reason) =>
      if id in st.sessions then st.sessions[id := Cancelled(st.sessions[id], at, reason)] else st.sessions
    case ActivityWrite(id, on) =>
      if id in st.sessions then st.sessions[id := st.sessions[id].(isActive := on)] else st.sessions
    case DeleteWrite(id) => if id in st.ticketed then st.sessions else st.sessions - {id}
  }

  /** The session is there with all its facts; only the event it is under may have changed. */
  predicate Keeps(sessions: Sessions, id: SessionId, facts: Session) {
    id in sessions && SessionProofs.Facts(sessions[id]) == facts
  }

  predicate Changes(s: Session, startsAt: DateArg, endsAt: Change, capacity: Change) {
    || (startsAt.At? && startsAt.time != s.startsAt)
    || (endsAt.Clear? && s.endsAt.Some?) || (endsAt.SetTo? && s.endsAt != Some(endsAt.value))
    || (capacity.Clear? && s.capacity.Some?) || (capacity.SetTo? && s.capacity != Some(capacity.value))
  }

  /** The write changes the session although it is cancelled. */
  predicate Undoes(st: Store, write: LateWrite, id: SessionId)
    requires id in st.sessions
  {
    var s := st.sessions[id];
    match write
    case UpdateWrite(x, startsAt, endsAt, capacity) =>
      && x == id && Changes(s, startsAt, endsAt, capacity)
      && !TimeTakenByOther(st.sessions, id, s.eventId, if startsAt.At? then startsAt.time else s.startsAt)
    case StopWrite(x, at, reason) => x == id && (s.canceledAt != Some(at) || s.cancelReason != reason)
    case ActivityWrite(x, on) => x == id && on
    case DeleteWrite(x) => x == id && id !in st.ticketed
  }

  /** A late write leaves a cancelled session alone exactly when it is not one that changes it. */
  lemma LateWriteKeepsIff(st: Store, write: LateWrite, id: SessionId)
    requires SessionProofs.Over(st.sessions, id)
    ensures Keeps(SessionsAfterLate(st, write), id, SessionProofs.Facts(st.sessions[id])) <==> !Undoes(st, write, id)
  {
    hide TimeTakenByOther;
  }

  // ----- Runs with late writes -----

  datatype Act = Endpoint(step: Step) | Late(write: LateWrite)

  function Next(st: Store, act: Act): Store {
    match act
    case Endpoint(step) => Apply(st, step)
    case Late(write) => st.(sessions := SessionsAfterLate(st, write))
  }

  predicate NeverUndone(st: Store, acts: seq<Act>, id: SessionId)
    decreases acts
  {
    || acts == []
    || (&& (acts[0].Late? ==> id in st.sessions && !Undoes(st, acts[0].write, id))
        && NeverUndone(Next(st, acts[0]), acts[1..], id))
  }

  predicate KeepsThroughout(st: Store, acts: seq<Act>, id: SessionId, facts: Session)
    decreases acts
  {
    && Keeps(st.sessions, id, facts)
    && (acts == [] || KeepsThroughout(Next(st, acts[0]), acts[1..], id, facts))
  }

  /**
    A cancellation is final, with its time and its reason, in every state of a run with late writes
    exactly when none of them changes the cancelled session.
   */
  lemma {:induction false} CancellationIsFinalIff(st: Store, acts: seq<Act>, id: SessionId)
    requires SessionProofs.Over(st.sessions, id)
    ensures KeepsThroughout(st, acts, id, SessionProofs.Facts(st.sessions[id])) <==> NeverUndone(st, acts, id)
    decreases acts
  {
    if acts != [] {
      var next := Next(st, acts[0]);
      match acts[0] {
        case Endpoint(step) =>
          assert Run(st, [step]) == Apply(st, step) by {
            assert Run(Apply(st, step), []) == Apply(st, step);
          }
          SessionProofs.CancellationIsFinal(st, id, [step]);
        case Late(write) => LateWriteKeepsIff(st, write, id);
      }
      hide Apply, SessionsAfterLate, Undoes;
      if Keeps(next.sessions, id, SessionProofs.Facts(st.sessions[id])) {
        CancellationIsFinalIff(next, acts[1..], id);
      }
    }
  }
}
