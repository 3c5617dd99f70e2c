/**
  Batch archiving of imported events (packages/backend/src/admin/admin-events.controller.ts).  The
  endpoint reads the candidates, writes later, and reads once more for its report; other requests
  may come in between.  `since` is the time the request took when it started.
 */
module Archive {
  import opened Prelude
  import opened Catalogue
  import opened Calendar
  import Letters

  function UpperLatin(s: string): string {
    seq(|s|, i requires 0 <= i < |s| => if 'a' <= s[i] <= 'z' then (s[i] as int - 32) as char else s[i])
  }

  /** The source of events with the name, as the schema names them; a query for another name fails. */
  function EventSourceNamed(name: string): Option<Source> {
    if name == "TC" then Some(TC)
    else if name == "TEPLOHOD" then Some(TEPLOHOD)
    else if name == "MANUAL" then Some(MANUAL)
    else None
  }

  /** The source a request asks for: first the check of the endpoint, then the query of the database. */
  function RequestedSource(text: string): (Option<Source>, Outcome) {
    var name := UpperLatin(text);
    if name != "TICKETSCLOUD" && name != "TEPLOHOD" then (None, Failed(BadRequest))
    else if EventSourceNamed(name).None? then (None, Failed(Conflict))
    else (EventSourceNamed(name), Done)
  }

  predicate HasFutureSession(sessions: Sessions, id: EventId, since: int) {
    exists s | s in sessions :: sessions[s].eventId == id && sessions[s].startsAt > since && sessions[s].isActive
  }

  predicate IsCandidate(st: Store, id: EventId, source: Source, since: int) {
    && id in st.events && !st.events[id].isDeleted && st.events[id].source == source && st.events[id].isActive
    && !HasFutureSession(st.sessions, id, since)
  }

  /** The event has sessions, and all of them start before the threshold. */
  predicate EndedBefore(sessions: Sessions, id: EventId, threshold: int) {
    && (exists s | s in sessions :: sessions[s].eventId == id)
    && forall s | s in sessions && sessions[s].eventId == id :: sessions[s].startsAt < threshold
  }

  const MAX_ARCHIVED := 1000

  function Filtered(sessions: Sessions, rows: seq<EventId>, threshold: int): (ids: seq<EventId>)
    ensures forall id :: id in ids <==> id in rows && EndedBefore(sessions, id, threshold)
  {
    if rows == [] then []
    else (if EndedBefore(sessions, rows[0], threshold) then [rows[0]] else []) + Filtered(sessions, rows[1..], threshold)
  }

  lemma FilteredFrom(sessions: Sessions, rows: seq<EventId>, i: nat, threshold: int)
    requires i < |rows|
    ensures Filtered(sessions, rows[i..], threshold)
         == (if EndedBefore(sessions, rows[i], threshold) then [rows[i]] else []) + Filtered(sessions, rows[i + 1..], threshold)
  {
    assert rows[i..][1..] == rows[i + 1..];
  }

  lemma FilteredNothing(sessions: Sessions, threshold: int)
    ensures Filtered(sessions, [], threshold) == []
  {
  }

  /** The ids to archive among the rows the candidate query returned, or None for too many of them. */
  function ArchivePlan(st: Store, rows: seq<EventId>, since: int, olderThanDays: int): Option<seq<EventId>> {
    var ids := Filtered(st.sessions, rows, since - olderThanDays * MS_PER_DAY);
    if |ids| > MAX_ARCHIVED then None else Some(ids)
  }

  /** The latest start of each row's sessions, as the grouped query gives it; nothing for a row without sessions. */
  predicate IsLastSessions(sessions: Sessions, rows: seq<EventId>, last: map<EventId, int>) {
    forall id | id in rows ::
      && (id in last ==> exists s | s in sessions :: sessions[s].eventId == id && sessions[s].startsAt == last[id])
      && (forall s | s in sessions && sessions[s].eventId == id :: id in last && sessions[s].startsAt <= last[id])
  }

  lemma EndedByLast(sessions: Sessions, rows: seq<EventId>, last: map<EventId, int>, id: EventId, threshold: int)
    requires IsLastSessions(sessions, rows, last) && id in rows
    ensures EndedBefore(sessions, id, threshold) <==> id in last && last[id] < threshold
  {
  }

  function ArchiveWrite(st: Store, ids: seq<EventId>, source: Source, since: int): Events {
    map id | id in st.events ::
      if id in ids && IsCandidate(st, id, source, since) then st.events[id].(isActive := false) else st.events[id]
  }

  /**
    The event table after a request that read the tables in `read`, where its query returned `rows`,
    and that writes when they are as in `at`.
   */
  function ArchiveRequest(read: Store, rows: seq<EventId>, text: string, olderThanDays: int, at: Store): Events {
    var source, ids := RequestedSource(text).0, ArchivePlan(read, rows, read.clock, olderThanDays);
    if source.None? || ids.None? then at.events else ArchiveWrite(at, ids.value, source.value, read.clock)
  }

  // STILL_ACTIVE is the answer's reason OTHER.
  datatype Reason = FUTURE_SESSIONS | NOT_FOUND | STILL_ACTIVE

  /** Why the report lists an id as skipped; None when it lists it as archived. */
  function SkippedFor(st: Store, id: EventId, since: int): Option<Reason> {
    if id !in st.events then Some(NOT_FOUND)
    else if HasFutureSession(st.sessions, id, since) then Some(FUTURE_SESSIONS)
    else if !st.events[id].isActive then None
    else Some(STILL_ACTIVE)
  }

  /**
    The write deactivates exactly the requested events that are still active, live and of the
    source and have no active session after `since`; so none with a session in the future of the
    write.  It changes nothing else.
   */
  lemma WriteIsSafe(st: Store, ids: seq<EventId>, source: Source, since: int, id: EventId)
    requires since <= st.clock && id in st.events
    ensures var after := ArchiveWrite(st, ids, source, since);
            && id in after && after.Keys == st.events.Keys
            && after[id] == st.events[id].(isActive := after[id].isActive)
            && (st.events[id].isActive && !after[id].isActive <==> id in ids && IsCandidate(st, id, source, since))
            && (st.events[id].isActive && !after[id].isActive ==> !HasFutureSession(st.sessions, id, st.clock))
  {
  }

  /** The report lists each requested id once, as archived or as skipped. */
  method Report(st: Store, ids: seq<EventId>, since: int) returns (archived: seq<EventId>, skipped: seq<(EventId, Reason)>)
    ensures |archived| + |skipped| == |ids|
    ensures forall id :: id in archived <==> id in ids && SkippedFor(st, id, since).None?
    ensures forall id, r :: (id, r) in skipped <==> id in ids && SkippedFor(st, id, since) == Some(r)
  {
    archived, skipped := [], [];
    for i := 0 to |ids|
      invariant |archived| + |skipped| == i
      invariant forall id :: id in archived <==> id in ids[..i] && SkippedFor(st, id, since).None?
      invariant forall id, r :: (id, r) in skipped <==> id in ids[..i] && SkippedFor(st, id, since) == Some(r)
    {
      var id := ids[i];
      assert ids[..i + 1] == ids[..i] + [id];
      if id !in st.events {
        skipped := skipped + [(id, NOT_FOUND)];
      } else if HasFutureSession(st.sessions, id, since) {
        skipped := skipped + [(id, FUTURE_SESSIONS)];
      } else if !st.events[id].isActive {
        archived := archived + [id];
      } else {
        skipped := skipped + [(id, STILL_ACTIVE)];
      }
    }
    assert ids[..|ids|] == ids;
  }

  // ----- The terms of a batch archive -----

  /** Only small Latin letters are changed. */
  lemma UpperLatinIs(s: string, i: nat)
    requires i < |s|
    ensures |UpperLatin(s)| == |s|
    ensures UpperLatin(s)[i] == if s[i] in Letters.LATIN_SMALL then Letters.Upper(s[i]) else s[i]
  {
    Letters.LatinLetters(s[i]);
  }

  lemma SourcesOfRequests(text: string)
    ensures var name, (source, answer) := UpperLatin(text), RequestedSource(text);
            && (answer == Failed(BadRequest) <==> name != "TEPLOHOD" && name != "TICKETSCLOUD")
            && (answer == Failed(Conflict) <==> name == "TICKETSCLOUD")
            && (answer.Done? <==> name == "TEPLOHOD")
            && source == if name == "TEPLOHOD" then Some(TEPLOHOD) else None
    ensures EventSourceNamed("TC") == Some(TC) && EventSourceNamed("MANUAL") == Some(MANUAL)
  {
  }

  /** Of the rows of the query exactly those that have ended are kept, in their order. */
  lemma {:induction false} KeptInOrder(sessions: Sessions, a: seq<EventId>, b: seq<EventId>, threshold: int)
    ensures Filtered(sessions, a + b, threshold) == Filtered(sessions, a, threshold) + Filtered(sessions, b, threshold)
  {
    hide Filtered, EndedBefore;
    if a == [] {
      assert a + b == b;
      FilteredNothing(sessions, threshold);
    } else {
      FilteredFirst(sessions, a, threshold);
      FilteredFirst(sessions, a + b, threshold);
      KeptInOrder(sessions, a[1..], b, threshold);
      assert (a + b)[1..] == a[1..] + b;
    }
  }

  lemma FilteredFirst(sessions: Sessions, rows: seq<EventId>, threshold: int)
    requires rows != []
    ensures Filtered(sessions, rows, threshold)
         == (if EndedBefore(sessions, rows[0], threshold) then [rows[0]] else []) + Filtered(sessions, rows[1..], threshold)
  {
  }

  /** The threshold is so many days of twenty-four hours back, and more than a thousand events are too many. */
  lemma PlanIsLimited(st: Store, rows: seq<EventId>, since: int, olderThanDays: int)
    ensures var ended := Filtered(st.sessions, rows, since - olderThanDays * (24 * 60 * 60 * 1000));
            ArchivePlan(st, rows, since, olderThanDays) == if |ended| <= 1000 then Some(ended) else None
  {
  }

  /** An event has ended when it has sessions and all of them started before; one ahead is active and later. */
  lemma EndedAndAhead(sessions: Sessions, id: EventId, time: int)
    ensures EndedBefore(sessions, id, time)
       <==> && (exists s | s in sessions :: sessions[s].eventId == id)
            && (forall s | s in sessions && sessions[s].eventId == id :: sessions[s].startsAt < time)
    ensures HasFutureSession(sessions, id, time)
       <==> !forall s | s in sessions && sessions[s].eventId == id && sessions[s].isActive :: sessions[s].startsAt <= time
  {
  }

  /** The events that the write takes off sale, and that it changes nothing else. */
  lemma WriteTakesOffSale(st: Store, ids: seq<EventId>, source: Source, since: int, id: EventId)
    requires id in st.events
    ensures var (e, f) := (st.events[id], ArchiveWrite(st, ids, source, since)[id]);
            var off := && id in ids && e.isActive && !e.isDeleted && e.source == source
                       && forall s | s in st.sessions && st.sessions[s].eventId == id && st.sessions[s].isActive ::
                            st.sessions[s].startsAt <= since;
            && f.isActive == (e.isActive && !off)
            && f.source == e.source && f.slug == e.slug && f.groupingKey == e.groupingKey && f.canonicalOf == e.canonicalOf
            && f.createdAt == e.createdAt && f.isDeleted == e.isDeleted && f.defaultCapacity == e.defaultCapacity
  {
  }

  /** What the report says of an id: missing before ahead before archived. */
  lemma WhyReported(st: Store, id: EventId, since: int)
    ensures SkippedFor(st, id, since) == Some(NOT_FOUND) <==> id !in st.events
    ensures var ahead := exists s | s in st.sessions ::
                           st.sessions[s].eventId == id && st.sessions[s].isActive && st.sessions[s].startsAt > since;
            && (SkippedFor(st, id, since) == Some(FUTURE_SESSIONS) <==> id in st.events && ahead)
            && (SkippedFor(st, id, since).None? <==> id in st.events && !ahead && !st.events[id].isActive)
            && (SkippedFor(st, id, since) == Some(STILL_ACTIVE) <==> id in st.events && !ahead && st.events[id].isActive)
  {
  }
}
