/** The batch archive of imported events with other requests between its read and its write. */
module ArchiveProofs {
  import opened Catalogue
  import opened Runs
  import Archive
  import Calendar

  /**
    Whatever happens between the candidate query in `read` and the write, no event is deactivated
    that has an active session in the future of the write, that belongs to another source or that
    was not requested; and the write changes nothing else.
   */
  lemma ArchiveAfterAnything(read: Store, steps: seq<Step>, ids: seq<EventId>, source: Source, id: EventId)
    requires id in Run(read, steps).events
    ensures var st := Run(read, steps);
            var after := Archive.ArchiveWrite(st, ids, source, read.clock);
            && id in after && after[id] == st.events[id].(isActive := after[id].isActive)
            && (st.events[id].isActive && !after[id].isActive ==>
                  && id in ids && st.events[id].source == source && !st.events[id].isDeleted
                  && !Archive.HasFutureSession(st.sessions, id, st.clock))
  {
    ClockAdvances(read, steps);
    Archive.WriteIsSafe(Run(read, steps), ids, source, read.clock, id);
  }

  /**
    A whole request, with anything in between its read and its write, deactivates an event exactly
    when it asked for Teplohod by name, its plan was small enough, its query had returned the event,
    all of whose sessions had started before the threshold then, and the event is still active, live,
    of that source and without an active session ahead of the read.
   */
  lemma RequestArchivesIff(read: Store, rows: seq<EventId>, text: string, olderThanDays: int, steps: seq<Step>, id: EventId)
    requires id in Run(read, steps).events
    ensures var st := Run(read, steps);
            var after := Archive.ArchiveRequest(read, rows, text, olderThanDays, st);
            && id in after && after[id] == st.events[id].(isActive := after[id].isActive)
            && (st.events[id].isActive && !after[id].isActive
                <==> && Archive.UpperLatin(text) == "TEPLOHOD"
                     && Archive.ArchivePlan(read, rows, read.clock, olderThanDays).Some?
                     && id in rows
                     && Archive.EndedBefore(read.sessions, id, read.clock - olderThanDays * Calendar.MS_PER_DAY)
                     && Archive.IsCandidate(st, id, TEPLOHOD, read.clock))
            && (st.events[id].isActive && !after[id].isActive ==> !Archive.HasFutureSession(st.sessions, id, st.clock))
  {
    hide Archive.EndedBefore, Archive.HasFutureSession, Archive.UpperLatin;
    ClockAdvances(read, steps);
    var ids := Archive.ArchivePlan(read, rows, read.clock, olderThanDays);
    if ids.Some? && Archive.RequestedSource(text).0.Some? {
      Archive.WriteIsSafe(Run(read, steps), ids.value, Archive.RequestedSource(text).0.value, read.clock, id);
    }
  }

  /** A request for TICKETSCLOUD passes the check of the endpoint, but archives no event, whatever it finds. */
  lemma TicketscloudArchivesNothing(read: Store, rows: seq<EventId>, text: string, olderThanDays: int, at: Store)
    requires Archive.UpperLatin(text) == "TICKETSCLOUD"
    ensures Archive.RequestedSource(text).1 == Failed(Conflict)
    ensures Archive.ArchiveRequest(read, rows, text, olderThanDays, at) == at.events
  {
    assert forall name: string | name == "TICKETSCLOUD" :: Archive.EventSourceNamed(name).None?;
  }
}
