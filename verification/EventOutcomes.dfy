/**
  What each endpoint of events answers and writes
  (packages/backend/src/admin/admin-events.controller.ts): the requests that succeed, the answer to
  each other one, and the new rows field by field.
 */
module EventOutcomes {
  import opened Prelude
  import opened Catalogue
  import EventSteps
  import Groups
  import Letters
  import OfferSteps
  import Slug
  import Tidy

  predicate Live(events: Events, id: EventId) {
    id in events && !events[id].isDeleted
  }

  predicate SlugInUse(events: Events, slug: string) {
    exists x | x in events :: events[x].slug == slug
  }

  /** The table has the same events, and all but one are as they were. */
  predicate OnlyEvent(events: Events, after: Events, id: EventId) {
    after.Keys == events.Keys && forall x | x in events && x != id :: after[x] == events[x]
  }

  /** The two rows are the same but for slug, group and pointer. */
  predicate SameBut(e: Event, f: Event) {
    && f.source == e.source && f.createdAt == e.createdAt && f.isActive == e.isActive && f.isDeleted == e.isDeleted
    && f.defaultCapacity == e.defaultCapacity
  }

  lemma CreateAnswers(st: Store, id: EventId, title: string, cityKnown: bool, locationKnown: bool,
                      offer: Option<(OfferId, Source)>)
    ensures var r := EventSteps.CreateEvent(st, id, title, cityKnown, locationKnown, offer).1;
            var taken := SlugInUse(st.events, Slug.AdminTransliterate(title));
            var clash := id in st.events || (offer.Some? && offer.value.0 in st.offers);
            && (r == Failed(BadRequest) <==> taken || (cityKnown && !locationKnown))
            && (r == Failed(NotFound) <==> !taken && !cityKnown)
            && (r == Failed(Conflict) <==> !taken && cityKnown && locationKnown && clash)
            && (r.Done? <==> !taken && cityKnown && locationKnown && !clash)
  {
    hide Slug.AdminTransliterate;
  }

  /** A new event is manual and active, in no group, without pointer or default, and its offer is active. */
  lemma CreateWrites(st: Store, id: EventId, title: string, cityKnown: bool, locationKnown: bool,
                     offer: Option<(OfferId, Source)>)
    requires EventSteps.CreateEvent(st, id, title, cityKnown, locationKnown, offer).1.Done?
    ensures var after := EventSteps.CreateEvent(st, id, title, cityKnown, locationKnown, offer).0;
            && after.events.Keys == st.events.Keys + {id} && (forall x | x in st.events :: after.events[x] == st.events[x])
            && var e := after.events[id];
               && e.source == MANUAL && e.slug == Slug.AdminTransliterate(title) && e.isActive && !e.isDeleted
               && e.groupingKey.None? && e.canonicalOf.None? && e.createdAt == st.clock && e.defaultCapacity.None?
    ensures var after := EventSteps.CreateEvent(st, id, title, cityKnown, locationKnown, offer).0;
            && after.offers.Keys == st.offers.Keys + (if offer.Some? then {offer.value.0} else {})
            && (forall o | o in st.offers :: after.offers[o] == st.offers[o])
            && (offer.Some? ==>
                  var o := after.offers[offer.value.0];
                  o.eventId == id && o.source == offer.value.1 && o.isPrimary && o.status == ACTIVE && !o.isDeleted)
            && after.sessions == st.sessions && after.sold == st.sold && after.ticketed == st.ticketed && after.clock == st.clock
  {
    hide Slug.AdminTransliterate;
  }

  /** A copy is a new manual event of the same group and default, inactive and without pointer. */
  lemma CopyWrites(events: Events, clock: int, id: EventId, copyId: EventId)
    ensures var (after, r) := EventSteps.DuplicateEvent(events, clock, id, copyId);
            && (r == Failed(NotFound) <==> !Live(events, id))
            && (r == Failed(Conflict) <==> Live(events, id) && copyId in events)
            && if Live(events, id) && copyId !in events
               then && r.Done? && after.Keys == events.Keys + {copyId} && (forall x | x in events :: after[x] == events[x])
                    && var e := after[copyId];
                       && e.source == MANUAL && e.groupingKey == events[id].groupingKey && e.canonicalOf.None?
                       && e.createdAt == clock && !e.isActive && !e.isDeleted && e.defaultCapacity == events[id].defaultCapacity
               else after == events
  {
    hide Slug.FirstFree;
  }

  /** Renaming changes the slug of the event and nothing else; a text without letters or digits is refused. */
  lemma RenameWrites(events: Events, id: EventId, text: string)
    ensures var (after, r) := EventSteps.UpdateEventSlug(events, id, text);
            && (r == Failed(BadRequest) <==> Slug.AdminTransliterate(text) == "")
            && (r == Failed(NotFound) <==> Slug.AdminTransliterate(text) != "" && id !in events)
            && if Slug.AdminTransliterate(text) != "" && id in events
               then && r.Done? && OnlyEvent(events, after, id) && SameBut(events[id], after[id])
                    && after[id].groupingKey == events[id].groupingKey && after[id].canonicalOf == events[id].canonicalOf
               else after == events
  {
    hide Slug.FirstFree, Slug.AdminTransliterate;
  }

  /** Marking sets the pointer of the event and nothing else. */
  lemma MarkWrites(events: Events, id: EventId, target: EventId)
    ensures var (after, r) := EventSteps.MarkDuplicate(events, id, target);
            && (r == Failed(BadRequest) <==> target == "" || id == target)
            && (r == Failed(NotFound) <==> target != "" && id != target && (target !in events || id !in events))
            && if target != "" && id != target && target in events && id in events
               then && r.Done? && OnlyEvent(events, after, id) && SameBut(events[id], after[id])
                    && after[id].canonicalOf == Some(target)
                    && after[id].slug == events[id].slug && after[id].groupingKey == events[id].groupingKey
               else after == events
  {
  }

  /** Regrouping sets the key, and drops the pointer exactly when the key is another one. */
  lemma RegroupWrites(events: Events, id: EventId, text: string)
    ensures var (after, r) := EventSteps.UpdateEventGrouping(events, id, text);
            var key := Tidy.Trim(text, Letters.IsSpace);
            && (r == Failed(BadRequest) <==> key == "")
            && (r == Failed(NotFound) <==> key != "" && !Live(events, id))
            && if key != "" && Live(events, id)
               then && r.Done? && OnlyEvent(events, after, id) && SameBut(events[id], after[id])
                    && after[id].groupingKey == Some(key) && after[id].slug == events[id].slug
                    && after[id].canonicalOf == if events[id].groupingKey == Some(key) then events[id].canonicalOf else None
               else after == events
  {
    hide Tidy.Trim;
  }

  lemma UngroupWrites(events: Events, id: EventId)
    ensures var (after, r) := EventSteps.ClearEventGrouping(events, id);
            if Live(events, id)
            then && r.Done? && OnlyEvent(events, after, id) && SameBut(events[id], after[id])
                 && after[id].groupingKey.None? && after[id].canonicalOf.None? && after[id].slug == events[id].slug
            else r == Failed(NotFound) && after == events
  {
  }

  /** Crowning points every other event of the group at the event, deleted ones too, and clears its own pointer. */
  lemma CrownWrites(events: Events, id: EventId, x: EventId)
    requires x in events
    ensures var (after, r) := EventSteps.MakeEventCanonical(events, id);
            && (r == Failed(NotFound) <==> !Live(events, id))
            && (r == Failed(BadRequest) <==> Live(events, id) && events[id].groupingKey.GetOr("") == "")
            && (!r.Done? ==> after == events)
            && after.Keys == events.Keys && SameBut(events[x], after[x])
            && after[x].slug == events[x].slug && after[x].groupingKey == events[x].groupingKey
            && after[x].canonicalOf
            == if !r.Done? then events[x].canonicalOf
               else if x == id then None
               else if events[x].groupingKey == events[id].groupingKey then Some(id)
               else events[x].canonicalOf
  {
  }

  /** Archiving and activating change nothing but the activity, and only imported events are archived. */
  lemma ActivityWrites(events: Events, id: EventId, on: bool)
    ensures var (after, r) := EventSteps.SetArchived(events, id, !on);
            && (r == Failed(NotFound) <==> id !in events)
            && (r == Failed(BadRequest) <==> id in events && events[id].source == MANUAL)
            && if id in events && events[id].source != MANUAL
               then r.Done? && OnlyEvent(events, after, id) && Switched(events[id], after[id], on)
               else after == events
    ensures var (after, r) := EventSteps.UpdateActivation(events, id, on);
            if id in events then r.Done? && OnlyEvent(events, after, id) && Switched(events[id], after[id], on)
            else r == Failed(NotFound) && after == events
  {
  }

  predicate Switched(e: Event, f: Event, on: bool) {
    && f.isActive == on && f.slug == e.slug && f.groupingKey == e.groupingKey && f.canonicalOf == e.canonicalOf
    && f.source == e.source && f.createdAt == e.createdAt && f.isDeleted == e.isDeleted
    && f.defaultCapacity == e.defaultCapacity
  }

  /** A bulk change touches the live events it names: a deletion takes them off sale, else the activity is set if given. */
  lemma BulkWrites(events: Events, ids: set<EventId>, hasCategory: bool, isActive: Option<bool>, softDelete: bool, x: EventId)
    requires x in events
    ensures var (after, r) := EventSteps.BulkUpdateEvents(events, ids, hasCategory, isActive, softDelete);
            var asked := ids != {} && (hasCategory || isActive.Some? || softDelete);
            && (if asked then r.Done? else r == Failed(BadRequest) && after == events)
            && after.Keys == events.Keys
            && after[x].isDeleted == (events[x].isDeleted || (asked && x in ids && softDelete))
            && after[x].isActive == (if !asked || x !in ids || events[x].isDeleted then events[x].isActive
                                     else if softDelete then false
                                     else if isActive.Some? then isActive.value else events[x].isActive)
            && after[x].slug == events[x].slug && after[x].groupingKey == events[x].groupingKey
            && after[x].canonicalOf == events[x].canonicalOf && after[x].source == events[x].source
            && after[x].createdAt == events[x].createdAt && after[x].defaultCapacity == events[x].defaultCapacity
  {
  }

  // ----- The view of a group -----

  /** What an administrator is told of the group of an event. */
  lemma GroupAnswers(events: Events, id: EventId, rows: seq<EventId>)
    requires forall x | x in rows :: x in events
    ensures var view := Groups.GetEventGroup(events, id, rows);
            && (view.None? <==> !Live(events, id))
            && (view.Some? && events[id].groupingKey.GetOr("") == "" ==>
                  view.value.groupingKey.None? && !view.value.isCanonical && view.value.canonicalEventId.None? && view.value.items == [])
            && (view.Some? && events[id].groupingKey.GetOr("") != "" ==>
                  && view.value.groupingKey == events[id].groupingKey && view.value.items == rows
                  && view.value.canonicalEventId.Some?
                  && (view.value.isCanonical <==> view.value.canonicalEventId == Some(id))
                  && (if rows == [] then view.value.canonicalEventId == Some(id)
                      else IsCanonicalOf(events, rows, view.value.canonicalEventId.value)))
  {
    hide Groups.Canonical;
    if rows != [] {
      CanonicalIs(events, rows);
    }
  }

  /** The first row without a pointer; if all have one, the first of the rows created earliest. */
  ghost predicate IsCanonicalOf(events: Events, rows: seq<EventId>, c: EventId)
    requires forall x | x in rows :: x in events
  {
    exists i | 0 <= i < |rows| ::
      && rows[i] == c
      && if events[c].canonicalOf.None? then forall j | 0 <= j < i :: events[rows[j]].canonicalOf.Some?
         else && (forall j | 0 <= j < |rows| :: events[rows[j]].canonicalOf.Some?)
              && (forall j | 0 <= j < i :: events[rows[j]].createdAt > events[c].createdAt)
              && (forall j | i <= j < |rows| :: events[rows[j]].createdAt >= events[c].createdAt)
  }

  lemma CanonicalIs(events: Events, rows: seq<EventId>)
    requires rows != [] && forall x | x in rows :: x in events
    ensures IsCanonicalOf(events, rows, Groups.Canonical(events, rows))
  {
    FirstWithoutIs(events, rows);
    var i := EarliestIs(events, rows);
    if Groups.FirstWithoutPointer(events, rows).Some? {
      var k :| 0 <= k < |rows| && rows[k] == Groups.FirstWithoutPointer(events, rows).value
               && forall j | 0 <= j < k :: events[rows[j]].canonicalOf.Some?;
    } else {
      assert rows[i] == Groups.Canonical(events, rows) && rows[i] in rows;
    }
  }

  lemma {:induction false} FirstWithoutIs(events: Events, rows: seq<EventId>)
    requires forall x | x in rows :: x in events
    ensures var first := Groups.FirstWithoutPointer(events, rows);
            if first.None? then forall j | 0 <= j < |rows| :: events[rows[j]].canonicalOf.Some?
            else exists i | 0 <= i < |rows| :: rows[i] == first.value && events[rows[i]].canonicalOf.None?
                                               && forall j | 0 <= j < i :: events[rows[j]].canonicalOf.Some?
  {
    if rows != [] {
      assert rows[0] in rows && forall x | x in rows[1..] :: x in rows;
      if events[rows[0]].canonicalOf.None? {
        assert rows[0] == Groups.FirstWithoutPointer(events, rows).value;
      } else {
        FirstWithoutIs(events, rows[1..]);
        var first := Groups.FirstWithoutPointer(events, rows[1..]);
        assert forall j | 0 < j < |rows| :: rows[j] == rows[1..][j - 1];
        if first.Some? {
          var i :| 0 <= i < |rows[1..]| && rows[1..][i] == first.value
                   && forall j | 0 <= j < i :: events[rows[1..][j]].canonicalOf.Some?;
          assert rows[i + 1] == first.value;
        }
      }
    }
  }

  lemma {:induction false} EarliestIs(events: Events, rows: seq<EventId>) returns (i: nat)
    requires rows != [] && forall x | x in rows :: x in events
    ensures i < |rows| && rows[i] == Groups.Earliest(events, rows)
    ensures forall j | 0 <= j < i :: events[rows[j]].createdAt > events[rows[i]].createdAt
    ensures forall j | i <= j < |rows| :: events[rows[j]].createdAt >= events[rows[i]].createdAt
  {
    if |rows| == 1 {
      i := 0;
    } else {
      var before := rows[..|rows| - 1];
      assert forall x | x in before :: x in rows;
      i := EarliestIs(events, before);
      assert rows[|rows| - 1] in rows;
      if events[rows[|rows| - 1]].createdAt < events[rows[i]].createdAt {
        forall j | 0 <= j < |rows| - 1
          ensures events[rows[j]].createdAt > events[rows[|rows| - 1]].createdAt
        {
          assert before[j] == rows[j];
        }
        i := |rows| - 1;
      }
    }
  }

  // ----- Who leads a group -----

  ghost predicate Once(rows: seq<EventId>) {
    forall i, j | 0 <= i < j < |rows| :: rows[i] != rows[j]
  }

  /** The events in the order of their creation, each once, and `last` after those created with it or before it. */
  ghost predicate Listed(events: Events, ids: set<EventId>, last: EventId, rows: seq<EventId>)
    requires forall x | x in ids :: x in events
  {
    && (forall x :: x in rows <==> x in ids) && Once(rows)
    && (forall i, j | 0 <= i < j < |rows| :: events[rows[i]].createdAt <= events[rows[j]].createdAt)
    && (forall i, j | 0 <= i < j < |rows| && rows[i] == last :: events[rows[j]].createdAt > events[last].createdAt)
  }

  lemma {:induction false} Youngest(events: Events, ids: set<EventId>, last: EventId) returns (m: EventId)
    requires ids != {} && forall x | x in ids :: x in events
    ensures m in ids && forall x | x in ids :: events[x].createdAt <= events[m].createdAt
    ensures m != last && last in ids ==> events[m].createdAt > events[last].createdAt
  {
    m :| m in ids;
    var rest := ids - {m};
    assert forall x :: x in ids <==> x in rest || x == m;
    if rest != {} {
      var n := Youngest(events, rest, last);
      if events[n].createdAt > events[m].createdAt || (events[n].createdAt == events[m].createdAt && m != last) {
        m := n;
      }
    }
  }

  lemma Appended(events: Events, ids: set<EventId>, last: EventId, before: seq<EventId>, m: EventId) returns (rows: seq<EventId>)
    requires (forall x | x in ids :: x in events) && m in ids && Listed(events, ids - {m}, last, before)
    requires forall x | x in ids :: events[x].createdAt <= events[m].createdAt
    requires m != last && last in ids ==> events[m].createdAt > events[last].createdAt
    ensures Listed(events, ids, last, rows)
  {
    rows := before + [m];
    assert forall x :: x in rows <==> x in before || x == m;
    forall i | 0 <= i < |before|
      ensures rows[i] == before[i] && rows[i] in ids && rows[i] != m
    {
      assert before[i] in before && before[i] in ids - {m};
    }
  }

  lemma {:induction false} ListExists(events: Events, ids: set<EventId>, last: EventId) returns (rows: seq<EventId>)
    requires forall x | x in ids :: x in events
    ensures Listed(events, ids, last, rows)
  {
    if ids == {} {
      rows := [];
    } else {
      var m := Youngest(events, ids, last);
      var before := ListExists(events, ids - {m}, last);
      rows := Appended(events, ids, last, before, m);
    }
  }

  /** The event is a live member of the group and no duplicate of another one. */
  predicate HasNoPointer(events: Events, key: string, id: EventId) {
    Live(events, id) && events[id].groupingKey == Some(key) && events[id].canonicalOf.None?
  }

  /** An event without a pointer that some other such member is not younger than can be passed over by the query. */
  lemma PassedOver(events: Events, key: string, id: EventId, x: EventId) returns (rows: seq<EventId>)
    requires HasNoPointer(events, key, id) && HasNoPointer(events, key, x)
    requires x != id && events[x].createdAt <= events[id].createdAt
    ensures Groups.GroupRows(events, key, rows) && Once(rows) && id in rows && Groups.Canonical(events, rows) != id
  {
    var ids := set y | y in events && events[y].groupingKey == Some(key) && !events[y].isDeleted;
    rows := ListExists(events, ids, id);
    assert x in rows && id in rows;
    CanonicalIs(events, rows);
    hide Groups.Canonical;
  }

  /**
    An event without a pointer is older than all other such members of its group exactly when the
    view tells that it is canonical in whatever order the query returns ties.
   */
  lemma LeadsIffTold(events: Events, key: string, id: EventId)
    requires HasNoPointer(events, key, id) && key != ""
    ensures Groups.Leads(events, key, id)
       <==> forall rows | Groups.GroupRows(events, key, rows) && Once(rows) ::
              Groups.GetEventGroup(events, id, rows) == Some(Groups.GroupView(Some(key), true, Some(id), rows))
  {
    if Groups.Leads(events, key, id) {
      forall rows | Groups.GroupRows(events, key, rows) && Once(rows)
        ensures Groups.GetEventGroup(events, id, rows) == Some(Groups.GroupView(Some(key), true, Some(id), rows))
      {
        Groups.LeaderIsCanonical(events, key, id, id, rows);
      }
    } else {
      var x :| x != id && HasNoPointer(events, key, x) && events[x].createdAt <= events[id].createdAt;
      var rows := PassedOver(events, key, id, x);
    }
  }
}
