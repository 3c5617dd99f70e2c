/** What every run keeps of the event table: unique slugs, the forest of duplicates, group leaders. */
module EventProofs {
  import opened Prelude
  import opened Catalogue
  import opened Runs
  import EventSteps
  import OfferSteps
  import Groups
  import Archive
  import Slug
  import Tidy
  import Letters

  // ----- Slugs -----

  lemma FreeSlugIsFree(taken: set<string>, base: string)
    ensures Slug.FirstFree(taken, base, base, 2) !in taken
    ensures Slug.IsFirstFree(taken, base, base, 2, Slug.FirstFree(taken, base, base, 2))
  {
    Slug.FirstFreeIsFirst(taken, base, base, 2, Slug.FirstFree(taken, base, base, 2));
  }

  lemma AddedSlug(events: Events, id: EventId, e: Event)
    requires UniqueSlugs(events) && e.slug !in SlugsOfOthers(events, id)
    ensures UniqueSlugs(events[id := e])
  {
    forall x | x in events && x != id
      ensures events[x].slug != e.slug
    {
      assert events[x].slug in SlugsOfOthers(events, id);
    }
  }

  lemma SlugsSplit(events: Events, id: EventId)
    requires id !in events
    ensures SlugsOfOthers(events, id) == SlugsOf(events)
  {
  }

  lemma UniqueSlugsKept(st: Store, step: EventStep)
    requires UniqueSlugs(st.events)
    ensures UniqueSlugs(AfterEvent(st, step).events)
  {
    hide UniqueSlugs, Slug.FirstFree;
    match step
    case Create(id, title, _, _, _) =>
      if id !in st.events && Slug.AdminTransliterate(title) !in SlugsOf(st.events) {
        SlugsSplit(st.events, id);
        AddedSlug(st.events, id, Event(MANUAL, Slug.AdminTransliterate(title), None, None, st.clock, true, false, None));
      }
    case Duplicate(id, copyId) =>
      if EventSteps.DuplicateEvent(st.events, st.clock, id, copyId).1.Done? {
        SlugsSplit(st.events, copyId);
        FreeSlugIsFree(SlugsOf(st.events), st.events[id].slug + "-copy");
        AddedSlug(st.events, copyId, EventSteps.DuplicateEvent(st.events, st.clock, id, copyId).0[copyId]);
      }
    case Rename(id, text) =>
      if id in st.events {
        var base := Slug.AdminTransliterate(text);
        FreeSlugIsFree(SlugsOfOthers(st.events, id), base);
        AddedSlug(st.events, id, st.events[id].(slug := EventSteps.RenamedSlug(st.events, id, base)));
      }
    case _ => SameSlugs(st, step);
  }

  lemma SameSlugs(st: Store, step: EventStep)
    requires UniqueSlugs(st.events) && !step.Create? && !step.Duplicate? && !step.Rename?
    ensures UniqueSlugs(EventsAfter(st, step))
  {
    hide Archive.ArchiveWrite, EventSteps.BulkUpdateEvents, UniqueSlugs;
    var after := EventsAfter(st, step);
    assert after.Keys == st.events.Keys && forall id | id in after :: after[id].slug == st.events[id].slug by {
      KeepsSlugs(st, step);
    }
    assert UniqueSlugs(after) by {
      SlugwiseEqual(st.events, after);
    }
  }

  lemma SlugwiseEqual(events: Events, after: Events)
    requires UniqueSlugs(events) && after.Keys == events.Keys
    requires forall id | id in after :: after[id].slug == events[id].slug
    ensures UniqueSlugs(after)
  {
  }

  lemma KeepsSlugs(st: Store, step: EventStep)
    requires !step.Create? && !step.Duplicate? && !step.Rename?
    ensures var after := EventsAfter(st, step);
            after.Keys == st.events.Keys && forall id | id in after :: after[id].slug == st.events[id].slug
  {
  }

  /** Slugs are pairwise distinct in every state of every run. */
  lemma {:induction false} SlugsStayUnique(st: Store, steps: seq<Step>)
    requires UniqueSlugs(st.events)
    ensures UniqueSlugs(Run(st, steps).events)
    decreases steps
  {
    hide AfterEvent, AfterOffer, UniqueSlugs;
    if steps != [] {
      var after := Apply(st, steps[0]);
      match steps[0] {
        case OnEvents(e) => UniqueSlugsKept(st, e);
        case OnOffers(o) =>
          OfferStepFrame(st, o);
          SlugwiseEqual(st.events, after.events);
        case _ =>
      }
      SlugsStayUnique(after, steps[1..]);
    }
  }

  /** Renaming an event again with the same input changes nothing: the suffix does not drift. */
  lemma RenameTwice(events: Events, id: EventId, text: string)
    ensures var once := EventSteps.UpdateEventSlug(events, id, text);
            once.1.Done? ==> EventSteps.UpdateEventSlug(once.0, id, text) == once
  {
    var once := EventSteps.UpdateEventSlug(events, id, text).0;
    assert SlugsOfOthers(once, id) == SlugsOfOthers(events, id) by {
      forall s
        ensures s in SlugsOfOthers(once, id) <==> s in SlugsOfOthers(events, id)
      {
        if s in SlugsOfOthers(events, id) {
          var x :| x in events && x != id && events[x].slug == s;
          assert x in once && once[x].slug == s;
        }
      }
    }
    if EventSteps.UpdateEventSlug(events, id, text).1.Done? {
      assert once[id := once[id].(slug := once[id].slug)] == once;
    }
  }

  /** A copy or a renamed event gets the first free candidate: the base, or the base with -2, -3, ... */
  lemma AllocatedSlugIsFirstFree(events: Events, clock: int, id: EventId, copyId: EventId, text: string)
    ensures var r := EventSteps.DuplicateEvent(events, clock, id, copyId);
            r.1.Done? ==>
              Slug.IsFirstFree(SlugsOf(events), events[id].slug + "-copy", events[id].slug + "-copy", 2, r.0[copyId].slug)
    ensures var r := EventSteps.UpdateEventSlug(events, id, text);
            var base := Slug.AdminTransliterate(text);
            r.1.Done? ==> Slug.IsFirstFree(SlugsOfOthers(events, id), base, base, 2, r.0[id].slug)
  {
    hide Slug.IsFirstFree, Slug.FirstFree;
    if id in events {
      FreeSlugIsFree(SlugsOf(events), events[id].slug + "-copy");
      FreeSlugIsFree(SlugsOfOthers(events, id), Slug.AdminTransliterate(text));
    }
  }

  // ----- The forest of duplicates -----

  /** The merge marks its source event, left without offers, as a duplicate of the target. */
  predicate MergeMarks(st: Store, source: EventId, id: OfferId, target: EventId) {
    && OfferSteps.MergeStarts(st, source, id, target) && !OfferSteps.Clash(st.sessions, id, target)
    && source in st.events && !OfferSteps.HasOtherOffers(st.offers, source, id)
  }

  /** The step marks an event as a duplicate of one that already leads back to it. */
  ghost predicate ClosesCycle(st: Store, step: Step) {
    match step
    case OnEvents(Mark(id, target)) =>
      target != "" && id != target && target in st.events && id in st.events && Groups.Reaches(st.events, target, id)
    case OnOffers(Merge(source, id, target)) =>
      MergeMarks(st, source, id, target) && Groups.Reaches(st.events, target, source)
    case _ => false
  }

  lemma EventStepKeepsForest(st: Store, step: EventStep)
    requires Groups.Closed(st.events) && Groups.Forest(st.events)
    ensures Groups.Forest(AfterEvent(st, step).events) <==> !ClosesCycle(st, OnEvents(step))
  {
    hide Groups.Forest, Groups.Closed, Groups.Reaches;
    match step
    case Mark(id, target) =>
      if EventSteps.MarkDuplicate(st.events, id, target).1.Done? {
        Groups.MarkingKeepsForestIff(st.events, id, target);
      }
    case Crown(id) =>
      if EventSteps.MakeEventCanonical(st.events, id).1.Done? {
        Groups.CrowningKeepsForest(st.events, id, st.events[id].groupingKey.value);
      }
    case _ =>
      RemovesOnly(st, step);
      Groups.RemovingKeepsForest(st.events, AfterEvent(st, step).events);
  }

  lemma RemovesOnly(st: Store, step: EventStep)
    requires !step.Mark? && !step.Crown?
    ensures Groups.OnlyRemoves(st.events, AfterEvent(st, step).events)
  {
  }

  lemma MergeKeepsForest(st: Store, source: EventId, id: OfferId, target: EventId)
    requires Groups.Closed(st.events) && Groups.Forest(st.events)
    ensures Groups.Forest(OfferSteps.MergeOffer(st, source, id, target).0.events)
       <==> !ClosesCycle(st, OnOffers(Merge(source, id, target)))
  {
    hide Groups.Forest, Groups.Closed, Groups.Reaches, OfferSteps.Clash, OfferSteps.OffersOf, OfferSteps.HasOtherOffers;
    if OfferSteps.MergeStarts(st, source, id, target) {
      OfferSteps.MovedAway(st.offers, id, source, target);
    }
    if MergeMarks(st, source, id, target) {
      Groups.MarkingKeepsForestIff(st.events, source, target);
    }
  }

  /**
    One step keeps the pointers a forest exactly when it does not mark an event as a duplicate of an
    event that leads back to it; only `markDuplicate` and `mergeOffer` can.
   */
  lemma StepKeepsForestIff(st: Store, step: Step)
    requires Groups.Closed(st.events) && Groups.Forest(st.events)
    ensures Groups.Forest(Apply(st, step).events) <==> !ClosesCycle(st, step)
  {
    hide AfterEvent, AfterOffer, ClosesCycle, Groups.Forest, Groups.Closed;
    match step
    case OnEvents(e) => EventStepKeepsForest(st, e);
    case OnOffers(Merge(source, id, target)) =>
      MergeKeepsForest(st, source, id, target);
      AfterMerge(st, source, id, target);
    case OnOffers(o) =>
      OfferStepFrame(st, o);
      NoCycleFrom(st, step);
    case _ => NoCycleFrom(st, step);
  }

  lemma AfterMerge(st: Store, source: EventId, id: OfferId, target: EventId)
    ensures AfterOffer(st, Merge(source, id, target)) == OfferSteps.MergeOffer(st, source, id, target).0
  {
  }

  lemma NoCycleFrom(st: Store, step: Step)
    requires !(step.OnEvents? && step.event.Mark?) && !(step.OnOffers? && step.offer.Merge?)
    ensures !ClosesCycle(st, step)
  {
  }

  /** Pointers point at events. */
  lemma StepKeepsClosed(st: Store, step: Step)
    requires Groups.Closed(st.events)
    ensures Groups.Closed(Apply(st, step).events)
  {
    hide AfterEvent, AfterOffer;
    match step
    case OnEvents(e) => EventStepKeepsClosed(st, e);
    case OnOffers(Merge(source, id, target)) =>
      AfterMerge(st, source, id, target);
      MergeKeepsClosed(st, source, id, target);
    case OnOffers(o) => OfferStepFrame(st, o);
    case _ =>
  }

  lemma EventStepKeepsClosed(st: Store, step: EventStep)
    requires Groups.Closed(st.events)
    ensures Groups.Closed(AfterEvent(st, step).events)
  {
  }

  lemma MergeKeepsClosed(st: Store, source: EventId, id: OfferId, target: EventId)
    requires Groups.Closed(st.events)
    ensures Groups.Closed(OfferSteps.MergeOffer(st, source, id, target).0.events)
  {
    hide OfferSteps.Clash;
  }

  /** No step of the run closes a cycle. */
  ghost predicate NeverClosesCycle(st: Store, steps: seq<Step>)
    decreases steps
  {
    steps == [] || (!ClosesCycle(st, steps[0]) && NeverClosesCycle(Apply(st, steps[0]), steps[1..]))
  }

  /** The duplicate pointers are a forest after every run that closes no cycle, however deep the chains grow. */
  lemma {:induction false} ForestForever(st: Store, steps: seq<Step>)
    requires Groups.Closed(st.events) && Groups.Forest(st.events) && NeverClosesCycle(st, steps)
    ensures Groups.Forest(Run(st, steps).events)
    decreases steps
  {
    hide Apply, ClosesCycle, Groups.Forest, Groups.Closed;
    if steps != [] {
      StepKeepsForestIff(st, steps[0]);
      StepKeepsClosed(st, steps[0]);
      ForestForever(Apply(st, steps[0]), steps[1..]);
    }
  }

  /** Without `markDuplicate` and `mergeOffer` a run closes no cycle: regrouping and crowning are safe. */
  lemma {:induction false} ForestWithoutMarks(st: Store, steps: seq<Step>)
    requires Groups.Closed(st.events) && Groups.Forest(st.events)
    requires forall s | s in steps :: !(s.OnEvents? && s.event.Mark?) && !(s.OnOffers? && s.offer.Merge?)
    ensures Groups.Forest(Run(st, steps).events)
    decreases steps
  {
    hide Apply, ClosesCycle, Groups.Forest, Groups.Closed;
    if steps != [] {
      assert steps[0] in steps && forall s | s in steps[1..] :: s in steps;
      NoCycleFrom(st, steps[0]);
      StepKeepsForestIff(st, steps[0]);
      StepKeepsClosed(st, steps[0]);
      ForestWithoutMarks(Apply(st, steps[0]), steps[1..]);
    }
  }

  // ----- The leader of a group -----

  /** The step takes the lead of the group from `id`: it leaves, gets a pointer, or an older event joins. */
  predicate Displaces(st: Store, step: EventStep, key: string, id: EventId)
    requires id in st.events
  {
    match step
    case Mark(x, target) => x == id && target != "" && id != target && target in st.events
    case Group(x, text) =>
      var k := Tidy.Trim(text, Letters.IsSpace);
      && k != "" && x in st.events && !st.events[x].isDeleted
      && if x == id then k != key
         else k == key && st.events[x].groupingKey != Some(key) && st.events[x].createdAt <= st.events[id].createdAt
    case Ungroup(x) => x == id
    case Crown(x) =>
      && x != id && key != "" && x in st.events && !st.events[x].isDeleted && st.events[x].groupingKey == Some(key)
    case Duplicate(x, copyId) =>
      && copyId !in st.events && x in st.events && !st.events[x].isDeleted && st.events[x].groupingKey == Some(key)
      && st.clock <= st.events[id].createdAt
    case BulkUpdate(ids, _, _, softDelete) => softDelete && id in ids
    case _ => false
  }

  predicate Dethrones(st: Store, step: Step, key: string, id: EventId)
    requires id in st.events
  {
    match step
    case OnEvents(e) => Displaces(st, e, key, id)
    case OnOffers(Merge(source, offer, target)) => source == id && MergeMarks(st, source, offer, target)
    case _ => false
  }

  lemma EventStepKeepsLeaderIff(st: Store, key: string, id: EventId, step: EventStep)
    requires Groups.Leads(st.events, key, id) && !step.Mark? && !step.Group? && !step.Ungroup? && !step.Crown?
    ensures Groups.Leads(AfterEvent(st, step).events, key, id) <==> !Displaces(st, step, key, id)
  {
    hide Slug.FirstFree, Slug.AdminTransliterate, Archive.IsCandidate;
    var after := AfterEvent(st, step).events;
    match step
    case Duplicate(x, copyId) =>
      if Displaces(st, step, key, id) {
        assert copyId in after && after[copyId].createdAt <= after[id].createdAt;
      }
    case _ =>
  }

  lemma GroupStepKeepsLeaderIff(st: Store, key: string, id: EventId, step: EventStep)
    requires Groups.Leads(st.events, key, id) && (step.Mark? || step.Group? || step.Ungroup? || step.Crown?)
    ensures Groups.Leads(AfterEvent(st, step).events, key, id) <==> !Displaces(st, step, key, id)
  {
    hide Tidy.Trim;
    var after := AfterEvent(st, step).events;
    match step
    case Group(x, text) =>
      if Displaces(st, step, key, id) && x != id {
        assert x in after && after[x].createdAt <= after[id].createdAt;
      }
    case _ =>
  }

  lemma MergeKeepsLeaderIff(st: Store, key: string, id: EventId, source: EventId, offer: OfferId, target: EventId)
    requires Groups.Leads(st.events, key, id)
    ensures Groups.Leads(OfferSteps.MergeOffer(st, source, offer, target).0.events, key, id)
       <==> !Dethrones(st, OnOffers(Merge(source, offer, target)), key, id)
  {
    hide OfferSteps.Clash, OfferSteps.OffersOf, OfferSteps.HasOtherOffers;
    if OfferSteps.MergeStarts(st, source, offer, target) {
      OfferSteps.MovedAway(st.offers, offer, source, target);
    }
  }

  /** One step keeps the canonical event of a group at its head exactly when it does not take the lead from it. */
  lemma StepKeepsLeaderIff(st: Store, key: string, id: EventId, step: Step)
    requires Groups.Leads(st.events, key, id)
    ensures Groups.Leads(Apply(st, step).events, key, id) <==> !Dethrones(st, step, key, id)
  {
    match step
    case OnEvents(e) =>
      if e.Mark? || e.Group? || e.Ungroup? || e.Crown? {
        GroupStepKeepsLeaderIff(st, key, id, e);
      } else {
        EventStepKeepsLeaderIff(st, key, id, e);
      }
      hide AfterEvent, Displaces, Groups.Leads;
    case OnOffers(Merge(source, offer, target)) =>
      MergeKeepsLeaderIff(st, key, id, source, offer, target);
      AfterMerge(st, source, offer, target);
      hide AfterOffer, MergeMarks, Groups.Leads;
    case OnOffers(o) =>
      OfferStepFrame(st, o);
      hide AfterOffer;
    case _ =>
  }

  /** No step of the run takes the lead of the group from `id`. */
  ghost predicate NeverDethroned(st: Store, steps: seq<Step>, key: string, id: EventId)
    decreases steps
  {
    steps == [] || (id in st.events && !Dethrones(st, steps[0], key, id)
                    && NeverDethroned(Apply(st, steps[0]), steps[1..], key, id))
  }

  /** The event leads its group in every state of the run. */
  ghost predicate LeadsThroughout(st: Store, steps: seq<Step>, key: string, id: EventId)
    decreases steps
  {
    Groups.Leads(st.events, key, id) && (steps == [] || LeadsThroughout(Apply(st, steps[0]), steps[1..], key, id))
  }

  /** The canonical event leads its group in every state of a run exactly when no step takes the lead from it. */
  lemma {:induction false} LeaderStaysIff(st: Store, key: string, id: EventId, steps: seq<Step>)
    requires Groups.Leads(st.events, key, id)
    ensures LeadsThroughout(st, steps, key, id) <==> NeverDethroned(st, steps, key, id)
    ensures NeverDethroned(st, steps, key, id) ==> Groups.Leads(Run(st, steps).events, key, id)
    decreases steps
  {
    assert id in st.events;
    if steps != [] {
      StepKeepsLeaderIff(st, key, id, steps[0]);
      hide Apply, Dethrones, Groups.Leads;
      if !Dethrones(st, steps[0], key, id) {
        LeaderStaysIff(Apply(st, steps[0]), key, id, steps[1..]);
      }
    }
  }

  /** Copies, renames, schedule and offer changes, archiving, and the deletion of other events. */
  predicate LeavesGroups(step: Step, id: EventId) {
    match step
    case OnEvents(e) =>
      && !e.Mark? && !e.Group? && !e.Ungroup? && !e.Crown?
      && (e.BulkUpdate? && e.softDelete ==> id !in e.ids)
    case OnOffers(o) => !o.Merge?
    case _ => true
  }

  lemma AgeStays(st: Store, id: EventId, step: Step)
    requires id in st.events && st.events[id].createdAt < st.clock
    ensures var after := Apply(st, step); id in after.events && after.events[id].createdAt < after.clock
  {
    match step
    case OnEvents(e) =>
      EventStepFrame(st, e);
      KeepsAge(st, e, id);
      hide AfterEvent;
    case OnOffers(o) =>
      OfferStepFrame(st, o);
      hide AfterOffer;
    case _ =>
  }

  lemma KeepsAge(st: Store, step: EventStep, id: EventId)
    requires id in st.events
    ensures id in AfterEvent(st, step).events && AfterEvent(st, step).events[id].createdAt == st.events[id].createdAt
  {
  }

  /** Such steps never take the lead from an event made before: later copies do not displace it. */
  lemma {:induction false} LeaderStays(st: Store, key: string, id: EventId, steps: seq<Step>)
    requires Groups.Leads(st.events, key, id) && st.events[id].createdAt < st.clock
    requires forall s | s in steps :: LeavesGroups(s, id)
    ensures NeverDethroned(st, steps, key, id)
    decreases steps
  {
    assert id in st.events;
    if steps != [] {
      assert steps[0] in steps && LeavesGroups(steps[0], id);
      assert forall s | s in steps[1..] :: s in steps;
      StepKeepsLeaderIff(st, key, id, steps[0]);
      AgeStays(st, id, steps[0]);
      hide Apply, Groups.Leads;
      LeaderStays(Apply(st, steps[0]), key, id, steps[1..]);
    }
  }

  /** From `makeEventCanonical` on, until a step takes the lead from it, every live member is told of that event. */
  lemma CanonicalForever(st: Store, id: EventId, steps: seq<Step>, x: EventId, rows: seq<EventId>)
    requires EventSteps.MakeEventCanonical(st.events, id).1.Done?
    requires NeverDethroned(Apply(st, OnEvents(Crown(id))), steps, st.events[id].groupingKey.value, id)
    requires Groups.GroupRows(Run(Apply(st, OnEvents(Crown(id))), steps).events, st.events[id].groupingKey.value, rows)
    requires x in rows
    ensures var view := Groups.GetEventGroup(Run(Apply(st, OnEvents(Crown(id))), steps).events, x, rows);
            view.Some? && view.value.canonicalEventId == Some(id) && (view.value.isCanonical <==> x == id)
  {
    Groups.CrownedLeads(st.events, id);
    var crowned := Apply(st, OnEvents(Crown(id)));
    LeaderStaysIff(crowned, st.events[id].groupingKey.value, id, steps);
    Groups.LeaderIsCanonical(Run(crowned, steps).events, st.events[id].groupingKey.value, id, x, rows);
  }
}
