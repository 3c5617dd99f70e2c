/**
  Slugs of events against slugs of groups.  `createEvent`, `duplicateEvent` and `updateEventSlug`
  (packages/backend/src/admin/admin-events.controller.ts) look only at events, so an event can take
  the slug of a group; the group-creation script looks at both, but never changes a slug.
 */
module GroupClashes {
  import opened Prelude
  import opened Catalogue
  import opened Runs
  import EventProofs
  import EventSteps
  import GroupCreation
  import Slug

  /** The slug that the step gives to an event, if it gives one. */
  function SlugGiven(st: Store, step: EventStep): Option<string> {
    match step
    case Create(id, title, cityKnown, locationKnown, offer) =>
      if && Slug.AdminTransliterate(title) !in SlugsOf(st.events) && cityKnown && locationKnown && id !in st.events
         && (offer.Some? ==> offer.value.0 !in st.offers)
      then Some(Slug.AdminTransliterate(title)) else None
    case Duplicate(id, copyId) =>
      if id in st.events && !st.events[id].isDeleted && copyId !in st.events
      then Some(EventSteps.CopySlug(st.events, st.events[id].slug)) else None
    case Rename(id, text) =>
      if id in st.events && Slug.AdminTransliterate(text) != ""
      then Some(EventSteps.RenamedSlug(st.events, id, Slug.AdminTransliterate(text))) else None
    case _ => None
  }

  lemma SlugsAfter(st: Store, step: EventStep)
    ensures SlugGiven(st, step).None? ==> SlugsOf(AfterEvent(st, step).events) == SlugsOf(st.events)
    ensures SlugGiven(st, step).Some? ==>
              && SlugGiven(st, step).value in SlugsOf(AfterEvent(st, step).events)
              && SlugsOf(AfterEvent(st, step).events) <= SlugsOf(st.events) + {SlugGiven(st, step).value}
  {
    hide Slug.AdminTransliterate, EventSteps.CopySlug, EventSteps.RenamedSlug;
    match step
    case Create(id, _, _, _, _) => GivenTo(st, step, id);
    case Duplicate(_, copyId) => GivenTo(st, step, copyId);
    case Rename(id, _) => GivenTo(st, step, id);
    case _ =>
      EventProofs.KeepsSlugs(st, step);
      hide EventsAfter;
      SameSlugsOf(st.events, AfterEvent(st, step).events);
  }

  lemma SameSlugsOf(events: Events, after: Events)
    requires after.Keys == events.Keys && forall id | id in after :: after[id].slug == events[id].slug
    ensures SlugsOf(after) == SlugsOf(events)
  {
    forall s
      ensures s in SlugsOf(after) <==> s in SlugsOf(events)
    {
      if s in SlugsOf(events) {
        var id :| id in events && events[id].slug == s;
        assert id in after && after[id].slug == s;
      }
    }
  }

  lemma GivenTo(st: Store, step: EventStep, id: EventId)
    requires (step.Create? && step.id == id) || (step.Duplicate? && step.copyId == id) || (step.Rename? && step.renamed == id)
    ensures var given, after := SlugGiven(st, step), AfterEvent(st, step).events;
            if given.None? then after == st.events
            else id in after && after[id].slug == given.value
                 && forall x | x in after && x != id :: x in st.events && after[x] == st.events[x]
  {
    hide Slug.AdminTransliterate, EventSteps.CopySlug, EventSteps.RenamedSlug;
  }

  /** The step gives an event the slug of a group. */
  predicate TakesGroupSlug(st: Store, groups: seq<GroupCreation.Group>, step: Step) {
    step.OnEvents? && SlugGiven(st, step.event).Some? && SlugGiven(st, step.event).value in GroupCreation.GroupSlugs(groups)
  }

  lemma EventStepKeepsDistinctIff(st: Store, groups: seq<GroupCreation.Group>, step: EventStep)
    requires GroupCreation.DistinctSlugs(groups, SlugsOf(st.events))
    ensures GroupCreation.DistinctSlugs(groups, SlugsOf(AfterEvent(st, step).events))
       <==> !TakesGroupSlug(st, groups, OnEvents(step))
  {
    hide AfterEvent, SlugGiven, SlugsOf;
    SlugsAfter(st, step);
    if TakesGroupSlug(st, groups, OnEvents(step)) {
      var g :| g in groups && g.slug == SlugGiven(st, step).value;
    } else {
      forall i | 0 <= i < |groups|
        ensures groups[i].slug !in SlugsOf(AfterEvent(st, step).events)
      {
        assert groups[i] in groups;
      }
    }
  }

  /** One step keeps the slugs of groups and events distinct exactly when it gives no event a group's slug. */
  lemma StepKeepsDistinctIff(st: Store, groups: seq<GroupCreation.Group>, step: Step)
    requires GroupCreation.DistinctSlugs(groups, SlugsOf(st.events))
    ensures GroupCreation.DistinctSlugs(groups, SlugsOf(Apply(st, step).events)) <==> !TakesGroupSlug(st, groups, step)
  {
    hide AfterEvent, AfterOffer, SlugGiven, SlugsOf, GroupCreation.DistinctSlugs;
    match step
    case OnEvents(e) => EventStepKeepsDistinctIff(st, groups, e);
    case OnOffers(o) =>
      OfferStepFrame(st, o);
      SameSlugsOf(st.events, Apply(st, step).events);
    case _ =>
  }

  // ----- Runs of both -----

  /** A step of the administration, or a run of the script with the answer of its aggregate query. */
  datatype Act = Admin(step: Step) | CreateGroups(rows: seq<GroupCreation.Aggregate>)

  datatype World = World(st: Store, groups: seq<GroupCreation.Group>)

  function Next(w: World, act: Act): World {
    match act
    case Admin(step) => w.(st := Apply(w.st, step))
    case CreateGroups(rows) => w.(groups := GroupCreation.UpsertAll(w.groups, SlugsOf(w.st.events), rows))
  }

  predicate Distinct(w: World) {
    GroupCreation.DistinctSlugs(w.groups, SlugsOf(w.st.events))
  }

  predicate DistinctThroughout(w: World, acts: seq<Act>)
    decreases acts
  {
    Distinct(w) && (acts == [] || DistinctThroughout(Next(w, acts[0]), acts[1..]))
  }

  predicate NeverTakesGroupSlug(w: World, acts: seq<Act>)
    decreases acts
  {
    || acts == []
    || (&& (acts[0].Admin? ==> !TakesGroupSlug(w.st, w.groups, acts[0].step))
        && NeverTakesGroupSlug(Next(w, acts[0]), acts[1..]))
  }

  lemma ActKeepsDistinctIff(w: World, act: Act)
    requires GroupCreation.UniqueKeys(w.groups) && Distinct(w)
    requires act.CreateGroups? ==> GroupCreation.OneRowPerKey(act.rows)
    ensures GroupCreation.UniqueKeys(Next(w, act).groups)
    ensures Distinct(Next(w, act)) <==> !(act.Admin? && TakesGroupSlug(w.st, w.groups, act.step))
  {
    hide Apply, SlugsOf, TakesGroupSlug, GroupCreation.UpsertAll, GroupCreation.DistinctSlugs, GroupCreation.UniqueKeys;
    match act
    case Admin(step) => StepKeepsDistinctIff(w.st, w.groups, step);
    case CreateGroups(rows) =>
      GroupCreation.RunSettles(w.groups, SlugsOf(w.st.events), rows);
      GroupCreation.RunKeepsDistinctIff(w.groups, SlugsOf(w.st.events), rows);
  }

  /**
    Slugs are distinct across groups and events in every state of a run that mixes steps of the
    administration and runs of the script, exactly when no step gives an event a group's slug.
   */
  lemma {:induction false} DistinctForeverIff(w: World, acts: seq<Act>)
    requires GroupCreation.UniqueKeys(w.groups) && Distinct(w)
    requires forall a | a in acts && a.CreateGroups? :: GroupCreation.OneRowPerKey(a.rows)
    ensures DistinctThroughout(w, acts) <==> NeverTakesGroupSlug(w, acts)
    decreases acts
  {
    hide Next, Distinct, TakesGroupSlug, GroupCreation.UniqueKeys, GroupCreation.OneRowPerKey;
    if acts != [] {
      assert acts[0] in acts && forall a | a in acts[1..] :: a in acts;
      ActKeepsDistinctIff(w, acts[0]);
      if Distinct(Next(w, acts[0])) {
        DistinctForeverIff(Next(w, acts[0]), acts[1..]);
      }
    }
  }

  /**
    The clash that no run of the script mends: an event is created with a title whose slug is that of
    a group.  The creation succeeds, and after it every run of the script, whatever rows it reads,
    leaves the event and the group with one slug.
   */
  lemma CreatedEventTakesGroupSlug(st: Store, groups: seq<GroupCreation.Group>, id: EventId, title: string,
                                   rows: seq<GroupCreation.Aggregate>)
    requires GroupCreation.UniqueKeys(groups) && GroupCreation.DistinctSlugs(groups, SlugsOf(st.events))
    requires GroupCreation.OneRowPerKey(rows)
    requires id !in st.events && Slug.AdminTransliterate(title) in GroupCreation.GroupSlugs(groups)
    ensures var r := EventSteps.CreateEvent(st, id, title, true, true, None);
            && r.1.Done? && r.0.events[id].slug in GroupCreation.GroupSlugs(groups)
            && var slugs := SlugsOf(r.0.events);
               !GroupCreation.DistinctSlugs(GroupCreation.UpsertAll(groups, slugs, rows), slugs)
  {
    hide Slug.AdminTransliterate, SlugsOf;
    var create := Create(id, title, true, true, None);
    var g :| g in groups && g.slug == Slug.AdminTransliterate(title);
    assert SlugGiven(st, create) == Some(g.slug);
    EventStepKeepsDistinctIff(st, groups, create);
    GroupCreation.RunKeepsDistinctIff(groups, SlugsOf(AfterEvent(st, create).events), rows);
  }

  /** Such an input: no events, one group with the slug of its title, and an event of the same title. */
  lemma ClashIsReachable(rows: seq<GroupCreation.Aggregate>)
    requires GroupCreation.OneRowPerKey(rows)
    ensures var st := Store(map[], map[], map[], map[], {}, 0);
            var groups := [GroupCreation.Group("v1::TOUR::a::na::0", "a", "a", None)];
            var r := EventSteps.CreateEvent(st, "1", "a", true, true, None);
            && GroupCreation.DistinctSlugs(groups, SlugsOf(st.events)) && r.1.Done?
            && var slugs := SlugsOf(r.0.events);
               !GroupCreation.DistinctSlugs(GroupCreation.UpsertAll(groups, slugs, rows), slugs)
  {
    hide Slug.AdminTransliterate;
    var st := Store(map[], map[], map[], map[], {}, 0);
    var groups := [GroupCreation.Group("v1::TOUR::a::na::0", "a", "a", None)];
    Slug.AdminTransliterateA();
    assert groups[0] in groups;
    CreatedEventTakesGroupSlug(st, groups, "1", "a", rows);
  }
}
