/** Creation of event groups from grouping keys (packages/backend/scripts/auto-create-event-groups.ts). */
module GroupCreation {
  import opened Prelude
  import Decimal
  import Slug

  /** One row of the aggregate query: a grouping key of live events with the minima of their texts. */
  datatype Aggregate = Aggregate(groupingKey: string, normalizedTitle: Option<string>, title: string, coverUrl: Option<string>)

  datatype Group = Group(groupingKey: string, slug: string, title: string, coverUrl: Option<string>)

  const UNTITLED := "Без названия"

  function TitleOf(row: Aggregate): string {
    if row.title != "" then row.title else UNTITLED
  }

  function Take(s: string, n: nat): string {
    if |s| <= n then s else s[..n]
  }

  function BaseSlug(normalizedTitle: string, fallbackTitle: string): string {
    var src := if normalizedTitle != "" then normalizedTitle else Slug.ScriptTransliterate(fallbackTitle);
    var s := Take(Slug.ScriptTransliterate(src), 80);
    if s != "" then s else "event-group"
  }

  function BaseOf(row: Aggregate): string {
    BaseSlug(row.normalizedTitle.GetOr(""), TitleOf(row))
  }

  /** Where the group of a key is; the number of groups when there is none. */
  function IndexOf(groups: seq<Group>, key: string): (i: nat)
    ensures i <= |groups|
    ensures i < |groups| ==> groups[i].groupingKey == key
    ensures forall j | 0 <= j < i :: groups[j].groupingKey != key
  {
    if groups == [] || groups[0].groupingKey == key then 0 else 1 + IndexOf(groups[1..], key)
  }

  function GroupSlugs(groups: seq<Group>): set<string> {
    set g | g in groups :: g.slug
  }

  function UniqueSlugFor(groups: seq<Group>, eventSlugs: set<string>, base: string): string {
    Slug.FirstFree(GroupSlugs(groups) + eventSlugs, base, Take(base, 70), 1)
  }

  /** The groups after one aggregate: the group of its key is updated, or a new one is added. */
  function Upsert(groups: seq<Group>, eventSlugs: set<string>, row: Aggregate): seq<Group> {
    var i := IndexOf(groups, row.groupingKey);
    if i < |groups| then groups[i := groups[i].(title := TitleOf(row), coverUrl := row.coverUrl)]
    else groups + [Group(row.groupingKey, UniqueSlugFor(groups, eventSlugs, BaseOf(row)), TitleOf(row), row.coverUrl)]
  }

  function UpsertAll(groups: seq<Group>, eventSlugs: set<string>, rows: seq<Aggregate>): seq<Group>
    decreases rows
  {
    if rows == [] then groups else UpsertAll(Upsert(groups, eventSlugs, rows[0]), eventSlugs, rows[1..])
  }

  // ----- The script -----

  class Script {
    var groups: seq<Group>

    predicate Taken(slug: string, eventSlugs: set<string>)
      reads this
      ensures Taken(slug, eventSlugs) <==> slug in GroupSlugs(groups) + eventSlugs
    {
      (exists i | 0 <= i < |groups| :: groups[i].slug == slug) || slug in eventSlugs
    }

    method EnsureUniqueSlug(base: string, eventSlugs: set<string>) returns (slug: string)
      ensures slug == UniqueSlugFor(groups, eventSlugs, base)
    {
      slug := base;
      var suffix: nat := 0;
      var stem := Take(base, 70);
      ghost var taken := GroupSlugs(groups) + eventSlugs;
      ghost var untried := taken;
      while Taken(slug, eventSlugs)
        invariant untried <= taken
        invariant slug == if suffix == 0 then base else Slug.Numbered(stem, suffix)
        invariant suffix > 0 ==> base in taken
        invariant forall k: nat | suffix <= k && 0 < k :: Slug.Numbered(stem, k) in untried <==> Slug.Numbered(stem, k) in taken
        invariant Slug.FirstFreeNumbered(taken, stem, 1)
               == Slug.FirstFreeNumbered(untried, stem, if suffix == 0 then 1 else suffix)
        decreases untried, if suffix == 0 then 1 else 0
      {
        if suffix > 0 {
          ghost var tried := slug;
          forall k: nat | suffix < k
            ensures Slug.Numbered(stem, k) != tried
          {
            if Slug.Numbered(stem, k) == tried {
              Slug.NumberedInjective(stem, k, suffix);
            }
          }
          untried := untried - {tried};
        }
        suffix := suffix + 1;
        slug := stem + "-" + Decimal.Print(suffix);
      }
    }

    /** `main`, with the answer of the aggregate query and the slugs of all events. */
    method Run(rows: seq<Aggregate>, eventSlugs: set<string>, dryRun: bool) returns (created: nat, updated: nat)
      modifies this
      ensures groups == if dryRun then old(groups) else UpsertAll(old(groups), eventSlugs, rows)
      ensures !dryRun ==> |groups| == |old(groups)| + created
      ensures !dryRun && created == 0 && updated == 0 ==> groups == old(groups)
      ensures (forall r | r in rows :: Settled(old(groups), r)) ==> created == 0 && updated == 0
    {
      created, updated := 0, 0;
      for n := 0 to |rows|
        invariant if dryRun then groups == old(groups)
                  else UpsertAll(old(groups), eventSlugs, rows) == UpsertAll(groups, eventSlugs, rows[n..])
        invariant !dryRun ==> |groups| == |old(groups)| + created
        invariant created == 0 && updated == 0 ==> groups == old(groups)
        invariant (forall r | r in rows :: Settled(old(groups), r)) ==> created == 0 && updated == 0
      {
        var row := rows[n];
        assert row in rows;
        assert rows[n..][1..] == rows[n + 1..];
        var title := TitleOf(row);
        var i := IndexOf(groups, row.groupingKey);
        if i < |groups| {
          var needsUpdate := groups[i].title != title || groups[i].coverUrl != row.coverUrl;
          assert !needsUpdate ==> Upsert(groups, eventSlugs, row) == groups;
          if needsUpdate && !dryRun {
            groups := groups[i := groups[i].(title := title, coverUrl := row.coverUrl)];
            updated := updated + 1;
          }
        } else {
          var slug := EnsureUniqueSlug(BaseOf(row), eventSlugs);
          if !dryRun {
            groups := groups + [Group(row.groupingKey, slug, title, row.coverUrl)];
          }
          created := created + 1;
        }
      }
    }
  }

  /** The row's group exists and has its title and cover. */
  predicate Settled(groups: seq<Group>, row: Aggregate) {
    var i := IndexOf(groups, row.groupingKey);
    i < |groups| && groups[i].title == TitleOf(row) && groups[i].coverUrl == row.coverUrl
  }

  // ----- Guarantees of a run -----

  predicate UniqueKeys(groups: seq<Group>) {
    forall i, j | 0 <= i < j < |groups| :: groups[i].groupingKey != groups[j].groupingKey
  }

  /** No two groups share a slug, and no group has the slug of an event. */
  predicate DistinctSlugs(groups: seq<Group>, eventSlugs: set<string>) {
    && (forall i, j | 0 <= i < j < |groups| :: groups[i].slug != groups[j].slug)
    && forall i | 0 <= i < |groups| :: groups[i].slug !in eventSlugs
  }

  /** The aggregate query gives one row for each key. */
  predicate OneRowPerKey(rows: seq<Aggregate>) {
    forall i, j | 0 <= i < j < |rows| :: rows[i].groupingKey != rows[j].groupingKey
  }

  /** Groups stay where they are, with their keys and slugs. */
  predicate Extends(groups: seq<Group>, after: seq<Group>) {
    && |groups| <= |after|
    && forall i | 0 <= i < |groups| :: after[i].groupingKey == groups[i].groupingKey && after[i].slug == groups[i].slug
  }

  /** The slugs of the groups that were added belong to no event and to no other group. */
  predicate NewSlugsFree(groups: seq<Group>, after: seq<Group>, eventSlugs: set<string>) {
    forall i | |groups| <= i < |after| ::
      after[i].slug !in eventSlugs && forall j | 0 <= j < |after| && j != i :: after[j].slug != after[i].slug
  }

  lemma UpsertKeeps(groups: seq<Group>, eventSlugs: set<string>, row: Aggregate)
    requires UniqueKeys(groups)
    ensures var after := Upsert(groups, eventSlugs, row);
            && UniqueKeys(after) && Extends(groups, after) && NewSlugsFree(groups, after, eventSlugs)
            && Settled(after, row)
            && forall k | k != row.groupingKey :: IndexOf(after, k) < |after| ==>
                 IndexOf(after, k) < |groups| && after[IndexOf(after, k)] == groups[IndexOf(after, k)]
  {
    var after := Upsert(groups, eventSlugs, row);
    if IndexOf(groups, row.groupingKey) == |groups| {
      var base := BaseOf(row);
      var slug := UniqueSlugFor(groups, eventSlugs, base);
      Slug.FirstFreeIsFirst(GroupSlugs(groups) + eventSlugs, base, Take(base, 70), 1, slug);
      forall i | 0 <= i < |groups|
        ensures groups[i].slug != slug
      {
        assert groups[i] in groups;
      }
    }
    SameIndex(after, row.groupingKey, IndexOf(groups, row.groupingKey));
  }

  lemma SameIndex(groups: seq<Group>, key: string, i: nat)
    requires UniqueKeys(groups) && i < |groups| && groups[i].groupingKey == key
    ensures IndexOf(groups, key) == i
  {
  }

  lemma StaysSettled(groups: seq<Group>, eventSlugs: set<string>, row: Aggregate, other: Aggregate)
    requires UniqueKeys(groups)
    requires Settled(groups, other) && other.groupingKey != row.groupingKey
    ensures Settled(Upsert(groups, eventSlugs, row), other)
  {
    UpsertKeeps(groups, eventSlugs, row);
    SameIndex(Upsert(groups, eventSlugs, row), other.groupingKey, IndexOf(groups, other.groupingKey));
  }

  lemma NewSlugsAddUp(groups: seq<Group>, next: seq<Group>, after: seq<Group>, eventSlugs: set<string>)
    requires Extends(groups, next) && Extends(next, after)
    requires NewSlugsFree(groups, next, eventSlugs) && NewSlugsFree(next, after, eventSlugs)
    ensures Extends(groups, after) && NewSlugsFree(groups, after, eventSlugs)
  {
  }

  /** `done` are the rows already seen, which stay settled. */
  lemma {:induction false} RunSettlesOn(groups: seq<Group>, eventSlugs: set<string>, rows: seq<Aggregate>, done: seq<Aggregate>)
    requires UniqueKeys(groups) && OneRowPerKey(rows)
    requires forall r | r in done :: Settled(groups, r) && forall q | q in rows :: q.groupingKey != r.groupingKey
    ensures var after := UpsertAll(groups, eventSlugs, rows);
            && UniqueKeys(after) && Extends(groups, after) && NewSlugsFree(groups, after, eventSlugs)
            && (forall r | r in rows :: Settled(after, r))
            && (forall r | r in done :: Settled(after, r))
    decreases rows
  {
    hide UniqueKeys, NewSlugsFree, Settled, Upsert, Extends;
    if rows == [] {
      NothingNew(groups, eventSlugs);
    } else {
      var row, rest := rows[0], rows[1..];
      var next := Upsert(groups, eventSlugs, row);
      UpsertKeeps(groups, eventSlugs, row);
      forall r | r in done
        ensures Settled(next, r)
      {
        assert row in rows;
        StaysSettled(groups, eventSlugs, row, r);
      }
      assert forall q | q in rest :: q in rows && q.groupingKey != row.groupingKey;
      RunSettlesOn(next, eventSlugs, rest, done + [row]);
      NewSlugsAddUp(groups, next, UpsertAll(next, eventSlugs, rest), eventSlugs);
      assert row in done + [row] && forall r | r in done :: r in done + [row];
    }
  }

  lemma NothingNew(groups: seq<Group>, eventSlugs: set<string>)
    ensures Extends(groups, groups) && NewSlugsFree(groups, groups, eventSlugs)
  {
  }

  /**
    After a run every key has exactly one group, with the title and the cover of its events; the
    groups there were keep their keys and slugs; and a slug that the run chose belongs to no event
    and to no other group.
   */
  lemma RunSettles(groups: seq<Group>, eventSlugs: set<string>, rows: seq<Aggregate>)
    requires UniqueKeys(groups) && OneRowPerKey(rows)
    ensures var after := UpsertAll(groups, eventSlugs, rows);
            && UniqueKeys(after) && Extends(groups, after) && NewSlugsFree(groups, after, eventSlugs)
            && forall r | r in rows :: Settled(after, r)
  {
    hide UniqueKeys, NewSlugsFree, Settled, UpsertAll, Extends;
    RunSettlesOn(groups, eventSlugs, rows, []);
  }

  /**
    Slugs are distinct across groups and events after a run exactly when they were before it: the
    run adds no clash, and it mends none, since the slug of a group never changes.
   */
  lemma RunKeepsDistinctIff(groups: seq<Group>, eventSlugs: set<string>, rows: seq<Aggregate>)
    requires UniqueKeys(groups) && OneRowPerKey(rows)
    ensures DistinctSlugs(UpsertAll(groups, eventSlugs, rows), eventSlugs) <==> DistinctSlugs(groups, eventSlugs)
  {
    hide UniqueKeys, Settled, UpsertAll;
    RunSettles(groups, eventSlugs, rows);
    var after := UpsertAll(groups, eventSlugs, rows);
    if DistinctSlugs(after, eventSlugs) {
      assert forall i, j | 0 <= i < j < |groups| :: groups[i].slug == after[i].slug && groups[j].slug == after[j].slug;
      assert forall i | 0 <= i < |groups| :: groups[i].slug == after[i].slug;
    }
    if DistinctSlugs(groups, eventSlugs) {
      forall i, j | 0 <= i < j < |after|
        ensures after[i].slug != after[j].slug
      {
        if j < |groups| {
          assert groups[i].slug != groups[j].slug;
        }
      }
    }
  }

  lemma {:induction false} SettledChangesNothing(groups: seq<Group>, eventSlugs: set<string>, rows: seq<Aggregate>)
    requires forall r | r in rows :: Settled(groups, r)
    ensures UpsertAll(groups, eventSlugs, rows) == groups
    decreases rows
  {
    if rows != [] {
      assert rows[0] in rows;
      assert Upsert(groups, eventSlugs, rows[0]) == groups;
      SettledChangesNothing(groups, eventSlugs, rows[1..]);
    }
  }

  /**
    A second run over the same events changes nothing, in whatever order the query returns its rows:
    its rows are all settled, so it counts nothing created and nothing updated.
   */
  lemma SecondRunIsIdle(groups: seq<Group>, eventSlugs: set<string>, rows: seq<Aggregate>, again: seq<Aggregate>)
    requires UniqueKeys(groups) && OneRowPerKey(rows)
    requires forall r | r in again :: r in rows
    ensures var after := UpsertAll(groups, eventSlugs, rows);
            && (forall r | r in again :: Settled(after, r))
            && UpsertAll(after, eventSlugs, again) == after
  {
    RunSettles(groups, eventSlugs, rows);
    SettledChangesNothing(UpsertAll(groups, eventSlugs, rows), eventSlugs, again);
  }

  /** Groups are only added for keys of the rows: each key of the result was there or is a row's key. */
  lemma {:induction false} OnlyRowKeys(groups: seq<Group>, eventSlugs: set<string>, rows: seq<Aggregate>, g: Group)
    requires g in UpsertAll(groups, eventSlugs, rows)
    ensures (exists h :: h in groups && h.groupingKey == g.groupingKey) || exists r :: r in rows && r.groupingKey == g.groupingKey
    decreases rows
  {
    if rows == [] {
      assert g in groups && g.groupingKey == g.groupingKey;
    } else {
      var row := rows[0];
      var next := Upsert(groups, eventSlugs, row);
      OnlyRowKeys(next, eventSlugs, rows[1..], g);
      if h :| h in next && h.groupingKey == g.groupingKey {
        var i :| 0 <= i < |next| && next[i] == h;
        assert row in rows;
        if i < |groups| {
          assert groups[i] in groups;
        }
      } else {
        var r :| r in rows[1..] && r.groupingKey == g.groupingKey;
        assert r in rows;
      }
    }
  }

  // ----- Where a slug comes from -----

  /** The text of a group's slug: the normalised title of its events, or else their title. */
  function SlugText(row: Aggregate): string {
    var title := if row.title == "" then "Без названия" else row.title;
    if row.normalizedTitle.GetOr("") == "" then title else row.normalizedTitle.value
  }

  /**
    The base of a group's slug is the transliterated text, cut to eighty characters; a text without
    letters or digits gives "event-group".
   */
  lemma BaseComesFromText(row: Aggregate)
    ensures var full := Slug.ScriptTransliterate(SlugText(row));
            if full == "" then BaseOf(row) == "event-group"
            else && BaseOf(row) <= full
                 && |BaseOf(row)| == if |full| <= 80 then |full| else 80
  {
    hide Slug.ScriptTransliterate;
    Slug.ScriptTransliterateSettles(SlugText(row));
    Slug.NothingTransliterated();
  }

  /** A group is created with the title and the cover of its events and the first free slug of its base. */
  lemma NewGroup(groups: seq<Group>, eventSlugs: set<string>, row: Aggregate)
    requires forall g | g in groups :: g.groupingKey != row.groupingKey
    ensures var after := Upsert(groups, eventSlugs, row);
            && |after| == |groups| + 1 && after[..|groups|] == groups
            && var g := after[|groups|];
               && g.groupingKey == row.groupingKey && g.coverUrl == row.coverUrl
               && g.title == (if row.title == "" then "Без названия" else row.title)
               && Slug.IsFirstFree((set h | h in groups :: h.slug) + eventSlugs, BaseOf(row),
                                   if |BaseOf(row)| <= 70 then BaseOf(row) else BaseOf(row)[..70], 1, g.slug)
  {
    hide Slug.IsFirstFree, Slug.FirstFree, BaseOf;
    assert forall j | 0 <= j < |groups| :: groups[j] in groups;
    var base := BaseOf(row);
    Slug.FirstFreeIsFirst(GroupSlugs(groups) + eventSlugs, base, Take(base, 70), 1, UniqueSlugFor(groups, eventSlugs, base));
  }

  /** The group of a key is updated in place: its title and cover, and nothing else of any group. */
  lemma UpdatedGroup(groups: seq<Group>, eventSlugs: set<string>, row: Aggregate, i: nat)
    requires UniqueKeys(groups) && i < |groups| && groups[i].groupingKey == row.groupingKey
    ensures var after := Upsert(groups, eventSlugs, row);
            && |after| == |groups| && (forall j | 0 <= j < |groups| && j != i :: after[j] == groups[j])
            && after[i].groupingKey == groups[i].groupingKey && after[i].slug == groups[i].slug
            && after[i].coverUrl == row.coverUrl && after[i].title == (if row.title == "" then "Без названия" else row.title)
  {
    SameIndex(groups, row.groupingKey, i);
  }
}
