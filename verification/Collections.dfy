/**
  Collections under concurrent editing (packages/backend/src/admin/admin-collections.controller.ts).
  `update` is a conditional write on the version its author read; `approve`, `reject` and `archive`
  read the status and write later; `delete` is soft.  Two services write the same rows without
  raising their version: the suggestion service (packages/backend/src/collection/collection-suggestion.service.ts)
  rewrites the content and the status of rows it finds, and the materializer
  (packages/backend/src/collection/collection-materializer.service.ts) shows and hides them.
 */
module Collections {
  import opened Prelude

  type Id = string

  datatype Status = DRAFT | SUGGESTED | ACTIVE | REJECTED | ARCHIVED

  datatype SourceType = FromMANUAL | FromSUGGESTED | FromHYBRID | FromACTIVE | FromREJECTED | FromARCHIVED

  /** The fields a PATCH may set besides `status`, `sourceType` and `isActive`. */
  datatype Field =
    | Slug | Title | Subtitle | CityId | HeroImage | Description | FilterTags | FilterCategory | FilterSubcategory
    | FilterAudience | AdditionalFilters | RankingJson | PinnedEventIds | ExcludedEventIds | MetaTitle
    | MetaDescription | InfoBlocks | Faq | SelectionBasis | SortOrder

  /** A value of a field; None is null. */
  type Value = Option<string>

  type Content = map<Field, Value>

  datatype Row = Row(
    content: Content, status: Status, sourceType: SourceType, isActive: bool, isDeleted: bool,
    deletedAt: Option<int>, version: int, semanticKey: Option<string>)

  type Table = map<Id, Row>

  datatype Error = BadRequest | NotFound | Conflict | Refused

  datatype Outcome = Done | Failed(error: Error)

  // ----- Status transitions -----

  predicate CanTransition(from: Status, to: Status) {
    match from
    case DRAFT => to in {SUGGESTED, ACTIVE, ARCHIVED}
    case SUGGESTED => to in {ACTIVE, REJECTED, ARCHIVED}
    case ACTIVE => to in {ARCHIVED, REJECTED}
    case REJECTED => to in {SUGGESTED, ARCHIVED}
    case ARCHIVED => false
  }

  /** The row after `approve`, `reject` or `archive`. */
  function Moved(row: Row, to: Status): Row {
    match to
    case ACTIVE => row.(status := ACTIVE, sourceType := FromACTIVE, isActive := true)
    case REJECTED => row.(status := REJECTED, isActive := false)
    case ARCHIVED => row.(status := ARCHIVED, isActive := false, sourceType := FromARCHIVED)
    case _ => row
  }

  /** `approve`, `reject` and `archive` when nothing comes between their read and their write. */
  function Transition(t: Table, id: Id, to: Status): (Table, Outcome) {
    if id !in t then (t, Failed(NotFound))
    else if !CanTransition(t[id].status, to) then (t, Failed(BadRequest))
    else (t[id := Moved(t[id], to)], Done)
  }

  // ----- Patches -----

  datatype Patch = Patch(
    version: Option<int>, fields: Content, status: Option<Status>, sourceType: Option<SourceType>, isActive: Option<bool>)

  /** Fields in which an empty string is stored as null. */
  predicate EmptyIsNull(f: Field) {
    f in {Subtitle, CityId, HeroImage, Description, FilterCategory, FilterSubcategory, FilterAudience, MetaTitle, MetaDescription}
  }

  function Stored(f: Field, v: Value): Value {
    if EmptyIsNull(f) && v == Some("") then None else v
  }

  function Patched(row: Row, p: Patch): Row {
    Row(row.content + (map f | f in p.fields :: Stored(f, p.fields[f])),
        p.status.GetOr(row.status), p.sourceType.GetOr(row.sourceType), p.isActive.GetOr(row.isActive),
        row.isDeleted, row.deletedAt, row.version + 1, row.semanticKey)
  }

  /** Another collection has the slug the patch sets. */
  predicate SlugClash(t: Table, id: Id, p: Patch) {
    Slug in p.fields && exists x | x in t :: x != id && Slug in t[x].content && t[x].content[Slug] == p.fields[Slug]
  }

  /** `update`: count 0 is a conflict, whether the row is missing or has another version. */
  function Update(t: Table, id: Id, p: Patch): (Table, Outcome) {
    if p.version.None? then (t, Failed(BadRequest))
    else if id !in t || t[id].version != p.version.value then (t, Failed(Conflict))
    else if SlugClash(t, id, p) then (t, Failed(Refused))
    else (t[id := Patched(t[id], p)], Done)
  }

  function Delete(t: Table, id: Id, now: int): (Table, Outcome) {
    if id !in t then (t, Failed(NotFound))
    else (t[id := t[id].(isDeleted := true, deletedAt := Some(now), isActive := false)], Done)
  }

  /** What a field is created with when the request leaves it out, or null. */
  function Default(f: Field): Value {
    match f
    case FilterTags => Some("[]")
    case PinnedEventIds => Some("[]")
    case ExcludedEventIds => Some("[]")
    case SelectionBasis => Some("MANUAL")
    case SortOrder => Some("0")
    case _ => None
  }

  function Initial(f: Field, content: Content): Value {
    var v := if f in content then Stored(f, content[f]) else None;
    if v.None? then Default(f) else v
  }

  /** The content of a new row: every field has a value or null. */
  function Created(content: Content): Content {
    map f: Field | true :: Initial(f, content)
  }

  predicate SlugTaken(t: Table, slug: Value) {
    exists x | x in t :: Slug in t[x].content && t[x].content[Slug] == slug
  }

  /** `create`: a new row at version 0. */
  function Create(t: Table, id: Id, content: Content, status: Status, sourceType: SourceType, isActive: bool): (Table, Outcome) {
    if Slug !in content || Title !in content || content[Slug].GetOr("") == "" || content[Title].GetOr("") == ""
    then (t, Failed(BadRequest))
    else if id in t || SlugTaken(t, content[Slug]) then (t, Failed(Conflict))
    else (t[id := Row(Created(content), status, sourceType, isActive, false, None, 0, None)], Done)
  }

  // ----- Suggestions -----

  /** A suggestion for a city that has enough events: its key, and the texts built from its tags. */
  datatype Seed = Seed(
    cityId: string, semanticKey: string, slug: string, title: string, subtitle: string, tags: string, basis: string)

  /** The fields that a suggestion writes. */
  function SeedContent(seed: Seed): Content {
    map[
      CityId := Some(seed.cityId), Slug := Some(seed.slug), Title := Some(seed.title), Subtitle := Some(seed.subtitle),
      FilterTags := Some(seed.tags), SelectionBasis := Some(seed.basis), RankingJson := Some("balanced"),
      PinnedEventIds := Some("[]"), ExcludedEventIds := Some("[]")]
  }

  predicate HasValue(content: Content, f: Field, v: string) {
    f in content && content[f] == Some(v)
  }

  /** The row is one that the service looks for: live, of the city, with the key or the slug. */
  predicate Matches(row: Row, seed: Seed) {
    && !row.isDeleted && HasValue(row.content, CityId, seed.cityId)
    && (row.semanticKey == Some(seed.semanticKey) || HasValue(row.content, Slug, seed.slug))
  }

  /** What the query of the service may return: any row it looks for, or nothing if there is none. */
  predicate IsAnswer(t: Table, seed: Seed, found: Option<Id>) {
    if found.Some? then found.value in t && Matches(t[found.value], seed) else forall x | x in t :: !Matches(t[x], seed)
  }

  /** A row that the service leaves alone. */
  predicate Kept(row: Row) {
    row.status == ACTIVE || row.sourceType == FromMANUAL
  }

  function Suggested(row: Row, seed: Seed): Row {
    row.(content := row.content + SeedContent(seed), status := SUGGESTED, sourceType := FromSUGGESTED, isActive := false,
         semanticKey := Some(seed.semanticKey))
  }

  predicate SeedClash(t: Table, id: Id, seed: Seed) {
    exists x | x in t :: x != id && HasValue(t[x].content, Slug, seed.slug)
  }

  /** The write of a suggestion, with the row its query had found and the id of a row to create. */
  function WriteSuggestion(t: Table, seed: Seed, found: Option<Id>, newId: Id): (Table, Outcome) {
    match found
    case None =>
      if newId in t || SlugTaken(t, Some(seed.slug)) then (t, Failed(Conflict))
      else (t[newId := Row(Created(SeedContent(seed)), SUGGESTED, FromSUGGESTED, false, false, None, 0, Some(seed.semanticKey))],
            Done)
    case Some(id) =>
      if id !in t then (t, Failed(NotFound))
      else if SeedClash(t, id, seed) then (t, Failed(Conflict))
      else (t[id := Suggested(t[id], seed)], Done)
  }

  /** One turn of the suggestion service when nothing comes between its read and its write. */
  function Suggest(t: Table, seed: Seed, found: Option<Id>, newId: Id): (Table, Outcome) {
    if found.Some? && found.value in t && Kept(t[found.value]) then (t, Done)
    else WriteSuggestion(t, seed, found, newId)
  }

  // ----- Interleaved requests -----

  /**
    `Move` is the write of a transition, `SuggestLate` that of a suggestion and `Show` that of the
    materializer, each after a check that was made on an earlier read.
   */
  datatype Step =
    | Insert(newId: Id, content: Content, newStatus: Status, newSource: SourceType, active: bool)
    | Edit(id: Id, patch: Patch)
    | Move(moved: Id, to: Status)
    | Remove(removed: Id, now: int)
    | Suggestion(seed: Seed, found: Option<Id>, suggestedId: Id)
    | SuggestLate(lateSeed: Seed, lateFound: Option<Id>, lateId: Id)
    | Show(shown: Id, on: bool)

  function Apply(t: Table, step: Step): Table {
    match step
    case Insert(id, content, status, sourceType, isActive) => Create(t, id, content, status, sourceType, isActive).0
    case Edit(id, patch) => Update(t, id, patch).0
    case Move(id, to) => if id in t then t[id := Moved(t[id], to)] else t
    case Remove(id, now) => Delete(t, id, now).0
    case Suggestion(seed, found, newId) => if IsAnswer(t, seed, found) then Suggest(t, seed, found, newId).0 else t
    case SuggestLate(seed, found, newId) => WriteSuggestion(t, seed, found, newId).0
    case Show(id, on) => if id in t then t[id := t[id].(isActive := on)] else t
  }

  function Run(t: Table, steps: seq<Step>): Table
    decreases steps
  {
    if steps == [] then t else Run(Apply(t, steps[0]), steps[1..])
  }

  /** The suggestion that the step writes over the row, if it does. */
  function SeedOver(t: Table, step: Step, id: Id): Option<Seed>
    requires id in t
  {
    match step
    case Suggestion(seed, found, _) =>
      if found == Some(id) && Matches(t[id], seed) && !Kept(t[id]) && !SeedClash(t, id, seed) then Some(seed) else None
    case SuggestLate(seed, found, _) =>
      if found == Some(id) && !SeedClash(t, id, seed) then Some(seed) else None
    case _ => None
  }

  function Overlaid(content: Content, seed: Option<Seed>): Content {
    if seed.None? then content else content + SeedContent(seed.value)
  }

  lemma OneStep(t: Table, step: Step, id: Id)
    requires id in t
    ensures var after := Apply(t, step);
            && id in after && t[id].version <= after[id].version
            && (after[id].version == t[id].version ==> after[id].content == Overlaid(t[id].content, SeedOver(t, step, id)))
            && (after[id].version != t[id].version ==>
                  step.Edit? && step.id == id && step.patch.version == Some(t[id].version)
                  && after[id] == Patched(t[id], step.patch))
  {
    hide SlugClash, SeedClash, SlugTaken, Created, SeedContent, Matches;
  }

  /** The suggestion that was last written over the row in a run. */
  function LastSeed(t: Table, steps: seq<Step>, id: Id): Option<Seed>
    requires id in t
    decreases steps
  {
    if steps == [] then None
    else
      OneStep(t, steps[0], id);
      LastSeed(Apply(t, steps[0]), steps[1..], id).OrElse(SeedOver(t, steps[0], id))
  }

  /** The row already has what the suggestion writes, if there is one. */
  predicate AlreadyHas(content: Content, seed: Option<Seed>) {
    seed.Some? ==> forall f | f in SeedContent(seed.value) :: f in content && content[f] == SeedContent(seed.value)[f]
  }

  lemma OverlaidTwice(content: Content, a: Option<Seed>, b: Option<Seed>)
    ensures Overlaid(Overlaid(content, a), b) == Overlaid(content, b.OrElse(a))
  {
    if a.Some? && b.Some? {
      assert SeedContent(a.value).Keys == SeedContent(b.value).Keys;
    }
  }

  lemma OverlaidSame(content: Content, seed: Option<Seed>)
    ensures Overlaid(content, seed) == content <==> AlreadyHas(content, seed)
  {
    hide SeedContent;
    if seed.Some? && Overlaid(content, seed) == content {
      forall f | f in SeedContent(seed.value)
        ensures f in content && content[f] == SeedContent(seed.value)[f]
      {
        assert Overlaid(content, seed)[f] == SeedContent(seed.value)[f];
      }
    }
  }

  /** One suggestion keeps the content of a row exactly when it is not written over it, or the row has its values. */
  lemma SuggestionKeepsContentIff(t: Table, step: Step, id: Id)
    requires id in t && (step.Suggestion? || step.SuggestLate?)
    ensures id in Apply(t, step)
    ensures Apply(t, step)[id].content == t[id].content <==> AlreadyHas(t[id].content, SeedOver(t, step, id))
  {
    OneStep(t, step, id);
    OverlaidSame(t[id].content, SeedOver(t, step, id));
  }

  /**
    Along a run versions never fall, and a row that still has its version has its content with the
    last suggestion written over it; so the content is the same exactly when there was no suggestion
    or the row had the values of the last one.
   */
  lemma {:induction false} VersionFixesContentIff(t: Table, steps: seq<Step>, id: Id)
    requires id in t
    ensures var after := Run(t, steps);
            && id in after && t[id].version <= after[id].version
            && (after[id].version == t[id].version ==>
                  && after[id].content == Overlaid(t[id].content, LastSeed(t, steps, id))
                  && (after[id].content == t[id].content <==> AlreadyHas(t[id].content, LastSeed(t, steps, id))))
    decreases steps
  {
    hide Apply, Overlaid, SeedOver, AlreadyHas;
    OverlaidSame(t[id].content, LastSeed(t, steps, id));
    if steps == [] {
      NothingOverlaid(t[id].content);
    } else {
      var next := Apply(t, steps[0]);
      OneStep(t, steps[0], id);
      VersionFixesContentIff(next, steps[1..], id);
      OverlaidTwice(t[id].content, SeedOver(t, steps[0], id), LastSeed(next, steps[1..], id));
    }
  }

  lemma NothingOverlaid(content: Content)
    ensures Overlaid(content, None) == content
  {
  }

  /** The step writes no suggestion over the row: it does not suggest, or found another row or none. */
  predicate SuggestsElsewhere(step: Step, id: Id) {
    && (step.Suggestion? ==> step.found != Some(id))
    && (step.SuggestLate? ==> step.lateFound != Some(id))
  }

  /** Over runs of everything else, a row that still has its version still has its content. */
  lemma {:induction false} VersionFixesContent(t: Table, steps: seq<Step>, id: Id)
    requires id in t && forall s | s in steps :: SuggestsElsewhere(s, id)
    ensures LastSeed(t, steps, id).None? && id in Run(t, steps)
    ensures Run(t, steps)[id].version == t[id].version ==> Run(t, steps)[id].content == t[id].content
    decreases steps
  {
    VersionFixesContentIff(t, steps, id);
    if steps != [] {
      assert steps[0] in steps && forall s | s in steps[1..] :: s in steps;
      OneStep(t, steps[0], id);
      hide Apply, SuggestsElsewhere;
      assert SeedOver(t, steps[0], id).None? by {
        NoSeedOver(t, steps[0], id);
      }
      VersionFixesContent(Apply(t, steps[0]), steps[1..], id);
    }
  }

  lemma NoSeedOver(t: Table, step: Step, id: Id)
    requires id in t && SuggestsElsewhere(step, id)
    ensures SeedOver(t, step, id).None?
  {
  }

  /**
    A PATCH whose author read the row at `read` and that succeeds, after whatever came in between,
    finds the content its author saw with the last suggestion written over it, and then changes
    exactly the fields it names.  So no update is lost and it sees its author's content exactly when
    there was no suggestion, or the row had the values of the last one.
   */
  lemma PatchSeesItsContent(read: Table, steps: seq<Step>, id: Id, p: Patch)
    requires id in read && p.version == Some(read[id].version)
    requires Update(Run(read, steps), id, p).1.Done?
    ensures Run(read, steps)[id].content == Overlaid(read[id].content, LastSeed(read, steps, id))
    ensures Run(read, steps)[id].content == read[id].content <==> AlreadyHas(read[id].content, LastSeed(read, steps, id))
    ensures var (seen, after) := (Run(read, steps)[id], Update(Run(read, steps), id, p).0[id]);
            && after.version == read[id].version + 1
            && (forall f :: f in after.content <==> f in seen.content || f in p.fields)
            && forall f | f in after.content ::
                 after.content[f] == if f in p.fields then Stored(f, p.fields[f]) else seen.content[f]
  {
    hide Overlaid, AlreadyHas, SlugClash;
    VersionFixesContentIff(read, steps, id);
  }

  predicate Succeeds(t: Table, step: Step, id: Id, version: int) {
    step.Edit? && step.id == id && step.patch.version == Some(version) && Update(t, id, step.patch).1.Done?
  }

  function CountPatches(t: Table, steps: seq<Step>, id: Id, version: int): nat
    decreases steps
  {
    if steps == [] then 0
    else (if Succeeds(t, steps[0], id, version) then 1 else 0) + CountPatches(Apply(t, steps[0]), steps[1..], id, version)
  }

  lemma {:induction false} NoPatchBehind(t: Table, steps: seq<Step>, id: Id, version: int)
    requires id in t && version < t[id].version
    ensures CountPatches(t, steps, id, version) == 0
    decreases steps
  {
    if steps != [] {
      OneStep(t, steps[0], id);
      hide Apply;
      NoPatchBehind(Apply(t, steps[0]), steps[1..], id, version);
    }
  }

  /** Of all the PATCHes of one collection based on one version, at most one succeeds. */
  lemma {:induction false} AtMostOnePatchPerVersion(t: Table, steps: seq<Step>, id: Id, version: int)
    ensures CountPatches(t, steps, id, version) <= 1
    decreases steps
  {
    if steps != [] {
      if Succeeds(t, steps[0], id, version) {
        NoPatchBehind(Apply(t, steps[0]), steps[1..], id, version);
      } else {
        AtMostOnePatchPerVersion(Apply(t, steps[0]), steps[1..], id, version);
      }
    }
  }

  /**
    A PATCH based on a version that was read succeeds exactly when no other PATCH of that version
    came first and its slug is free: transitions, deletions and suggestions do not disturb it otherwise.
   */
  lemma {:induction false} PatchSucceedsIff(read: Table, steps: seq<Step>, id: Id, p: Patch)
    requires id in read && p.version == Some(read[id].version)
    ensures Update(Run(read, steps), id, p).1.Done?
       <==> CountPatches(read, steps, id, read[id].version) == 0 && !SlugClash(Run(read, steps), id, p)
    decreases steps
  {
    hide SlugClash;
    if steps != [] {
      var after := Apply(read, steps[0]);
      OneStep(read, steps[0], id);
      VersionFixesContentIff(after, steps[1..], id);
      if Succeeds(read, steps[0], id, read[id].version) {
        Bumped(read, steps[0], id);
      } else {
        NotBumped(read, steps[0], id);
        hide Apply;
        PatchSucceedsIff(after, steps[1..], id, p);
      }
    }
  }

  lemma Bumped(t: Table, step: Step, id: Id)
    requires id in t && Succeeds(t, step, id, t[id].version)
    ensures Apply(t, step)[id].version == t[id].version + 1
  {
  }

  lemma NotBumped(t: Table, step: Step, id: Id)
    requires id in t && !Succeeds(t, step, id, t[id].version)
    ensures id in Apply(t, step) && Apply(t, step)[id].version == t[id].version
  {
  }

  // ----- The archive -----

  /** The step takes an archived row out of the archive: a late transition, a PATCH of the status, a suggestion. */
  predicate LeavesArchive(t: Table, step: Step, id: Id)
    requires id in t
  {
    match step
    case Move(x, to) => x == id && (to == ACTIVE || to == REJECTED)
    case Edit(x, p) =>
      && x == id && p.version == Some(t[id].version) && !SlugClash(t, id, p)
      && p.status.GetOr(ARCHIVED) != ARCHIVED
    case Suggestion(seed, found, _) =>
      found == Some(id) && Matches(t[id], seed) && t[id].sourceType != FromMANUAL && !SeedClash(t, id, seed)
    case SuggestLate(seed, found, _) => found == Some(id) && !SeedClash(t, id, seed)
    case _ => false
  }

  lemma StepKeepsArchivedIff(t: Table, step: Step, id: Id)
    requires id in t && t[id].status == ARCHIVED
    ensures id in Apply(t, step) && (Apply(t, step)[id].status == ARCHIVED <==> !LeavesArchive(t, step, id))
  {
    hide SlugClash, SeedClash, Matches, SlugTaken, Created, SeedContent;
  }

  predicate ArchivedThroughout(t: Table, steps: seq<Step>, id: Id)
    decreases steps
  {
    id in t && t[id].status == ARCHIVED && (steps == [] || ArchivedThroughout(Apply(t, steps[0]), steps[1..], id))
  }

  predicate NeverLeaves(t: Table, steps: seq<Step>, id: Id)
    decreases steps
  {
    steps == [] || (id in t && !LeavesArchive(t, steps[0], id) && NeverLeaves(Apply(t, steps[0]), steps[1..], id))
  }

  /**
    An archived collection is archived in every state of a run exactly when no step of it is a late
    transition to ACTIVE or REJECTED, a PATCH of its current version with another status, or a
    suggestion that finds it; a suggestion passes by only rows of the source MANUAL, and not even
    those when it was checked on an earlier read.
   */
  lemma {:induction false} ArchiveIsFinalIff(t: Table, steps: seq<Step>, id: Id)
    requires id in t && t[id].status == ARCHIVED
    ensures ArchivedThroughout(t, steps, id) <==> NeverLeaves(t, steps, id)
    decreases steps
  {
    if steps != [] {
      StepKeepsArchivedIff(t, steps[0], id);
      hide Apply, LeavesArchive;
      if !LeavesArchive(t, steps[0], id) {
        ArchiveIsFinalIff(Apply(t, steps[0]), steps[1..], id);
      }
    }
  }

  /** The step writes no status but ARCHIVED to the row. */
  predicate SetsNoStatus(step: Step, id: Id) {
    match step
    case Move(x, to) => x != id || (to != ACTIVE && to != REJECTED)
    case Edit(x, p) => x != id || p.status.GetOr(ARCHIVED) == ARCHIVED
    case Suggestion(_, found, _) => found != Some(id)
    case SuggestLate(_, found, _) => found != Some(id)
    case _ => true
  }

  /** The steps left out there: late approvals and rejections, PATCHes to another status, and suggestions. */
  lemma StatusWriters(step: Step, id: Id)
    ensures !SetsNoStatus(step, id)
       <==> || step == Move(id, ACTIVE) || step == Move(id, REJECTED)
            || (step.Edit? && step.id == id && step.patch.status in {Some(DRAFT), Some(SUGGESTED), Some(ACTIVE), Some(REJECTED)})
            || (step.Suggestion? && step.found == Some(id))
            || (step.SuggestLate? && step.lateFound == Some(id))
  {
  }

  /** The materializer writes the visibility of one row; a late suggestion for a row that is gone fails. */
  lemma LateWritesAre(t: Table, id: Id, on: bool, seed: Seed, newId: Id)
    ensures var after := Apply(t, Show(id, on));
            if id !in t then after == t && WriteSuggestion(t, seed, Some(id), newId) == (t, Failed(NotFound))
            else && OnlyRow(t, after, id) && after[id].isActive == on && SameContent(t[id], after[id])
                 && after[id].status == t[id].status && after[id].sourceType == t[id].sourceType
  {
  }

  /** PATCHes of the content, deletions, the materializer and steps on other collections leave it in the archive. */
  lemma {:induction false} ArchivedWithoutStatus(t: Table, steps: seq<Step>, id: Id)
    requires id in t && t[id].status == ARCHIVED && forall s | s in steps :: SetsNoStatus(s, id)
    ensures ArchivedThroughout(t, steps, id)
    decreases steps
  {
    if steps != [] {
      assert steps[0] in steps && forall s | s in steps[1..] :: s in steps;
      StepKeepsArchivedIff(t, steps[0], id);
      hide Apply, SetsNoStatus;
      assert !LeavesArchive(t, steps[0], id) by {
        StatusStays(t, steps[0], id);
      }
      ArchivedWithoutStatus(Apply(t, steps[0]), steps[1..], id);
    }
  }

  /** Whatever runs follow, as long as they write no other status to the row. */
  ghost predicate ArchivedForGood(t: Table, id: Id) {
    forall steps | forall s | s in steps :: SetsNoStatus(s, id) :: ArchivedThroughout(t, steps, id)
  }

  lemma StaysForGood(t: Table, id: Id)
    requires id in t && t[id].status == ARCHIVED
    ensures ArchivedForGood(t, id)
  {
    forall steps | forall s | s in steps :: SetsNoStatus(s, id)
      ensures ArchivedThroughout(t, steps, id)
    {
      ArchivedWithoutStatus(t, steps, id);
    }
  }

  lemma StatusStays(t: Table, step: Step, id: Id)
    requires id in t && SetsNoStatus(step, id)
    ensures !LeavesArchive(t, step, id)
  {
  }

  /**
    A transition is not checked again when it is written: an `approve` that read the collection
    before it was archived revives it, although every transition that reads it afterwards is refused.
   */
  lemma ApproveAfterArchive(read: Table, id: Id)
    requires id in read && CanTransition(read[id].status, ACTIVE)
    ensures Transition(read, id, ACTIVE).1.Done?
    ensures forall to :: Transition(Run(read, [Move(id, ARCHIVED)]), id, to).1 == Failed(BadRequest)
    ensures var after := Run(read, [Move(id, ARCHIVED), Move(id, ACTIVE)]);
            id in after && after[id].status == ACTIVE
  {
    var both := [Move(id, ARCHIVED), Move(id, ACTIVE)];
    var archived := Apply(read, both[0]);
    assert both[1..] == [Move(id, ACTIVE)];
    assert Run(archived, both[1..]) == Run(Apply(archived, Move(id, ACTIVE)), []);
    assert Run(read, [Move(id, ARCHIVED)]) == Run(archived, []);
  }

  /**
    What the exception amounts to: a suggestion that was archived, or rejected, is found again by the
    next run of the service, which writes its texts and makes it a suggestion once more.  Its version
    stays, so a PATCH of whoever read it before still succeeds, on content its author did not see.
   */
  lemma ArchivedSuggestionRevived(read: Table, id: Id, seed: Seed, newId: Id, p: Patch)
    requires id in read && Matches(read[id], seed) && read[id].status == SUGGESTED
    requires !SeedClash(read, id, seed) && !AlreadyHas(read[id].content, Some(seed))
    requires p.version == Some(read[id].version) && Slug !in p.fields
    ensures CanTransition(SUGGESTED, ARCHIVED)
    ensures var archived := Run(read, [Move(id, ARCHIVED)]);
            id in archived && archived[id].status == ARCHIVED && IsAnswer(archived, seed, Some(id)) && !Kept(archived[id])
    ensures var after := Run(read, [Move(id, ARCHIVED), Suggestion(seed, Some(id), newId)]);
            && id in after && after[id].status == SUGGESTED && after[id].version == read[id].version
            && after[id].content != read[id].content && Update(after, id, p).1.Done?
  {
    var archived := Apply(read, Move(id, ARCHIVED));
    var suggested := Apply(archived, Suggestion(seed, Some(id), newId));
    var steps := [Move(id, ARCHIVED), Suggestion(seed, Some(id), newId)];
    assert steps[1..] == [Suggestion(seed, Some(id), newId)];
    assert Run(suggested, []) == suggested && Run(archived, steps[1..]) == Run(suggested, []);
    assert Run(read, [Move(id, ARCHIVED)]) == Run(archived, []);
    assert SeedClash(archived, id, seed) <==> SeedClash(read, id, seed);
    assert SeedOver(archived, steps[1], id) == Some(seed);
    hide Apply, SeedContent;
    OneStep(archived, steps[1], id);
    OverlaidSame(read[id].content, Some(seed));
  }

  const TOUR := Seed("c1", "c1:walking", "kazan-walking", "walking в Казани", "Автоподборка", "walking", "STRUCTURAL")

  /** Such an input: one suggestion for a city, whose title an editor has changed. */
  lemma RevivalIsReachable(p: Patch)
    requires p.version == Some(3) && Slug !in p.fields
    ensures var content := Created(SeedContent(TOUR))[Title := Some("Прогулки")];
            var read := map["1" := Row(content, SUGGESTED, FromSUGGESTED, false, false, None, 3, Some("c1:walking"))];
            var after := Run(read, [Move("1", ARCHIVED), Suggestion(TOUR, Some("1"), "2")]);
            && "1" in after && after["1"].status == SUGGESTED && after["1"].content != content
            && Update(after, "1", p).1.Done?
  {
    var content := Created(SeedContent(TOUR))[Title := Some("Прогулки")];
    var read := map["1" := Row(content, SUGGESTED, FromSUGGESTED, false, false, None, 3, Some("c1:walking"))];
    assert SeedContent(TOUR)[Title] == Some("walking в Казани");
    assert "walking в Казани"[0] != "Прогулки"[0];
    assert content[CityId] == Some("c1");
    hide Run;
    ArchivedSuggestionRevived(read, "1", TOUR, "2", p);
  }

  // ----- Slugs -----

  /** Every collection has a slug of its own. */
  predicate UniqueSlugs(t: Table) {
    && (forall x | x in t :: Slug in t[x].content)
    && forall x, y | x in t && y in t && x != y :: t[x].content[Slug] != t[y].content[Slug]
  }

  lemma WrittenRowKeepsUnique(t: Table, id: Id, row: Row)
    requires UniqueSlugs(t) && Slug in row.content
    requires forall x | x in t && x != id :: t[x].content[Slug] != row.content[Slug]
    ensures UniqueSlugs(t[id := row])
  {
  }

  lemma PatchKeepsUnique(t: Table, id: Id, p: Patch)
    requires UniqueSlugs(t) && Update(t, id, p).1.Done?
    ensures UniqueSlugs(Update(t, id, p).0)
  {
    var row := Patched(t[id], p);
    assert row.content[Slug] == if Slug in p.fields then p.fields[Slug] else t[id].content[Slug];
    hide Patched;
    WrittenRowKeepsUnique(t, id, row);
  }

  lemma SuggestionKeepsUnique(t: Table, seed: Seed, found: Option<Id>, newId: Id)
    requires UniqueSlugs(t)
    ensures UniqueSlugs(WriteSuggestion(t, seed, found, newId).0)
  {
    var after := WriteSuggestion(t, seed, found, newId);
    if after.1.Done? {
      var id := found.GetOr(newId);
      assert HasValue(after.0[id].content, Slug, seed.slug);
      hide Created, SeedContent, Suggested;
      WrittenRowKeepsUnique(t, id, after.0[id]);
    }
  }

  lemma StepKeepsUniqueSlugs(t: Table, step: Step)
    requires UniqueSlugs(t)
    ensures UniqueSlugs(Apply(t, step))
  {
    match step
    case Insert(id, content, status, sourceType, isActive) =>
      if Create(t, id, content, status, sourceType, isActive).1.Done? {
        WrittenRowKeepsUnique(t, id, Row(Created(content), status, sourceType, isActive, false, None, 0, None));
      }
    case Edit(id, p) =>
      if Update(t, id, p).1.Done? {
        PatchKeepsUnique(t, id, p);
      }
      hide UniqueSlugs, SlugClash, Patched;
    case Move(id, to) =>
      if id in t {
        WrittenRowKeepsUnique(t, id, Moved(t[id], to));
      }
    case Remove(id, now) =>
      if id in t {
        WrittenRowKeepsUnique(t, id, Delete(t, id, now).0[id]);
      }
    case Suggestion(seed, found, newId) =>
      SuggestionKeepsUnique(t, seed, found, newId);
      hide UniqueSlugs, WriteSuggestion;
    case SuggestLate(seed, found, newId) =>
      SuggestionKeepsUnique(t, seed, found, newId);
      hide UniqueSlugs, WriteSuggestion;
    case Show(id, on) =>
      if id in t {
        WrittenRowKeepsUnique(t, id, t[id].(isActive := on));
      }
  }

  /** Slugs of collections stay pairwise distinct over every run. */
  lemma {:induction false} SlugsStayUnique(t: Table, steps: seq<Step>)
    requires UniqueSlugs(t)
    ensures UniqueSlugs(Run(t, steps))
    decreases steps
  {
    hide Apply, UniqueSlugs;
    if steps != [] {
      StepKeepsUniqueSlugs(t, steps[0]);
      SlugsStayUnique(Apply(t, steps[0]), steps[1..]);
    }
  }

  // ----- What a preview shows to have changed -----

  datatype Diff = Diff(added: seq<Id>, removed: seq<Id>, changedOrder: seq<Id>)

  function Missing(ids: seq<Id>, other: seq<Id>): (r: seq<Id>)
    ensures forall x :: x in r <==> x in ids && x !in other
  {
    if ids == [] then [] else (if ids[0] !in other then [ids[0]] else []) + Missing(ids[1..], other)
  }

  /** Ids of `after` from position `i` on that `before` has at another position. */
  function Displaced(before: seq<Id>, after: seq<Id>, i: nat): (r: seq<Id>)
    requires i <= |after|
    ensures forall k | i <= k < |after| && after[k] in before && !(k < |before| && before[k] == after[k]) :: after[k] in r
    ensures forall x | x in r :: exists k :: i <= k < |after| && after[k] == x && x in before && !(k < |before| && before[k] == x)
    decreases |after| - i
  {
    if i == |after| then []
    else (if after[i] in before && !(i < |before| && before[i] == after[i]) then [after[i]] else [])
         + Displaced(before, after, i + 1)
  }

  function PreviewDiff(before: seq<Id>, after: seq<Id>): Diff {
    Diff(Missing(after, before), Missing(before, after), Displaced(before, after, 0))
  }

  predicate Distinct(ids: seq<Id>) {
    forall i, j | 0 <= i < j < |ids| :: ids[i] != ids[j]
  }

  predicate SameAt(before: seq<Id>, after: seq<Id>, k: nat)
    requires k < |after|
  {
    k < |before| && before[k] == after[k]
  }

  lemma LongerShowsRemoved(before: seq<Id>, after: seq<Id>)
    requires Distinct(before) && |after| < |before|
    requires forall k | 0 <= k < |after| :: before[k] == after[k]
    ensures Missing(before, after) != []
  {
    var x := before[|after|];
    assert x in before && x !in after;
    assert x in Missing(before, after);
  }

  lemma NotEmpty(ids: seq<Id>)
    ensures ids == [] || exists x :: x in ids
  {
    if ids != [] {
      assert ids[0] in ids;
    }
  }

  /** The preview shows no difference exactly when the two selections are the same list. */
  lemma EmptyDiffIffSame(before: seq<Id>, after: seq<Id>)
    requires Distinct(before) && Distinct(after)
    ensures PreviewDiff(before, after) == Diff([], [], []) <==> before == after
  {
    var d := PreviewDiff(before, after);
    if d == Diff([], [], []) {
      forall k | 0 <= k < |after|
        ensures SameAt(before, after, k)
      {
        assert after[k] in after && after[k] !in d.added;
        assert after[k] !in d.changedOrder;
      }
      assert after != [] ==> SameAt(before, after, |after| - 1);
      assert forall k | 0 <= k < |after| :: SameAt(before, after, k) && before[k] == after[k];
      if |after| < |before| {
        LongerShowsRemoved(before, after);
      }
      assert before == after;
    }
    if before == after {
      NotEmpty(d.added);
      NotEmpty(d.removed);
      NotEmpty(d.changedOrder);
    }
  }

  /** The ids come one after the other in the list. */
  predicate InOrderOf(ids: seq<Id>, list: seq<Id>) {
    || ids == []
    || (list != [] && InOrderOf(if ids[0] == list[0] then ids[1..] else ids, list[1..]))
  }

  lemma {:induction false} MissingInOrder(ids: seq<Id>, other: seq<Id>)
    ensures InOrderOf(Missing(ids, other), ids)
  {
    if ids != [] {
      var r, later := Missing(ids, other), Missing(ids[1..], other);
      MissingInOrder(ids[1..], other);
      if ids[0] !in other {
        assert r[0] == ids[0] && r[1..] == later;
      } else {
        assert r == later && ids[0] !in r;
      }
    }
  }

  lemma {:induction false} DisplacedInOrder(before: seq<Id>, after: seq<Id>, i: nat)
    requires Distinct(after) && i <= |after|
    ensures InOrderOf(Displaced(before, after, i), after[i..])
    decreases |after| - i
  {
    if i < |after| {
      var r, later := Displaced(before, after, i), Displaced(before, after, i + 1);
      DisplacedInOrder(before, after, i + 1);
      assert after[i..][0] == after[i] && after[i..][1..] == after[i + 1..];
      if r != later {
        assert r[0] == after[i] && r[1..] == later;
      } else {
        assert after[i] !in r;
      }
    }
  }

  /**
    The preview lists the events only in the new selection, those only in the old one, and those in
    both that are at another place; each in the order of its selection.
   */
  lemma DiffMeans(before: seq<Id>, after: seq<Id>, x: Id)
    requires Distinct(before) && Distinct(after)
    ensures var d := PreviewDiff(before, after);
            && (x in d.added <==> x in after && x !in before) && InOrderOf(d.added, after)
            && (x in d.removed <==> x in before && x !in after) && InOrderOf(d.removed, before)
            && (x in d.changedOrder <==> exists k | 0 <= k < |after| ::
                  after[k] == x && x in before && (k >= |before| || before[k] != x))
            && InOrderOf(d.changedOrder, after)
  {
    hide InOrderOf;
    MissingInOrder(after, before);
    MissingInOrder(before, after);
    DisplacedInOrder(before, after, 0);
    assert after[0..] == after;
  }

  // ----- What each request answers and writes -----

  /** The two rows are the same but for status, source and visibility. */
  predicate SameContent(row: Row, after: Row) {
    && after.content == row.content && after.version == row.version && after.isDeleted == row.isDeleted
    && after.deletedAt == row.deletedAt && after.semanticKey == row.semanticKey
  }

  /** Drafts and suggestions are approved, suggestions and active collections rejected, all but the archive archived. */
  predicate MayBecome(status: Status, to: Status) {
    match to
    case ACTIVE => status == DRAFT || status == SUGGESTED
    case REJECTED => status == SUGGESTED || status == ACTIVE
    case ARCHIVED => status != ARCHIVED
    case SUGGESTED => status == DRAFT || status == REJECTED
    case DRAFT => false
  }

  predicate Became(row: Row, after: Row, to: Status) {
    && after.status == to && after.isActive == (to == ACTIVE)
    && after.sourceType == (if to == ACTIVE then FromACTIVE else if to == ARCHIVED then FromARCHIVED else row.sourceType)
    && SameContent(row, after)
  }

  /** Which transitions succeed, by status, and what they leave. */
  lemma TransitionWrites(t: Table, id: Id, to: Status)
    requires to == ACTIVE || to == REJECTED || to == ARCHIVED
    ensures var (after, r) := Transition(t, id, to);
            && (r == Failed(NotFound) <==> id !in t)
            && (r == Failed(BadRequest) <==> id in t && !MayBecome(t[id].status, to))
            && if id in t && MayBecome(t[id].status, to)
               then r.Done? && OnlyRow(t, after, id) && Became(t[id], after[id], to)
               else after == t
  {
  }

  /** The table of transitions that previews of the status use. */
  lemma TransitionsByStatus(from: Status, to: Status)
    ensures CanTransition(from, to) <==> MayBecome(from, to)
  {
  }

  lemma PatchWrites(t: Table, id: Id, p: Patch)
    ensures var (after, r) := Update(t, id, p);
            var current := id in t && p.version == Some(t[id].version);
            && (r == Failed(BadRequest) <==> p.version.None?)
            && (r == Failed(Conflict) <==> p.version.Some? && !current)
            && (r == Failed(Refused) <==> current && SlugOfOther(t, id, p))
            && if current && !SlugOfOther(t, id, p)
               then && r.Done? && OnlyRow(t, after, id) && after[id].version == t[id].version + 1
                    && after[id].status == (if p.status.Some? then p.status.value else t[id].status)
                    && after[id].sourceType == (if p.sourceType.Some? then p.sourceType.value else t[id].sourceType)
                    && after[id].isActive == (if p.isActive.Some? then p.isActive.value else t[id].isActive)
                    && after[id].isDeleted == t[id].isDeleted && after[id].deletedAt == t[id].deletedAt
                    && after[id].semanticKey == t[id].semanticKey
               else after == t
  {
    hide Stored;
  }

  predicate SlugOfOther(t: Table, id: Id, p: Patch) {
    Slug in p.fields && exists x | x in t && x != id :: Slug in t[x].content && t[x].content[Slug] == p.fields[Slug]
  }

  /** An empty text is stored as null in the optional texts; everything else is stored as it is. */
  lemma StoredIs(f: Field, v: Value)
    ensures var optional := f in {Subtitle, CityId, HeroImage, Description, FilterCategory, FilterSubcategory, FilterAudience,
                                  MetaTitle, MetaDescription};
            Stored(f, v) == if optional && v == Some("") then None else v
  {
  }

  lemma DeleteWrites(t: Table, id: Id, now: int)
    ensures var (after, r) := Delete(t, id, now);
            if id !in t then r == Failed(NotFound) && after == t
            else && r.Done? && OnlyRow(t, after, id)
                 && after[id].isDeleted && after[id].deletedAt == Some(now) && !after[id].isActive
                 && after[id].status == t[id].status && after[id].sourceType == t[id].sourceType
                 && after[id].content == t[id].content && after[id].version == t[id].version
                 && after[id].semanticKey == t[id].semanticKey
  {
  }

  /** A creation needs a slug and a title with text, and an unused slug; the row starts at version 0. */
  lemma CreateWrites(t: Table, id: Id, content: Content, status: Status, sourceType: SourceType, isActive: bool)
    ensures var (after, r) := Create(t, id, content, status, sourceType, isActive);
            var named := && Slug in content && content[Slug].Some? && content[Slug] != Some("")
                         && Title in content && content[Title].Some? && content[Title] != Some("");
            var used := named && (id in t || exists x | x in t :: Slug in t[x].content && t[x].content[Slug] == content[Slug]);
            && (r == Failed(BadRequest) <==> !named)
            && (r == Failed(Conflict) <==> used)
            && if named && !used
               then && r.Done? && after.Keys == t.Keys + {id} && (forall x | x in t :: after[x] == t[x])
                    && var row := after[id];
                       && row.version == 0 && !row.isDeleted && row.deletedAt.None? && row.semanticKey.None?
                       && row.status == status && row.sourceType == sourceType && row.isActive == isActive
               else after == t
  {
    hide Created;
  }

  /** What a new row has in a field: the text given, unless it is empty where that means null, or the default. */
  lemma CreatedField(content: Content, f: Field)
    ensures f in Created(content)
    ensures f in content && content[f].Some? && content[f] != Some("") ==> Created(content)[f] == content[f]
    ensures f !in content || content[f].None? ==>
              Created(content)[f] == if f in {FilterTags, PinnedEventIds, ExcludedEventIds} then Some("[]")
                                     else if f == SelectionBasis then Some("MANUAL")
                                     else if f == SortOrder then Some("0") else None
    ensures f in content && content[f] == Some("") ==>
              Created(content)[f] == if f in {Subtitle, CityId, HeroImage, Description, FilterCategory, FilterSubcategory,
                                              FilterAudience, MetaTitle, MetaDescription} then None else Some("")
  {
  }

  /** What a suggestion writes: texts of its city and tags, no pinned and no excluded events. */
  lemma SuggestedFields(row: Row, seed: Seed)
    ensures var after := Suggested(row, seed);
            && after.content.Keys == row.content.Keys + {Slug, Title, Subtitle, CityId, FilterTags, SelectionBasis, RankingJson,
                                                         PinnedEventIds, ExcludedEventIds}
            && after.content[Slug] == Some(seed.slug) && after.content[Title] == Some(seed.title)
            && after.content[Subtitle] == Some(seed.subtitle) && after.content[CityId] == Some(seed.cityId)
            && after.content[FilterTags] == Some(seed.tags) && after.content[SelectionBasis] == Some(seed.basis)
            && after.content[RankingJson] == Some("balanced")
            && after.content[PinnedEventIds] == Some("[]") && after.content[ExcludedEventIds] == Some("[]")
            && (forall f | f in row.content && f !in {Slug, Title, Subtitle, CityId, FilterTags, SelectionBasis, RankingJson,
                                                      PinnedEventIds, ExcludedEventIds} :: after.content[f] == row.content[f])
            && after.status == SUGGESTED && after.sourceType == FromSUGGESTED && !after.isActive
            && after.isDeleted == row.isDeleted && after.deletedAt == row.deletedAt && after.version == row.version
            && after.semanticKey == Some(seed.semanticKey)
  {
  }

  predicate SlugOfAny(t: Table, slug: string) {
    exists x | x in t :: Slug in t[x].content && t[x].content[Slug] == Some(slug)
  }

  /** A suggestion passes by an active or manual row, rewrites another one it found, and creates a hidden row for none. */
  lemma SuggestWrites(t: Table, seed: Seed, found: Option<Id>, newId: Id)
    requires IsAnswer(t, seed, found)
    ensures var (after, r) := Suggest(t, seed, found, newId);
            if found.None?
            then if newId in t || SlugOfAny(t, seed.slug) then r == Failed(Conflict) && after == t
                 else && r.Done? && after.Keys == t.Keys + {newId} && (forall x | x in t :: after[x] == t[x])
                      && var row := after[newId];
                         && row.content == Created(SeedContent(seed)) && row.status == SUGGESTED
                         && row.sourceType == FromSUGGESTED && !row.isActive && !row.isDeleted && row.deletedAt.None?
                         && row.version == 0 && row.semanticKey == Some(seed.semanticKey)
            else && found.value in t
                 && var row := t[found.value];
                    if row.status == ACTIVE || row.sourceType == FromMANUAL then r.Done? && after == t
                    else if exists x | x in t && x != found.value :: Slug in t[x].content && t[x].content[Slug] == Some(seed.slug)
                    then r == Failed(Conflict) && after == t
                    else r.Done? && OnlyRow(t, after, found.value) && after[found.value] == Suggested(row, seed)
  {
    hide SeedContent, Created;
  }

  /** The rows that a suggestion looks for: live, of its city, with its key or its slug. */
  lemma MatchesAre(row: Row, seed: Seed)
    ensures Matches(row, seed)
       <==> && !row.isDeleted && CityId in row.content && row.content[CityId] == Some(seed.cityId)
            && (|| row.semanticKey == Some(seed.semanticKey)
                || (Slug in row.content && row.content[Slug] == Some(seed.slug)))
  {
  }

  // ----- The endpoints on one table -----

  /** The other collections are as they were. */
  predicate OnlyRow(t: Table, after: Table, id: Id) {
    after.Keys == t.Keys && forall x | x in t && x != id :: after[x] == t[x]
  }

  /** Every PATCH gets the answer it would have got before. */
  ghost predicate PatchesUndisturbed(t: Table, after: Table) {
    forall x, p :: Update(after, x, p).1 == Update(t, x, p).1
  }

  lemma SameContentSamePatches(t: Table, after: Table)
    requires after.Keys == t.Keys
    requires forall x | x in t :: after[x].content == t[x].content && after[x].version == t[x].version
    ensures PatchesUndisturbed(t, after) && (UniqueSlugs(t) ==> UniqueSlugs(after))
  {
    forall x, p
      ensures Update(after, x, p).1 == Update(t, x, p).1
    {
      assert SlugClash(after, x, p) <==> SlugClash(t, x, p);
    }
  }

  lemma MovedIsApplied(t: Table, id: Id, to: Status)
    requires id in t && UniqueSlugs(t)
    ensures var after := t[id := Moved(t[id], to)];
            PatchesUndisturbed(t, after) && UniqueSlugs(after) && OnlyRow(t, after, id)
  {
    SameContentSamePatches(t, t[id := Moved(t[id], to)]);
  }

  /** A live row that was neither active nor manual is now a hidden suggestion, under the same version. */
  predicate MadeSuggestion(before: Row, after: Row) {
    && !before.isDeleted && !Kept(before)
    && after.status == SUGGESTED && after.sourceType == FromSUGGESTED && !after.isActive && !after.isDeleted
    && after.version == before.version
  }

  predicate OnlySuggestions(t: Table, after: Table) {
    forall x | x in t :: x in after && (after[x] == t[x] || MadeSuggestion(t[x], after[x]))
  }

  lemma NoSuggestionsYet(t: Table)
    ensures OnlySuggestions(t, t) && Run(t, []) == t
  {
  }

  lemma SuggestionsAddUp(a: Table, b: Table, c: Table)
    requires OnlySuggestions(a, b) && OnlySuggestions(b, c)
    ensures OnlySuggestions(a, c)
  {
  }

  lemma MatchesAreLive(t: Table, seed: Seed, found: Option<Id>)
    requires IsAnswer(t, seed, found)
    ensures found.Some? ==> found.value in t && !t[found.value].isDeleted
  {
  }

  lemma {:induction false} RunThen(t: Table, steps: seq<Step>, step: Step)
    ensures Run(t, steps + [step]) == Apply(Run(t, steps), step)
    decreases steps
  {
    hide Apply;
    if steps == [] {
      assert [step][1..] == [] && [] + [step] == [step];
    } else {
      assert (steps + [step])[1..] == steps[1..] + [step];
      RunThen(Apply(t, steps[0]), steps[1..], step);
    }
  }

  class Endpoints {
    var rows: Table

    /** The unique key on slugs. */
    predicate Valid()
      reads this
    {
      UniqueSlugs(rows)
    }

    /** The new collection is the only one with its slug, and the PATCH of whoever reads it succeeds. */
    method CreateCollection(id: Id, content: Content, status: Option<Status>, sourceType: Option<SourceType>,
                            isActive: Option<bool>) returns (r: Outcome)
      requires Valid()
      modifies this
      ensures Valid()
      ensures r.Done? ==> id in rows && OnlyRow(rows - {id}, old(rows), id) && Slug in content
      ensures r.Done? ==> forall f: Field :: f in rows[id].content
      ensures r.Done? ==> forall f | f in content && content[f].GetOr("") != "" :: rows[id].content[f] == content[f]
      ensures r.Done? ==> forall f | EmptyIsNull(f) :: rows[id].content[f] != Some("")
      ensures r.Done? ==> forall x | x in rows && rows[x].content[Slug] == content[Slug] :: x == id
      ensures r.Done? ==> forall p: Patch | p.version == Some(0) :: Update(rows, id, p).1.Done? <==> !SlugClash(rows, id, p)
      ensures !r.Done? ==> rows == old(rows)
      ensures (rows, r) == Create(old(rows), id, content,
                                  status.GetOr(if isActive == Some(true) then ACTIVE else DRAFT),
                                  sourceType.GetOr(FromMANUAL), isActive.GetOr(true))
    {
      if Slug !in content || Title !in content || content[Slug].GetOr("") == "" || content[Title].GetOr("") == "" {
        return Failed(BadRequest);
      }
      if id in rows || SlugTaken(rows, content[Slug]) {
        return Failed(Conflict);
      }
      var s := if status.Some? then status.value else if isActive == Some(true) then ACTIVE else DRAFT;
      var data := map f: Field | true ::
        if f in content && content[f].Some? && !(EmptyIsNull(f) && content[f] == Some("")) then content[f] else Default(f);
      assert data == Created(content);
      rows := rows[id := Row(data, s, sourceType.GetOr(FromMANUAL), isActive.GetOr(true), false, None, 0, None)];
      assert rows - {id} == old(rows);
      r := Done;
    }

    /** The query of the suggestion service: some row that it looks for, in whatever order the rows come. */
    method FindExisting(seed: Seed) returns (found: Option<Id>)
      ensures IsAnswer(rows, seed, found)
    {
      var left := rows.Keys;
      while left != {}
        invariant left <= rows.Keys
        invariant forall x | x in rows && x !in left :: !Matches(rows[x], seed)
        decreases left
      {
        var x :| x in left;
        if Matches(rows[x], seed) {
          return Some(x);
        }
        left := left - {x};
      }
      found := None;
    }

    /** One turn of the loop of the suggestion service. */
    method SuggestOne(seed: Seed, newId: Id) returns (r: Outcome, created: nat, updated: nat, ghost step: Step)
      requires Valid()
      modifies this
      ensures Valid()
      ensures step.Suggestion? && step.seed == seed && rows == Apply(old(rows), step)
      ensures created + updated <= 1 && |rows| == |old(rows)| + created
      ensures OnlySuggestions(old(rows), rows)
    {
      hide UniqueSlugs, SeedClash, SlugTaken, IsAnswer, Created, SeedContent, Matches;
      created, updated := 0, 0;
      var existing := FindExisting(seed);
      step := Suggestion(seed, existing, newId);
      MatchesAreLive(rows, seed, existing);
      StepKeepsUniqueSlugs(rows, step);
      if existing.None? {
        if newId in rows || SlugTaken(rows, Some(seed.slug)) {
          return Failed(Conflict), created, updated, step;
        }
        rows := rows[newId := Row(Created(SeedContent(seed)), SUGGESTED, FromSUGGESTED, false, false, None, 0,
                                  Some(seed.semanticKey))];
        return Done, 1, updated, step;
      }
      var row := rows[existing.value];
      if row.status == ACTIVE || row.sourceType == FromMANUAL {
        return Done, created, updated, step;
      }
      if SeedClash(rows, existing.value, seed) {
        return Failed(Conflict), created, updated, step;
      }
      row := row.(content := row.content + SeedContent(seed), semanticKey := Some(seed.semanticKey));
      rows := rows[existing.value := row.(sourceType := FromSUGGESTED, status := SUGGESTED, isActive := false)];
      r, updated := Done, 1;
    }

    /**
      The suggestion service, over the seeds with enough events.  It leaves active, manual and deleted
      rows alone; every other row it writes becomes a hidden suggestion under its old version.
     */
    method GenerateSuggestions(seeds: seq<Seed>, newIds: seq<Id>)
      returns (r: Outcome, created: nat, updated: nat, ghost steps: seq<Step>)
      requires Valid() && |newIds| == |seeds|
      modifies this
      ensures Valid()
      ensures rows == Run(old(rows), steps) && |steps| <= |seeds|
      ensures forall i | 0 <= i < |steps| :: steps[i].Suggestion? && steps[i].seed == seeds[i]
      ensures r.Done? ==> |steps| == |seeds|
      ensures created + updated <= |seeds| && |rows| == |old(rows)| + created
      ensures OnlySuggestions(old(rows), rows)
    {
      hide UniqueSlugs, Apply, Run, OnlySuggestions;
      created, updated, steps := 0, 0, [];
      NoSuggestionsYet(rows);
      for i := 0 to |seeds|
        invariant Valid() && |steps| == i && rows == Run(old(rows), steps)
        invariant forall j | 0 <= j < i :: steps[j].Suggestion? && steps[j].seed == seeds[j]
        invariant created + updated <= i && |rows| == |old(rows)| + created
        invariant OnlySuggestions(old(rows), rows)
      {
        ghost var before := rows;
        var outcome, c, u, step := SuggestOne(seeds[i], newIds[i]);
        RunThen(old(rows), steps, step);
        SuggestionsAddUp(old(rows), before, rows);
        created, updated, steps := created + c, updated + u, steps + [step];
        if outcome.Failed? {
          return outcome, created, updated, steps;
        }
      }
      r := Done;
    }

    /** A PATCH that succeeds makes every other PATCH of its version fail. */
    method UpdateCollection(id: Id, body: Patch) returns (r: Outcome)
      requires Valid()
      modifies this
      ensures Valid()
      ensures !r.Done? ==> rows == old(rows)
      ensures r.Done? ==> id in old(rows) && OnlyRow(old(rows), rows, id) && rows[id].version == old(rows)[id].version + 1
      ensures r.Done? ==> body.version.Some? && forall q: Patch | q.version == body.version :: !Update(rows, id, q).1.Done?
      ensures (rows, r) == Update(old(rows), id, body)
    {
      hide UniqueSlugs, SlugClash;
      StepKeepsUniqueSlugs(rows, Edit(id, body));
      if body.version.None? {
        return Failed(BadRequest);
      }
      var count := 0;
      if id in rows && rows[id].version == body.version.value {
        if SlugClash(rows, id, body) {
          return Failed(Refused);
        }
        var row := rows[id];
        row := row.(content := row.content + (map f | f in body.fields :: Stored(f, body.fields[f])));
        if body.sourceType.Some? {
          row := row.(sourceType := body.sourceType.value);
        }
        if body.status.Some? {
          row := row.(status := body.status.value);
        }
        if body.isActive.Some? {
          row := row.(isActive := body.isActive.value);
        }
        rows := rows[id := row.(version := row.version + 1)];
        count := 1;
      }
      if count == 0 {
        return Failed(Conflict);
      }
      r := Done;
    }

    /** A deletion disturbs no PATCH, and keeps the status. */
    method DeleteCollection(id: Id, now: int) returns (r: Outcome)
      requires Valid()
      modifies this
      ensures Valid()
      ensures r.Done? ==> id in old(rows) && OnlyRow(old(rows), rows, id)
      ensures !r.Done? ==> rows == old(rows)
      ensures PatchesUndisturbed(old(rows), rows)
      ensures r.Done? ==> rows[id].isDeleted && !rows[id].isActive && rows[id].status == old(rows)[id].status
      ensures (rows, r) == Delete(old(rows), id, now)
    {
      hide PatchesUndisturbed, UniqueSlugs;
      SameContentSamePatches(rows, rows);
      if id !in rows {
        return Failed(NotFound);
      }
      rows := rows[id := rows[id].(isDeleted := true, deletedAt := Some(now), isActive := false)];
      SameContentSamePatches(old(rows), rows);
      r := Done;
    }

    /** An approval disturbs no PATCH, and cannot be repeated. */
    method Approve(id: Id) returns (r: Outcome)
      requires Valid()
      modifies this
      ensures Valid()
      ensures r.Done? ==> id in old(rows) && OnlyRow(old(rows), rows, id)
      ensures !r.Done? ==> rows == old(rows)
      ensures PatchesUndisturbed(old(rows), rows)
      ensures r.Done? ==> rows[id].status == ACTIVE && rows[id].isActive
      ensures r.Done? ==> Transition(rows, id, ACTIVE).1 == Failed(BadRequest)
      ensures r.Done? <==> id in old(rows) && (old(rows)[id].status == DRAFT || old(rows)[id].status == SUGGESTED)
      ensures r.Done? ==> Became(old(rows)[id], rows[id], ACTIVE)
      ensures (rows, r) == Transition(old(rows), id, ACTIVE)
    {
      hide PatchesUndisturbed, UniqueSlugs;
      TransitionWrites(rows, id, ACTIVE);
      SameContentSamePatches(rows, rows);
      if id !in rows {
        return Failed(NotFound);
      }
      if !CanTransition(rows[id].status, ACTIVE) {
        return Failed(BadRequest);
      }
      rows := rows[id := rows[id].(status := ACTIVE, sourceType := FromACTIVE, isActive := true)];
      MovedIsApplied(old(rows), id, ACTIVE);
      r := Done;
    }

    /** From a rejection only the transitions to a suggestion and to the archive are left. */
    method Reject(id: Id) returns (r: Outcome)
      requires Valid()
      modifies this
      ensures Valid()
      ensures r.Done? ==> id in old(rows) && OnlyRow(old(rows), rows, id)
      ensures !r.Done? ==> rows == old(rows)
      ensures PatchesUndisturbed(old(rows), rows)
      ensures r.Done? ==> rows[id].status == REJECTED && !rows[id].isActive
      ensures r.Done? ==> forall to :: Transition(rows, id, to).1.Done? <==> to == SUGGESTED || to == ARCHIVED
      ensures r.Done? <==> id in old(rows) && (old(rows)[id].status == SUGGESTED || old(rows)[id].status == ACTIVE)
      ensures r.Done? ==> Became(old(rows)[id], rows[id], REJECTED)
      ensures (rows, r) == Transition(old(rows), id, REJECTED)
    {
      hide PatchesUndisturbed, UniqueSlugs;
      TransitionWrites(rows, id, REJECTED);
      SameContentSamePatches(rows, rows);
      if id !in rows {
        return Failed(NotFound);
      }
      if !CanTransition(rows[id].status, REJECTED) {
        return Failed(BadRequest);
      }
      rows := rows[id := rows[id].(status := REJECTED, isActive := false)];
      MovedIsApplied(old(rows), id, REJECTED);
      r := Done;
    }

    /** No transition that reads the collection afterwards leads out of the archive; PATCHes of the status and suggestions do. */
    method ArchiveCollection(id: Id) returns (r: Outcome)
      requires Valid()
      modifies this
      ensures Valid()
      ensures r.Done? ==> id in old(rows) && OnlyRow(old(rows), rows, id)
      ensures !r.Done? ==> rows == old(rows)
      ensures PatchesUndisturbed(old(rows), rows)
      ensures r.Done? ==> forall to :: Transition(rows, id, to).1 == Failed(BadRequest)
      ensures r.Done? ==> ArchivedForGood(rows, id)
      ensures r.Done? <==> id in old(rows) && old(rows)[id].status != ARCHIVED
      ensures r.Done? ==> Became(old(rows)[id], rows[id], ARCHIVED)
      ensures (rows, r) == Transition(old(rows), id, ARCHIVED)
    {
      hide ArchivedForGood, PatchesUndisturbed, UniqueSlugs;
      TransitionWrites(rows, id, ARCHIVED);
      SameContentSamePatches(rows, rows);
      if id !in rows {
        return Failed(NotFound);
      }
      if !CanTransition(rows[id].status, ARCHIVED) {
        return Failed(BadRequest);
      }
      rows := rows[id := rows[id].(status := ARCHIVED, isActive := false, sourceType := FromARCHIVED)];
      MovedIsApplied(old(rows), id, ARCHIVED);
      StaysForGood(rows, id);
      r := Done;
    }
  }
}
