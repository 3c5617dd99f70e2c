/**
  Backfill of subcategory links from format tags
  (packages/backend/scripts/backfill-format-subcategories.ts).
 */
module FormatBackfill {
  import opened Prelude
  import opened Letters
  import Tidy

  type EventId = string
  type SubId = string

  /** A format tag of an event: its code may be null. */
  datatype TagRow = TagRow(eventId: EventId, code: Option<string>, slug: string)

  /** An event and the slug of the subcategory its tag stands for. */
  datatype Candidate = Candidate(eventId: EventId, slug: string)

  const FORMAT_TO_SUBCATEGORY: map<string, string> := map[
    "walking" := "walking-excursion", "bus" := "bus-excursion", "boat" := "river-excursion",
    "guided" := "walking-excursion", "audio" := "museum", "immersive" := "show", "theatrical" := "theater",
    "open_date" := "museum", "combo" := "combined-excursion", "skip_the_line" := "museum"]

  const MAX_LINKS := 5

  /** Subcategories by id, and links of events to them. */
  type Subcategories = map<SubId, string>
  type Links = set<(EventId, SubId)>

  function NormalizeKey(value: Option<string>): string {
    ToLowerCase(Tidy.Trim(value.GetOr(""), IsSpace))
  }

  function KeyOf(row: TagRow): string {
    var key := NormalizeKey(row.code);
    if key != "" then key else NormalizeKey(Some(row.slug))
  }

  /** The string the script keys pairs by. */
  function PairKey(c: Candidate): string {
    c.eventId + ":" + c.slug
  }

  predicate NoColon(c: Candidate) {
    ':' !in c.eventId
  }

  function BeforeColon(s: string): string {
    if s == [] || s[0] == ':' then [] else [s[0]] + BeforeColon(s[1..])
  }

  lemma {:induction false} BeforeColonOf(a: string, b: string)
    requires ':' !in a
    ensures BeforeColon(a + ":" + b) == a
  {
    if a != [] {
      assert (a + ":" + b)[1..] == a[1..] + ":" + b;
      BeforeColonOf(a[1..], b);
    }
  }

  lemma PairKeyInjective(a: Candidate, b: Candidate)
    requires NoColon(a) && NoColon(b) && PairKey(a) == PairKey(b)
    ensures a == b
  {
    BeforeColonOf(a.eventId, a.slug);
    BeforeColonOf(b.eventId, b.slug);
    assert PairKey(a)[|a.eventId| + 1..] == a.slug && PairKey(b)[|b.eventId| + 1..] == b.slug;
  }

  // ----- Candidates -----

  function Mapped(rows: seq<TagRow>): seq<Candidate> {
    if rows == [] then []
    else
      var before, row := Mapped(rows[..|rows| - 1]), rows[|rows| - 1];
      if KeyOf(row) in FORMAT_TO_SUBCATEGORY
      then before + [Candidate(row.eventId, FORMAT_TO_SUBCATEGORY[KeyOf(row)])]
      else before
  }

  /** A `Map` keeps each key where it was first set. */
  function Unique(cands: seq<Candidate>): (u: seq<Candidate>)
    ensures forall c :: c in u ==> c in cands
  {
    if cands == [] then []
    else
      var before, c := Unique(cands[..|cands| - 1]), cands[|cands| - 1];
      if exists b | b in before :: PairKey(b) == PairKey(c) then before else before + [c]
  }

  predicate DistinctKeys(cands: seq<Candidate>) {
    forall i, j | 0 <= i < j < |cands| :: PairKey(cands[i]) != PairKey(cands[j])
  }

  lemma {:induction false} UniqueIsDistinct(cands: seq<Candidate>)
    requires forall c | c in cands :: NoColon(c)
    ensures DistinctKeys(Unique(cands)) && forall c :: c in Unique(cands) <==> c in cands
  {
    if cands != [] {
      var rest, c := cands[..|cands| - 1], cands[|cands| - 1];
      assert forall x :: x in cands <==> x in rest || x == c;
      UniqueIsDistinct(rest);
      if b :| b in Unique(rest) && PairKey(b) == PairKey(c) {
        PairKeyInjective(b, c);
      }
    }
  }

  // ----- The decision loop -----

  datatype Verdict = Existing | MissingSubcategory | OverLimit | Inserted

  /** What the loop knows: the keys of linked pairs and the number of links of each event. */
  datatype Memo = Memo(linked: set<string>, counts: map<EventId, nat>) {
    function Count(id: EventId): nat {
      if id in counts then counts[id] else 0
    }

    function Add(c: Candidate): Memo {
      Memo(linked + {PairKey(c)}, counts[c.eventId := Count(c.eventId) + 1])
    }
  }

  function VerdictOf(m: Memo, slugs: set<string>, c: Candidate): Verdict {
    if PairKey(c) in m.linked then Existing
    else if c.slug !in slugs then MissingSubcategory
    else if m.Count(c.eventId) >= MAX_LINKS then OverLimit
    else Inserted
  }

  function Next(m: Memo, slugs: set<string>, c: Candidate): Memo {
    if VerdictOf(m, slugs, c) == Inserted then m.Add(c) else m
  }

  /** One verdict for each candidate, in order. */
  function Verdicts(m: Memo, slugs: set<string>, cands: seq<Candidate>): (v: seq<Verdict>)
    ensures |v| == |cands|
    decreases cands
  {
    if cands == [] then [] else [VerdictOf(m, slugs, cands[0])] + Verdicts(Next(m, slugs, cands[0]), slugs, cands[1..])
  }

  /** The candidates inserted. */
  function Chosen(m: Memo, slugs: set<string>, cands: seq<Candidate>): (r: seq<Candidate>)
    ensures forall c | c in r :: c in cands
    decreases cands
  {
    if cands == [] then []
    else (if VerdictOf(m, slugs, cands[0]) == Inserted then [cands[0]] else [])
         + Chosen(Next(m, slugs, cands[0]), slugs, cands[1..])
  }

  function CountOf(cands: seq<Candidate>, id: EventId): nat {
    if cands == [] then 0 else (if cands[0].eventId == id then 1 else 0) + CountOf(cands[1..], id)
  }

  /** How many links of the table an event has. */
  function LinkCount(links: Links, id: EventId): nat {
    |set l | l in links && l.0 == id|
  }

  function LinkedKeys(links: Links, subs: Subcategories): set<string> {
    set l | l in links && l.1 in subs :: PairKey(Candidate(l.0, subs[l.1]))
  }

  function SlugSet(subs: Subcategories): set<string> {
    set s | s in subs :: subs[s]
  }

  /** The memo agrees with the table. */
  ghost predicate Describes(m: Memo, links: Links, subs: Subcategories) {
    m.linked == LinkedKeys(links, subs) && forall id :: m.Count(id) == LinkCount(links, id)
  }

  // ----- Guarantees of a run -----

  /** No run takes an event above the larger of its links before and the limit. */
  lemma {:induction false} NeverAboveLimit(m: Memo, slugs: set<string>, cands: seq<Candidate>, id: EventId)
    ensures var total := m.Count(id) + CountOf(Chosen(m, slugs, cands), id);
            total <= if m.Count(id) > 5 then m.Count(id) else 5
    ensures m.Count(id) >= 5 ==> CountOf(Chosen(m, slugs, cands), id) == 0
    decreases cands
  {
    if cands != [] {
      var next := Next(m, slugs, cands[0]);
      NeverAboveLimit(next, slugs, cands[1..], id);
      ChosenFirst(m, slugs, cands, id);
    }
  }

  lemma ChosenFirst(m: Memo, slugs: set<string>, cands: seq<Candidate>, id: EventId)
    requires cands != []
    ensures CountOf(Chosen(m, slugs, cands), id)
         == (if VerdictOf(m, slugs, cands[0]) == Inserted && cands[0].eventId == id then 1 else 0)
            + CountOf(Chosen(Next(m, slugs, cands[0]), slugs, cands[1..]), id)
  {
    var c, rest := cands[0], Chosen(Next(m, slugs, cands[0]), slugs, cands[1..]);
    assert ([c] + rest)[1..] == rest;
    assert [] + rest == rest;
  }

  /**
    Each candidate's verdict in terms of the table before the run: existing exactly when its pair was
    linked, missing exactly when it was not and its subcategory is not in the catalogue, and skipped
    by the limit exactly when the event is then at the limit or above.
   */
  lemma {:induction false} VerdictMeans(m: Memo, slugs: set<string>, cands: seq<Candidate>, i: nat)
    requires DistinctKeys(cands) && i < |cands|
    ensures var v, c := Verdicts(m, slugs, cands)[i], cands[i];
            && (v == Existing <==> PairKey(c) in m.linked)
            && (v == MissingSubcategory <==> PairKey(c) !in m.linked && c.slug !in slugs)
            && (v == OverLimit <==> PairKey(c) !in m.linked && c.slug in slugs
                                    && m.Count(c.eventId) + CountOf(Chosen(m, slugs, cands[..i]), c.eventId) >= 5)
            && (v == Inserted <==> c in Chosen(m, slugs, cands))
    decreases cands
  {
    DistinctRest(cands);
    if i == 0 {
      assert cands[..0] == [];
      assert CountOf(Chosen(m, slugs, []), cands[0].eventId) == 0;
    } else {
      var first, rest := cands[0], cands[1..];
      VerdictMeans(Next(m, slugs, first), slugs, rest, i - 1);
      assert cands[..i][1..] == rest[..i - 1] && cands[..i][0] == first;
      ChosenFirst(m, slugs, cands[..i], cands[i].eventId);
      assert PairKey(first) != PairKey(cands[i]);
      VerdictsRest(m, slugs, cands, i);
    }
  }

  lemma DistinctRest(cands: seq<Candidate>)
    requires DistinctKeys(cands) && cands != []
    ensures DistinctKeys(cands[1..]) && forall c | c in cands[1..] :: PairKey(c) != PairKey(cands[0])
  {
    var rest := cands[1..];
    assert forall a | 0 <= a < |rest| :: rest[a] == cands[a + 1];
  }

  lemma VerdictsRest(m: Memo, slugs: set<string>, cands: seq<Candidate>, i: nat)
    requires DistinctKeys(cands) && 0 < i < |cands|
    ensures Verdicts(m, slugs, cands)[i] == Verdicts(Next(m, slugs, cands[0]), slugs, cands[1..])[i - 1]
    ensures cands[i] in Chosen(m, slugs, cands) <==> cands[i] in Chosen(Next(m, slugs, cands[0]), slugs, cands[1..])
  {
    assert cands[i] != cands[0];
  }

  /** The chosen candidates are distinct pairs, none of them linked before, all with a subcategory. */
  lemma {:induction false} ChosenAreNew(m: Memo, slugs: set<string>, cands: seq<Candidate>)
    requires DistinctKeys(cands)
    ensures var r := Chosen(m, slugs, cands);
            && DistinctKeys(r)
            && forall c | c in r :: PairKey(c) !in m.linked && c.slug in slugs
    decreases cands
  {
    if cands != [] {
      var first, rest := cands[0], cands[1..];
      DistinctRest(cands);
      ChosenAreNew(Next(m, slugs, first), slugs, rest);
      var later := Chosen(Next(m, slugs, first), slugs, rest);
      if VerdictOf(m, slugs, first) == Inserted {
        assert Chosen(m, slugs, cands) == [first] + later;
        assert forall c | c in later :: PairKey(c) != PairKey(first);
      } else {
        assert Chosen(m, slugs, cands) == later;
      }
    }
  }

  /** With every candidate linked, without subcategory or at the limit, nothing is chosen. */
  lemma {:induction false} NothingLeft(m: Memo, slugs: set<string>, cands: seq<Candidate>)
    requires forall c | c in cands :: VerdictOf(m, slugs, c) != Inserted
    ensures Chosen(m, slugs, cands) == []
    decreases cands
  {
    if cands != [] {
      assert cands[0] in cands;
      NothingLeft(m, slugs, cands[1..]);
    }
  }

  /** The memo that describes the table after the chosen links are stored. */
  lemma {:induction false} NoneIsInsertedAgain(m: Memo, after: Memo, slugs: set<string>, cands: seq<Candidate>, c: Candidate)
    requires c in cands
    requires m.linked <= after.linked
    requires forall x | x in Chosen(m, slugs, cands) :: PairKey(x) in after.linked
    requires after.Count(c.eventId) >= m.Count(c.eventId) + CountOf(Chosen(m, slugs, cands), c.eventId)
    ensures VerdictOf(after, slugs, c) != Inserted
    decreases cands
  {
    var first, next := cands[0], Next(m, slugs, cands[0]);
    ChosenFirst(m, slugs, cands, c.eventId);
    if c == first {
      if VerdictOf(m, slugs, c) == Inserted {
        assert c in Chosen(m, slugs, cands);
      }
    } else {
      if VerdictOf(m, slugs, first) == Inserted {
        assert first in Chosen(m, slugs, cands);
      }
      NoneIsInsertedAgain(next, after, slugs, cands[1..], c);
    }
  }

  // ----- The links stored -----

  function SubOf(subs: Subcategories, slug: string): SubId
    requires UniqueSubSlugs(subs) && slug in SlugSet(subs)
  {
    var s :| s in subs && subs[s] == slug;
    s
  }

  predicate UniqueSubSlugs(subs: Subcategories) {
    forall a, b | a in subs && b in subs && subs[a] == subs[b] :: a == b
  }

  /** The link rows of the chosen candidates. */
  function LinksOf(subs: Subcategories, chosen: seq<Candidate>): set<(EventId, SubId)>
    requires UniqueSubSlugs(subs) && forall c | c in chosen :: c.slug in SlugSet(subs)
  {
    set c | c in chosen :: (c.eventId, SubOf(subs, c.slug))
  }

  lemma LinkedHasKey(subs: Subcategories, links: Links, l: (EventId, SubId))
    requires l.1 in subs
    ensures l in links ==> PairKey(Candidate(l.0, subs[l.1])) in LinkedKeys(links, subs)
  {
  }

  lemma OneMoreLink(links: Links, l: (EventId, SubId), id: EventId)
    requires l !in links
    ensures LinkCount(links + {l}, id) == LinkCount(links, id) + if l.0 == id then 1 else 0
  {
    var before := set x | x in links && x.0 == id;
    var after := set x | x in links + {l} && x.0 == id;
    assert after == if l.0 == id then before + {l} else before;
  }

  lemma LinksOfFirst(subs: Subcategories, chosen: seq<Candidate>)
    requires UniqueSubSlugs(subs) && chosen != [] && forall c | c in chosen :: c.slug in SlugSet(subs)
    ensures LinksOf(subs, chosen) == LinksOf(subs, chosen[1..]) + {(chosen[0].eventId, SubOf(subs, chosen[0].slug))}
  {
    assert chosen == [chosen[0]] + chosen[1..];
  }

  /** Storing new distinct pairs adds exactly their number of links to each event. */
  lemma {:induction false} StoredCounts(subs: Subcategories, links: Links, chosen: seq<Candidate>, id: EventId)
    requires UniqueSubSlugs(subs) && DistinctKeys(chosen)
    requires forall c | c in chosen :: c.slug in SlugSet(subs) && PairKey(c) !in LinkedKeys(links, subs)
    ensures LinkCount(links + LinksOf(subs, chosen), id) == LinkCount(links, id) + CountOf(chosen, id)
  {
    if chosen == [] {
      assert links + LinksOf(subs, chosen) == links;
    } else {
      DistinctRest(chosen);
      hide LinkCount, LinkedKeys, SubOf, DistinctKeys, LinksOf, PairKey;
      var c, rest := chosen[0], chosen[1..];
      StoredCounts(subs, links, rest, id);
      NewLink(subs, links, c, rest);
      LinksOfFirst(subs, chosen);
      var l := (c.eventId, SubOf(subs, c.slug));
      assert links + LinksOf(subs, chosen) == (links + LinksOf(subs, rest)) + {l};
      OneMoreLink(links + LinksOf(subs, rest), l, id);
    }
  }

  lemma NewLink(subs: Subcategories, links: Links, c: Candidate, rest: seq<Candidate>)
    requires UniqueSubSlugs(subs) && c.slug in SlugSet(subs) && PairKey(c) !in LinkedKeys(links, subs)
    requires forall x | x in rest :: x.slug in SlugSet(subs)
    requires forall i | 0 <= i < |rest| :: PairKey(rest[i]) != PairKey(c)
    ensures (c.eventId, SubOf(subs, c.slug)) !in links + LinksOf(subs, rest)
  {
    var l := (c.eventId, SubOf(subs, c.slug));
    LinkedHasKey(subs, links, l);
    forall x | x in rest
      ensures (x.eventId, SubOf(subs, x.slug)) != l
    {
      assert PairKey(x) != PairKey(c);
    }
  }

  lemma StoredKeys(subs: Subcategories, links: Links, chosen: seq<Candidate>, c: Candidate)
    requires UniqueSubSlugs(subs) && c in chosen && forall x | x in chosen :: x.slug in SlugSet(subs)
    ensures PairKey(c) in LinkedKeys(links + LinksOf(subs, chosen), subs)
  {
    var l := (c.eventId, SubOf(subs, c.slug));
    assert l in LinksOf(subs, chosen);
    assert PairKey(Candidate(l.0, subs[l.1])) == PairKey(c);
  }

  /** After a run is applied, a second run over the same tags inserts nothing. */
  lemma SecondRunIsIdle(m: Memo, after: Memo, links: Links, subs: Subcategories, cands: seq<Candidate>)
    requires UniqueSubSlugs(subs) && DistinctKeys(cands) && forall c | c in cands :: NoColon(c)
    requires Describes(m, links, subs)
    requires forall c | c in Chosen(m, SlugSet(subs), cands) :: c.slug in SlugSet(subs)
    requires Describes(after, links + LinksOf(subs, Chosen(m, SlugSet(subs), cands)), subs)
    ensures Chosen(after, SlugSet(subs), cands) == []
  {
    var slugs := SlugSet(subs);
    var chosen := Chosen(m, slugs, cands);
    ChosenAreNew(m, slugs, cands);
    forall c | c in cands
      ensures VerdictOf(after, slugs, c) != Inserted
    {
      StoredCounts(subs, links, chosen, c.eventId);
      forall x | x in chosen
        ensures PairKey(x) in after.linked
      {
        StoredKeys(subs, links, chosen, x);
      }
      NoneIsInsertedAgain(m, after, slugs, cands, c);
    }
    NothingLeft(after, slugs, cands);
  }

  // ----- The script as a whole -----

  /** Event ids are UUIDs. */
  predicate PlainIds(rows: seq<TagRow>, links: Links) {
    (forall r | r in rows :: ':' !in r.eventId) && forall l | l in links :: ':' !in l.0
  }

  function Candidates(rows: seq<TagRow>): seq<Candidate> {
    Unique(Mapped(rows))
  }

  /** The links the script reads: those of the candidates' events. */
  function Relevant(links: Links, cands: seq<Candidate>): Links {
    set l | l in links && exists c | c in cands :: c.eventId == l.0
  }

  function MemoOf(links: Links, subs: Subcategories): (m: Memo)
    ensures Describes(m, links, subs)
  {
    var counts := map l | l in links :: l.0 := LinkCount(links, l.0);
    assert forall id :: id !in counts ==> (set l | l in links && l.0 == id) == {};
    Memo(LinkedKeys(links, subs), counts)
  }

  function Decided(rows: seq<TagRow>, subs: Subcategories, links: Links): seq<Candidate> {
    Chosen(MemoOf(Relevant(links, Candidates(rows)), subs), SlugSet(subs), Candidates(rows))
  }

  lemma {:induction false} MappedIds(rows: seq<TagRow>, links: Links)
    requires PlainIds(rows, links)
    ensures forall c | c in Mapped(rows) :: NoColon(c)
  {
    if rows != [] {
      assert rows[|rows| - 1] in rows && forall r | r in rows[..|rows| - 1] :: r in rows;
      MappedIds(rows[..|rows| - 1], links);
    }
  }

  lemma DecidedAreNew(rows: seq<TagRow>, subs: Subcategories, links: Links)
    requires UniqueSubSlugs(subs) && PlainIds(rows, links)
    ensures DistinctKeys(Candidates(rows)) && forall c | c in Candidates(rows) :: NoColon(c)
    ensures var r := Decided(rows, subs, links);
            DistinctKeys(r) && forall c | c in r :: c.slug in SlugSet(subs) && PairKey(c) !in LinkedKeys(links, subs)
  {
    MappedIds(rows, links);
    UniqueIsDistinct(Mapped(rows));
    var cands := Candidates(rows);
    var seen := Relevant(links, cands);
    ChosenAreNew(MemoOf(seen, subs), SlugSet(subs), cands);
    forall c | c in Decided(rows, subs, links)
      ensures PairKey(c) !in LinkedKeys(links, subs)
    {
      forall l | l in links && l.1 in subs
        ensures PairKey(Candidate(l.0, subs[l.1])) != PairKey(c)
      {
        if PairKey(Candidate(l.0, subs[l.1])) == PairKey(c) {
          PairKeyInjective(Candidate(l.0, subs[l.1]), c);
          LinkedHasKey(subs, seen, l);
        }
      }
    }
  }

  /** The link table after an applied run. */
  function Applied(rows: seq<TagRow>, subs: Subcategories, links: Links): Links
    requires UniqueSubSlugs(subs) && PlainIds(rows, links)
  {
    DecidedAreNew(rows, subs, links);
    links + LinksOf(subs, Decided(rows, subs, links))
  }

  /** An applied run takes no event above the larger of its links before and the limit of five. */
  lemma AppliedWithinLimit(rows: seq<TagRow>, subs: Subcategories, links: Links, id: EventId)
    requires UniqueSubSlugs(subs) && PlainIds(rows, links)
    ensures var before, after := LinkCount(links, id), LinkCount(Applied(rows, subs, links), id);
            before <= after <= if before > 5 then before else 5
  {
    var cands, chosen := Candidates(rows), Decided(rows, subs, links);
    var m := MemoOf(Relevant(links, cands), subs);
    DecidedAreNew(rows, subs, links);
    StoredCounts(subs, links, chosen, id);
    NeverAboveLimit(m, SlugSet(subs), cands, id);
    if c :| c in cands && c.eventId == id {
      SameCount(links, cands, id);
    } else {
      NotCounted(chosen, id);
    }
  }

  lemma SameCount(links: Links, cands: seq<Candidate>, id: EventId)
    requires exists c :: c in cands && c.eventId == id
    ensures LinkCount(Relevant(links, cands), id) == LinkCount(links, id)
  {
    assert (set l | l in Relevant(links, cands) && l.0 == id) == (set l | l in links && l.0 == id);
  }

  lemma {:induction false} NotCounted(cands: seq<Candidate>, id: EventId)
    requires forall c | c in cands :: c.eventId != id
    ensures CountOf(cands, id) == 0
  {
    if cands != [] {
      assert cands[0] in cands;
      NotCounted(cands[1..], id);
    }
  }

  /** Running the applied script again over the same tags decides on nothing. */
  lemma AppliedTwice(rows: seq<TagRow>, subs: Subcategories, links: Links)
    requires UniqueSubSlugs(subs) && PlainIds(rows, links)
    ensures Decided(rows, subs, Applied(rows, subs, links)) == []
  {
    var cands, chosen := Candidates(rows), Decided(rows, subs, links);
    DecidedAreNew(rows, subs, links);
    var seen := Relevant(links, cands);
    var after := Applied(rows, subs, links);
    assert Relevant(after, cands) == seen + LinksOf(subs, chosen);
    SecondRunIsIdle(MemoOf(seen, subs), MemoOf(Relevant(after, cands), subs), seen, subs, cands);
  }

  // ----- The loops -----

  method MapTags(rows: seq<TagRow>) returns (candidates: seq<Candidate>)
    ensures candidates == Mapped(rows)
  {
    candidates := [];
    for i := 0 to |rows|
      invariant candidates == Mapped(rows[..i])
    {
      var key := KeyOf(rows[i]);
      assert rows[..i + 1][..i] == rows[..i];
      if key !in FORMAT_TO_SUBCATEGORY {
        continue;
      }
      candidates := candidates + [Candidate(rows[i].eventId, FORMAT_TO_SUBCATEGORY[key])];
    }
    assert rows[..|rows|] == rows;
  }

  /** `uniquePairs`: a key already set keeps its place, and its candidate is the same pair. */
  method Deduplicate(candidates: seq<Candidate>) returns (unique: seq<Candidate>)
    ensures unique == Unique(candidates)
  {
    var keys: set<string> := {};
    unique := [];
    for i := 0 to |candidates|
      invariant unique == Unique(candidates[..i])
      invariant keys == set b | b in unique :: PairKey(b)
    {
      var c := candidates[i];
      assert candidates[..i + 1][..i] == candidates[..i];
      if PairKey(c) !in keys {
        unique := unique + [c];
        keys := keys + {PairKey(c)};
      }
    }
    assert candidates[..|candidates|] == candidates;
  }

  /** The link counts of the events, one link after the other in any order. */
  method CountLinks(links: Links, subs: Subcategories) returns (m: Memo)
    ensures m == MemoOf(links, subs)
  {
    var counts: map<EventId, nat> := map[];
    var rest := links;
    while rest != {}
      invariant rest <= links
      invariant forall id :: id in counts <==> exists l :: l in links - rest && l.0 == id
      invariant forall id :: (if id in counts then counts[id] else 0) == LinkCount(links - rest, id)
      decreases rest
    {
      var l :| l in rest;
      assert links - (rest - {l}) == (links - rest) + {l};
      forall id {
        OneMoreLink(links - rest, l, id);
      }
      hide LinkCount;
      counts := counts[l.0 := (if l.0 in counts then counts[l.0] else 0) + 1];
      rest := rest - {l};
    }
    assert links - {} == links;
    assert counts == MemoOf(links, subs).counts;
    m := Memo(LinkedKeys(links, subs), counts);
  }

  /** `main`: the links after the run, and the numbers it reports. */
  method Run(rows: seq<TagRow>, subs: Subcategories, links: Links, apply: bool)
    returns (after: Links, willInsert: nat, skippedByLimit: nat, skippedMissing: nat)
    requires UniqueSubSlugs(subs) && PlainIds(rows, links)
    ensures after == if apply then Applied(rows, subs, links) else links
    ensures willInsert == |Decided(rows, subs, links)|
    ensures var verdicts := Verdicts(MemoOf(Relevant(links, Candidates(rows)), subs), SlugSet(subs), Candidates(rows));
            skippedByLimit == Tally(OverLimit, verdicts) && skippedMissing == Tally(MissingSubcategory, verdicts)
  {
    var candidates := MapTags(rows);
    var unique := Deduplicate(candidates);
    var memo := CountLinks(Relevant(links, unique), subs);
    var toInsert: seq<Candidate>;
    toInsert, skippedByLimit, skippedMissing := Decide(memo, SlugSet(subs), unique);
    willInsert := |toInsert|;
    after := links;
    if apply && |toInsert| > 0 {
      DecidedAreNew(rows, subs, links);
      after := links + LinksOf(subs, toInsert);
    }
    assert toInsert == [] ==> links + LinksOf(subs, []) == links;
  }

  method Decide(m0: Memo, slugs: set<string>, unique: seq<Candidate>)
    returns (toInsert: seq<Candidate>, skippedByLimit: nat, skippedMissing: nat)
    ensures toInsert == Chosen(m0, slugs, unique)
    ensures skippedByLimit == Tally(OverLimit, Verdicts(m0, slugs, unique))
    ensures skippedMissing == Tally(MissingSubcategory, Verdicts(m0, slugs, unique))
  {
    hide Chosen, Verdicts, Tally, PairKey;
    var m := m0;
    toInsert, skippedByLimit, skippedMissing := [], 0, 0;
    assert unique[0..] == unique;
    for i := 0 to |unique|
      invariant Chosen(m0, slugs, unique) == toInsert + Chosen(m, slugs, unique[i..])
      invariant Tally(OverLimit, Verdicts(m0, slugs, unique)) == skippedByLimit + Tally(OverLimit, Verdicts(m, slugs, unique[i..]))
      invariant Tally(MissingSubcategory, Verdicts(m0, slugs, unique))
             == skippedMissing + Tally(MissingSubcategory, Verdicts(m, slugs, unique[i..]))
    {
      var c := unique[i];
      ChosenFrom(m, slugs, unique, i);
      TallyFrom(OverLimit, m, slugs, unique, i);
      TallyFrom(MissingSubcategory, m, slugs, unique, i);
      if PairKey(c) in m.linked {
        continue;
      }
      if c.slug !in slugs {
        skippedMissing := skippedMissing + 1;
        continue;
      }
      var currentCount := m.Count(c.eventId);
      if currentCount >= MAX_LINKS {
        skippedByLimit := skippedByLimit + 1;
        continue;
      }
      toInsert := toInsert + [c];
      m := Memo(m.linked + {PairKey(c)}, m.counts[c.eventId := currentCount + 1]);
    }
    NoneDecided(m, slugs);
  }

  function Tally(v: Verdict, vs: seq<Verdict>): nat {
    if vs == [] then 0 else (if vs[0] == v then 1 else 0) + Tally(v, vs[1..])
  }

  lemma NoneDecided(m: Memo, slugs: set<string>)
    ensures Chosen(m, slugs, []) == [] && forall v :: Tally(v, Verdicts(m, slugs, [])) == 0
  {
  }

  lemma ChosenFrom(m: Memo, slugs: set<string>, cands: seq<Candidate>, i: nat)
    requires i < |cands|
    ensures Chosen(m, slugs, cands[i..])
         == (if VerdictOf(m, slugs, cands[i]) == Inserted then [cands[i]] else [])
            + Chosen(Next(m, slugs, cands[i]), slugs, cands[i + 1..])
  {
    assert cands[i..][1..] == cands[i + 1..];
  }

  lemma TallyFrom(v: Verdict, m: Memo, slugs: set<string>, cands: seq<Candidate>, i: nat)
    requires i < |cands|
    ensures Tally(v, Verdicts(m, slugs, cands[i..]))
         == (if VerdictOf(m, slugs, cands[i]) == v then 1 else 0)
            + Tally(v, Verdicts(Next(m, slugs, cands[i]), slugs, cands[i + 1..]))
  {
    assert cands[i..][1..] == cands[i + 1..];
  }

  // ----- What a tag stands for -----

  /** The subcategories that stand for a format. */
  lemma SubcategoriesOfFormats()
    ensures FORMAT_TO_SUBCATEGORY.Keys
         == {"walking", "guided", "audio", "open_date", "skip_the_line", "bus", "boat", "immersive", "theatrical", "combo"}
    ensures FORMAT_TO_SUBCATEGORY["walking"] == FORMAT_TO_SUBCATEGORY["guided"] == "walking-excursion"
    ensures FORMAT_TO_SUBCATEGORY["audio"] == FORMAT_TO_SUBCATEGORY["open_date"] == "museum"
    ensures FORMAT_TO_SUBCATEGORY["skip_the_line"] == "museum"
    ensures FORMAT_TO_SUBCATEGORY["bus"] == "bus-excursion" && FORMAT_TO_SUBCATEGORY["boat"] == "river-excursion"
    ensures FORMAT_TO_SUBCATEGORY["immersive"] == "show" && FORMAT_TO_SUBCATEGORY["theatrical"] == "theater"
    ensures FORMAT_TO_SUBCATEGORY["combo"] == "combined-excursion"
  {
  }

  /** A tag is looked up by its code, or by its slug when the code has no text; without spaces around it, in lower case. */
  lemma KeyComesFromCode(row: TagRow)
    ensures KeyOf(row) == if Tidy.Trim(row.code.GetOr(""), IsSpace) != "" then ToLowerCase(Tidy.Trim(row.code.value, IsSpace))
                          else ToLowerCase(Tidy.Trim(row.slug, IsSpace))
  {
    hide Tidy.Trim;
    var code := Tidy.Trim(row.code.GetOr(""), IsSpace);
    assert |ToLowerCase(code)| == |code|;
    if row.code.None? {
      TrimNothing();
    }
  }

  lemma TrimNothing()
    ensures Tidy.Trim("", IsSpace) == ""
  {
  }

  /** The candidates are those of the tags that stand for a subcategory, in the order of the tags. */
  lemma {:induction false} CandidatesOfTags(a: seq<TagRow>, b: seq<TagRow>)
    ensures Mapped(a + b) == Mapped(a) + Mapped(b)
    ensures |a| == 1 ==>
              Mapped(a) == if KeyOf(a[0]) in FORMAT_TO_SUBCATEGORY
                           then [Candidate(a[0].eventId, FORMAT_TO_SUBCATEGORY[KeyOf(a[0])])] else []
    decreases b
  {
    hide KeyOf;
    if |a| == 1 {
      assert a[..0] == [] && Mapped([]) == [];
    }
    if b == [] {
      assert a + b == a;
    } else {
      var rest := b[..|b| - 1];
      CandidatesOfTags(a, rest);
      assert (a + b)[..|a + b| - 1] == a + rest && (a + b)[|a + b| - 1] == b[|b| - 1];
    }
  }

  /** A pair keeps the place where it was first met. */
  lemma {:induction false} FirstPlaces(a: seq<Candidate>, b: seq<Candidate>)
    ensures Unique(a) <= Unique(a + b)
    decreases b
  {
    if b == [] {
      assert a + b == a;
    } else {
      var rest := b[..|b| - 1];
      FirstPlaces(a, rest);
      assert (a + b)[..|a + b| - 1] == a + rest;
    }
  }

  /** The table after a run has the links it had and one for each pair decided on. */
  lemma LinksAfterRun(rows: seq<TagRow>, subs: Subcategories, links: Links, l: (EventId, SubId))
    requires UniqueSubSlugs(subs) && PlainIds(rows, links)
    ensures l in Applied(rows, subs, links)
       <==> l in links || (l.1 in subs && Candidate(l.0, subs[l.1]) in Decided(rows, subs, links))
  {
    DecidedAreNew(rows, subs, links);
    hide Decided;
    var chosen := Decided(rows, subs, links);
    if l.1 in subs && Candidate(l.0, subs[l.1]) in chosen {
      assert SubOf(subs, subs[l.1]) == l.1;
      assert l == (Candidate(l.0, subs[l.1]).eventId, SubOf(subs, Candidate(l.0, subs[l.1]).slug));
    }
  }
}
