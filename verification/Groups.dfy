/**
  Duplicate pointers form a forest, and a group has one canonical event.

  `canonicalOf` of an event points at the event it is a duplicate of.
 */
module Groups {
  import opened Prelude
  import opened Catalogue
  import EventSteps

  // ----- Chains of duplicate pointers -----

  /** The event `n` pointers up from `id`. */
  function Up(events: Events, id: EventId, n: nat): Option<EventId>
    decreases n
  {
    if n == 0 then Some(id)
    else if id in events && events[id].canonicalOf.Some? then Up(events, events[id].canonicalOf.value, n - 1)
    else None
  }

  ghost predicate Reaches(events: Events, from: EventId, to: EventId) {
    exists n: nat :: Up(events, from, n) == Some(to)
  }

  /** No event is its own duplicate, through however many pointers. */
  ghost predicate Forest(events: Events) {
    forall id, n: nat | n > 0 :: Up(events, id, n) != Some(id)
  }

  predicate Closed(events: Events) {
    forall id | id in events && events[id].canonicalOf.Some? :: events[id].canonicalOf.value in events
  }

  /** A rank that falls along every pointer. */
  ghost predicate Ranked(events: Events, rank: EventId -> nat) {
    forall id | id in events && events[id].canonicalOf.Some? :: rank(events[id].canonicalOf.value) < rank(id)
  }

  lemma {:induction false} RankFalls(events: Events, rank: EventId -> nat, id: EventId, n: nat)
    requires Ranked(events, rank) && Up(events, id, n).Some?
    ensures rank(Up(events, id, n).value) + n <= rank(id)
    decreases n
  {
    if n > 0 {
      RankFalls(events, rank, events[id].canonicalOf.value, n - 1);
    }
  }

  lemma RankedIsForest(events: Events, rank: EventId -> nat)
    requires Ranked(events, rank)
    ensures Forest(events)
  {
    forall id, n: nat | n > 0
      ensures Up(events, id, n) != Some(id)
    {
      if Up(events, id, n) == Some(id) {
        RankFalls(events, rank, id, n);
      }
    }
  }

  lemma {:induction false} UpUp(events: Events, id: EventId, i: nat, j: nat)
    ensures Up(events, id, i + j)
         == if Up(events, id, i).Some? then Up(events, Up(events, id, i).value, j) else None
    decreases i
  {
    if i > 0 && id in events && events[id].canonicalOf.Some? {
      UpUp(events, events[id].canonicalOf.value, i - 1, j);
    }
  }

  /** The chain from `id` ends after exactly `n` pointers. */
  ghost predicate EndsAfter(events: Events, id: EventId, n: nat) {
    Up(events, id, n).Some? && Up(events, id, n + 1).None?
  }

  lemma EndsOnce(events: Events, id: EventId, m: nat, n: nat)
    requires EndsAfter(events, id, m) && EndsAfter(events, id, n)
    ensures m == n
  {
    if m < n {
      UpUp(events, id, m + 1, n - m - 1);
    } else if n < m {
      UpUp(events, id, n + 1, m - n - 1);
    }
  }

  ghost predicate MetBefore(events: Events, id: EventId, n: nat, x: EventId) {
    exists i: nat :: i < n && Up(events, id, i) == Some(x)
  }

  lemma NeverMetBefore(events: Events, id: EventId, n: nat)
    requires Forest(events) && Up(events, id, n).Some?
    ensures !MetBefore(events, id, n, Up(events, id, n).value)
  {
    var here := Up(events, id, n).value;
    if MetBefore(events, id, n, here) {
      var i: nat :| i < n && Up(events, id, i) == Some(here);
      UpUp(events, id, i, n - i);
    }
  }

  /** A chain meets no event twice, so it ends before the events run out. */
  lemma ChainEnds(events: Events, id: EventId, n: nat, met: set<EventId>)
    requires Closed(events) && Forest(events) && id in events
    requires Up(events, id, n).Some? && Up(events, id, n).value in events
    requires met <= events.Keys && |met| == n
    requires forall x | x in met :: MetBefore(events, id, n, x)
    ensures exists m: nat :: EndsAfter(events, id, m)
    decreases |events.Keys| - n
  {
    var here := Up(events, id, n).value;
    UpUp(events, id, n, 1);
    assert Up(events, here, 1) == if events[here].canonicalOf.Some? then Up(events, events[here].canonicalOf.value, 0) else None;
    if events[here].canonicalOf.None? {
      assert EndsAfter(events, id, n);
    } else {
      NeverMetBefore(events, id, n);
      SubsetSize(met + {here}, events.Keys);
      forall x | x in met + {here}
        ensures MetBefore(events, id, n + 1, x)
      {
        if x == here {
          assert Up(events, id, n) == Some(x);
        } else {
          assert MetBefore(events, id, n, x);
        }
      }
      ChainEnds(events, id, n + 1, met + {here});
    }
  }

  lemma {:induction false} SubsetSize<T>(a: set<T>, b: set<T>)
    requires a <= b
    ensures |a| <= |b|
  {
    if a != {} {
      var x :| x in a;
      SubsetSize(a - {x}, b - {x});
    }
  }

  /** The length of the chain from `id`. */
  ghost function Height(events: Events, id: EventId): nat {
    if exists n: nat :: EndsAfter(events, id, n) then var n: nat :| EndsAfter(events, id, n); n else 0
  }

  /** Every forest has a rank: the length of the chain. */
  lemma ForestIsRanked(events: Events)
    requires Closed(events) && Forest(events)
    ensures Ranked(events, id => Height(events, id))
  {
    forall id | id in events && events[id].canonicalOf.Some?
      ensures Height(events, events[id].canonicalOf.value) < Height(events, id)
    {
      var p := events[id].canonicalOf.value;
      ChainEnds(events, p, 0, {});
      var n := Height(events, p);
      assert EndsAfter(events, id, n + 1) by {
        assert Up(events, id, n + 1) == Up(events, p, n) && Up(events, id, n + 2) == Up(events, p, n + 1);
      }
      EndsOnce(events, id, n + 1, Height(events, id));
    }
  }

  // ----- Steps that keep the forest -----

  /** Pointers are only removed, and new events have none. */
  predicate OnlyRemoves(events: Events, after: Events) {
    forall id | id in after :: after[id].canonicalOf == None || (id in events && after[id].canonicalOf == events[id].canonicalOf)
  }

  lemma RemovingKeepsForest(events: Events, after: Events)
    requires Closed(events) && Forest(events) && OnlyRemoves(events, after)
    ensures Forest(after)
  {
    ForestIsRanked(events);
    RankedIsForest(after, id => Height(events, id));
  }

  /** Ranks after a group gets its canonical event: that event, then its group, then all others. */
  ghost function CrownedRank(events: Events, id: EventId, key: string, x: EventId): nat {
    if x == id then 0
    else if x in events && events[x].groupingKey == Some(key) then 1
    else Height(events, x) + 2
  }

  lemma CrowningKeepsForest(events: Events, id: EventId, key: string)
    requires Closed(events) && Forest(events) && id in events
    ensures Forest(EventSteps.Crowned(events, id, key))
  {
    ForestIsRanked(events);
    RankedIsForest(EventSteps.Crowned(events, id, key), x => CrownedRank(events, id, key, x));
  }

  /** Ranks after `id` becomes a duplicate of `target`: all that reach `id` move above the target. */
  ghost function MarkedRank(events: Events, id: EventId, target: EventId, x: EventId): nat {
    Height(events, x) + if Reaches(events, x, id) then Height(events, target) + 1 else 0
  }

  function Marked(events: Events, id: EventId, target: EventId): Events
    requires id in events
  {
    events[id := events[id].(canonicalOf := Some(target))]
  }

  lemma ReachesStep(events: Events, x: EventId, to: EventId)
    requires x in events && events[x].canonicalOf.Some? && x != to
    ensures Reaches(events, x, to) <==> Reaches(events, events[x].canonicalOf.value, to)
  {
    var p := events[x].canonicalOf.value;
    if Reaches(events, x, to) {
      var n: nat :| Up(events, x, n) == Some(to);
      assert Up(events, p, n - 1) == Some(to);
    }
    if Reaches(events, p, to) {
      var n: nat :| Up(events, p, n) == Some(to);
      assert Up(events, x, n + 1) == Some(to);
    }
  }

  lemma MarkingRank(events: Events, id: EventId, target: EventId)
    requires Closed(events) && Forest(events) && id in events && !Reaches(events, target, id)
    ensures Ranked(Marked(events, id, target), x => MarkedRank(events, id, target, x))
  {
    ForestIsRanked(events);
    var after := Marked(events, id, target);
    assert Up(events, id, 0) == Some(id);
    forall x | x in after && after[x].canonicalOf.Some?
      ensures MarkedRank(events, id, target, after[x].canonicalOf.value) < MarkedRank(events, id, target, x)
    {
      if x != id {
        ReachesStep(events, x, id);
      }
    }
  }

  lemma {:induction false} PathSurvivesMark(events: Events, id: EventId, target: EventId, x: EventId, n: nat) returns (m: nat)
    requires id in events && Up(events, x, n) == Some(id)
    ensures Up(Marked(events, id, target), x, m) == Some(id)
    decreases n
  {
    if x == id {
      m := 0;
    } else {
      m := PathSurvivesMark(events, id, target, events[x].canonicalOf.value, n - 1);
      m := m + 1;
    }
  }

  /** Marking `id` as a duplicate of `target` keeps the forest exactly when `target` does not reach `id`. */
  lemma MarkingKeepsForestIff(events: Events, id: EventId, target: EventId)
    requires Closed(events) && Forest(events) && id in events
    ensures Forest(Marked(events, id, target)) <==> !Reaches(events, target, id)
  {
    var after := Marked(events, id, target);
    if Reaches(events, target, id) {
      var n: nat :| Up(events, target, n) == Some(id);
      var m := PathSurvivesMark(events, id, target, target, n);
      assert Up(after, id, m + 1) == Some(id);
    } else {
      MarkingRank(events, id, target);
      RankedIsForest(after, x => MarkedRank(events, id, target, x));
    }
  }

  // ----- The canonical event of a group -----

  /** What the group query may return: the live members of the group, earliest first. */
  ghost predicate GroupRows(events: Events, key: string, rows: seq<EventId>) {
    && (forall x :: x in rows <==> x in events && events[x].groupingKey == Some(key) && !events[x].isDeleted)
    && (forall i, j | 0 <= i < j < |rows| :: events[rows[i]].createdAt <= events[rows[j]].createdAt)
  }

  function FirstWithoutPointer(events: Events, rows: seq<EventId>): Option<EventId> {
    if rows == [] then None
    else if rows[0] in events && events[rows[0]].canonicalOf.None? then Some(rows[0])
    else FirstWithoutPointer(events, rows[1..])
  }

  function Earliest(events: Events, rows: seq<EventId>): (id: EventId)
    requires rows != [] && forall x | x in rows :: x in events
    ensures id in rows
  {
    if |rows| == 1 then rows[0]
    else
      var acc := Earliest(events, rows[..|rows| - 1]);
      var cur := rows[|rows| - 1];
      if events[cur].createdAt < events[acc].createdAt then cur else acc
  }

  function Canonical(events: Events, rows: seq<EventId>): EventId
    requires rows != [] && forall x | x in rows :: x in events
  {
    var first := FirstWithoutPointer(events, rows);
    if first.Some? then first.value else Earliest(events, rows)
  }

  datatype GroupView = GroupView(
    groupingKey: Option<string>, isCanonical: bool, canonicalEventId: Option<EventId>, items: seq<EventId>)

  /** `getEventGroup`, given the rows the group query returned; None when the event is not found. */
  function GetEventGroup(events: Events, id: EventId, rows: seq<EventId>): Option<GroupView>
    requires forall x | x in rows :: x in events
  {
    if id !in events || events[id].isDeleted then None
    else if events[id].groupingKey.GetOr("") == "" then Some(GroupView(None, false, None, []))
    else if rows == [] then Some(GroupView(events[id].groupingKey, true, Some(id), []))
    else
      var c := Canonical(events, rows);
      Some(GroupView(events[id].groupingKey, id == c, Some(c), rows))
  }

  /** `id` is live in the group and older than every other live member without a pointer. */
  predicate Leads(events: Events, key: string, id: EventId) {
    && id in events && !events[id].isDeleted
    && events[id].groupingKey == Some(key) && events[id].canonicalOf.None?
    && forall x | x in events && x != id && !events[x].isDeleted
                  && events[x].groupingKey == Some(key) && events[x].canonicalOf.None? ::
         events[id].createdAt < events[x].createdAt
  }

  lemma {:induction false} LeaderIsFirst(events: Events, key: string, id: EventId, rows: seq<EventId>)
    requires Leads(events, key, id) && id in rows
    requires forall x | x in rows :: x in events && events[x].groupingKey == Some(key) && !events[x].isDeleted
    requires forall i, j | 0 <= i < j < |rows| :: events[rows[i]].createdAt <= events[rows[j]].createdAt
    ensures FirstWithoutPointer(events, rows) == Some(id)
  {
    if rows[0] != id {
      var k :| 0 <= k < |rows| && rows[k] == id;
      assert events[rows[0]].createdAt <= events[rows[k]].createdAt;
      assert rows[0] in rows;
      assert id in rows[1..] by {
        assert rows[1..][k - 1] == id;
      }
      LeaderIsFirst(events, key, id, rows[1..]);
    }
  }

  /** Whatever rows the query returns, every live member of the group is told that `id` is canonical. */
  lemma LeaderIsCanonical(events: Events, key: string, id: EventId, x: EventId, rows: seq<EventId>)
    requires Leads(events, key, id) && GroupRows(events, key, rows) && key != ""
    requires x in rows
    ensures GetEventGroup(events, x, rows) == Some(GroupView(Some(key), x == id, Some(id), rows))
  {
    LeaderIsFirst(events, key, id, rows);
  }

  /** Making a live event canonical puts it at the head of its group. */
  lemma CrownedLeads(events: Events, id: EventId)
    requires EventSteps.MakeEventCanonical(events, id).1.Done?
    ensures Leads(EventSteps.MakeEventCanonical(events, id).0, events[id].groupingKey.value, id)
    ensures events[id].groupingKey.value != ""
  {
  }

  /** After `makeEventCanonical`, exactly one live member of the group is canonical, and all agree on it. */
  lemma MakeCanonicalIsSeen(events: Events, id: EventId, x: EventId, rows: seq<EventId>)
    requires EventSteps.MakeEventCanonical(events, id).1.Done?
    requires var after := EventSteps.MakeEventCanonical(events, id).0;
             GroupRows(after, events[id].groupingKey.value, rows) && x in rows
    ensures var after := EventSteps.MakeEventCanonical(events, id).0;
            var view := GetEventGroup(after, x, rows);
            && view.Some? && view.value.canonicalEventId == Some(id)
            && (view.value.isCanonical <==> x == id)
  {
    CrownedLeads(events, id);
    LeaderIsCanonical(EventSteps.MakeEventCanonical(events, id).0, events[id].groupingKey.value, id, x, rows);
  }
}
