/**
  The loop that recomputes grouping keys (packages/backend/scripts/backfill-event-grouping.ts).  It
  asks for the rows still to be done, skips as many as it has seen, and takes the next hundred; but
  rows that get their key drop out of the answer, so a later batch can skip rows never seen.
 */
module GroupingBackfill {
  import opened Prelude
  import opened GroupingKey

  const BATCH := 100

  /** The filter of the query: no key, or a key of another format. */
  predicate Pending(row: Row) {
    row.groupingKey.None? || !(PREFIX <= row.groupingKey.value)
  }

  function PendingRows(rows: seq<Row>): seq<Row> {
    if rows == [] then [] else (if Pending(rows[0]) then [rows[0]] else []) + PendingRows(rows[1..])
  }

  /** The table after the next `take` pending rows beyond the first `skip` are recomputed. */
  function Touch(rows: seq<Row>, skip: nat, take: nat): (r: seq<Row>)
    ensures |r| == |rows|
    decreases rows
  {
    if rows == [] then []
    else if !Pending(rows[0]) then [rows[0]] + Touch(rows[1..], skip, take)
    else if skip > 0 then [rows[0]] + Touch(rows[1..], skip - 1, take)
    else if take > 0 then [Recomputed(rows[0])] + Touch(rows[1..], 0, take - 1)
    else rows
  }

  function Min(a: nat, b: nat): nat {
    if a < b then a else b
  }

  /** The size of the batch at an offset. */
  function BatchSize(rows: seq<Row>, offset: nat): nat {
    var n := |PendingRows(rows)|;
    if n <= offset then 0 else Min(n - offset, BATCH)
  }

  /** The table and the number of rows visited when the loop goes on from an offset. */
  function Pass(rows: seq<Row>, offset: nat): (seq<Row>, nat)
    decreases |rows| - offset
  {
    var size := BatchSize(rows, offset);
    PendingIsShorter(rows);
    if size < BATCH then (Touch(rows, offset, size), size)
    else
      var rest := Pass(Touch(rows, offset, BATCH), offset + BATCH);
      (rest.0, BATCH + rest.1)
  }

  lemma {:induction false} PendingIsShorter(rows: seq<Row>)
    ensures |PendingRows(rows)| <= |rows|
  {
    if rows != [] {
      PendingIsShorter(rows[1..]);
    }
  }

  /** The loop itself. */
  method Backfill(rows: seq<Row>) returns (table: seq<Row>, visited: nat)
    ensures (table, visited) == Pass(rows, 0)
  {
    hide PendingRows, Touch;
    table, visited := rows, 0;
    while true
      invariant Pass(rows, 0) == (Pass(table, visited).0, visited + Pass(table, visited).1)
      decreases |rows| - visited
      invariant |table| == |rows|
    {
      var size := BatchSize(table, visited);
      PendingIsShorter(table);
      if size == 0 {
        TouchNothing(table, visited);
        break;
      }
      table := Touch(table, visited, size);
      visited := visited + size;
      if size < BATCH {
        break;
      }
    }
  }

  lemma {:induction false} TouchNothing(rows: seq<Row>, skip: nat)
    ensures Touch(rows, skip, 0) == rows
    decreases rows
  {
    if rows != [] {
      TouchNothing(rows[1..], if skip > 0 then skip - 1 else 0);
      TouchNothing(rows[1..], skip);
    }
  }

  // ----- Which rows drop out, and which are missed -----

  /** Recomputing gives the row a key, so that it is not pending any more. */
  predicate Leaves(row: Row) {
    StoredKey(row).Some?
  }

  function Leaving(rows: seq<Row>): (n: nat)
    ensures n <= |rows|
  {
    if rows == [] then 0 else (if Leaves(rows[0]) then 1 else 0) + Leaving(rows[1..])
  }

  /** What is pending of a batch once it is recomputed. */
  function Staying(rows: seq<Row>): (r: seq<Row>)
    ensures |r| == |rows| - Leaving(rows)
  {
    if rows == [] then [] else (if Leaves(rows[0]) then [] else [Recomputed(rows[0])]) + Staying(rows[1..])
  }

  /** The rows that would get a key. */
  function Keyed(rows: seq<Row>): (r: seq<Row>)
    ensures forall x :: x in r <==> x in rows && Leaves(x)
  {
    if rows == [] then [] else (if Leaves(rows[0]) then [rows[0]] else []) + Keyed(rows[1..])
  }

  /** The rows that are still pending although they would get a key. */
  function Missed(table: seq<Row>): seq<Row> {
    Keyed(PendingRows(table))
  }

  /** Of the pending rows, those the pass jumps over: after each full batch, as many as dropped out of it. */
  function Skipped(p: seq<Row>): seq<Row> {
    if |p| <= BATCH then []
    else
      var n := Min(|p| - BATCH, Leaving(p[..BATCH]));
      p[BATCH..BATCH + n] + Skipped(p[BATCH + n..])
  }

  lemma RecomputedPending(row: Row)
    requires Pending(row)
    ensures Pending(Recomputed(row)) <==> !Leaves(row)
    ensures Leaves(Recomputed(row)) <==> Leaves(row)
  {
    RecomputedIsSettled(row);
    if Leaves(row) {
      KeyHasPrefix(row);
    }
  }

  lemma KeyHasPrefix(row: Row)
    requires StoredKey(row).Some?
    ensures PREFIX <= StoredKey(row).value
  {
  }

  /** The pending rows after a batch: only rows of the batch drop out, and the later ones close up. */
  predicate AfterBatch(p: seq<Row>, q: seq<Row>, skip: nat, take: nat) {
    skip + take <= |p| && q == p[..skip] + Staying(p[skip..skip + take]) + p[skip + take..]
  }

  lemma Prepended(row: Row, p: seq<Row>, i: nat, j: nat)
    requires i <= j <= |p|
    ensures ([row] + p)[i + 1..j + 1] == p[i..j]
    ensures ([row] + p)[..i + 1] == [row] + p[..i] && ([row] + p)[i + 1..] == p[i..]
  {
  }

  lemma SkippedOne(row: Row, p: seq<Row>, q: seq<Row>, skip: nat, take: nat)
    requires AfterBatch(p, q, skip, take)
    ensures AfterBatch([row] + p, [row] + q, skip + 1, take)
  {
    hide Staying;
    Prepended(row, p, skip, skip + take);
    Prepended(row, p, skip + take, skip + take);
    var before, batch, after := p[..skip], Staying(p[skip..skip + take]), p[skip + take..];
    Regrouped([row], before, batch, after);
    var all := [row] + p;
    assert all[..skip + 1] == [row] + before;
    assert all[skip + 1..skip + 1 + take] == p[skip..skip + take];
    assert all[skip + 1 + take..] == after;
  }

  lemma Regrouped(a: seq<Row>, b: seq<Row>, c: seq<Row>, d: seq<Row>)
    ensures a + (b + c + d) == a + b + c + d
  {
  }

  lemma TookOne(row: Row, p: seq<Row>, q: seq<Row>, take: nat)
    requires AfterBatch(p, q, 0, take)
    ensures AfterBatch([row] + p, (if Leaves(row) then [] else [Recomputed(row)]) + q, 0, take + 1)
  {
    hide Leaves, Recomputed;
    var all := [row] + p;
    assert all[0..take + 1] == [row] + p[0..take] && all[take + 1..] == p[take..];
    assert ([row] + p[0..take])[1..] == p[0..take];
    assert all[..0] == [] && p[..0] == [];
  }

  lemma NoBatch(p: seq<Row>)
    ensures AfterBatch(p, p, 0, 0)
  {
    assert p[0..0] == [] && Staying([]) == [];
  }

  lemma {:induction false} PendingAfterTouch(rows: seq<Row>, skip: nat, take: nat)
    requires skip + take <= |PendingRows(rows)|
    ensures AfterBatch(PendingRows(rows), PendingRows(Touch(rows, skip, take)), skip, take)
    decreases rows
  {
    hide Recomputed, Leaves, Pending, AfterBatch;
    if rows == [] || (Pending(rows[0]) && skip == 0 && take == 0) {
      TouchNothing(rows, 0);
      NoBatch(PendingRows(rows));
    } else {
      var rest := PendingRows(rows[1..]);
      if !Pending(rows[0]) {
        PendingAfterTouch(rows[1..], skip, take);
        assert PendingRows(rows) == rest;
        assert PendingRows(Touch(rows, skip, take)) == PendingRows(Touch(rows[1..], skip, take));
      } else if skip > 0 {
        PendingAfterTouch(rows[1..], skip - 1, take);
        SkippedOne(rows[0], rest, PendingRows(Touch(rows[1..], skip - 1, take)), skip - 1, take);
      } else {
        PendingAfterTouch(rows[1..], 0, take - 1);
        RecomputedPending(rows[0]);
        TookOne(rows[0], rest, PendingRows(Touch(rows[1..], 0, take - 1)), take - 1);
      }
    }
  }

  lemma KeyedNothing()
    ensures Keyed([]) == []
  {
  }

  lemma {:induction false} KeyedConcat(a: seq<Row>, b: seq<Row>)
    ensures Keyed(a + b) == Keyed(a) + Keyed(b)
  {
    hide Leaves;
    if a == [] {
      assert a + b == b;
    } else {
      KeyedConcat(a[1..], b);
      assert (a + b)[1..] == a[1..] + b && (a + b)[0] == a[0];
      var first := if Leaves(a[0]) then [a[0]] else [];
      assert first + (Keyed(a[1..]) + Keyed(b)) == first + Keyed(a[1..]) + Keyed(b);
    }
  }

  lemma {:induction false} StayingHaveNoKey(rows: seq<Row>)
    requires forall r | r in rows :: Pending(r)
    ensures Keyed(Staying(rows)) == []
  {
    hide Recomputed, Leaves, Pending;
    if rows != [] {
      RecomputedPending(rows[0]);
      StayingHaveNoKey(rows[1..]);
      var first := if Leaves(rows[0]) then [] else [Recomputed(rows[0])];
      KeyedConcat(first, Staying(rows[1..]));
    }
  }

  lemma {:induction false} PendingArePending(rows: seq<Row>)
    ensures forall r | r in PendingRows(rows) :: Pending(r)
  {
    if rows != [] {
      PendingArePending(rows[1..]);
    }
  }

  /** A batch in the middle leaves what was before it, what stays of it, and what comes after it. */
  lemma KeyedAround(p: seq<Row>, skip: nat, take: nat)
    requires skip + take <= |p| && forall r | r in p :: Pending(r)
    ensures Keyed(p[..skip] + Staying(p[skip..skip + take])) == Keyed(p[..skip])
  {
    hide Keyed, Staying, Pending;
    StayingHaveNoKey(p[skip..skip + take]);
    KeyedConcat(p[..skip], Staying(p[skip..skip + take]));
  }

  lemma {:induction false} PassFrom(rows: seq<Row>, offset: nat)
    requires offset <= |PendingRows(rows)|
    ensures var p := PendingRows(rows);
            && Missed(Pass(rows, offset).0) == Keyed(p[..offset]) + Keyed(Skipped(p[offset..]))
            && Pass(rows, offset).1 == |p| - offset - |Skipped(p[offset..])|
    decreases |rows| - offset
  {
    hide PendingRows, Touch, Leaves, Leaving, Keyed, Staying, Pending;
    var p := PendingRows(rows);
    var size := BatchSize(rows, offset);
    PendingIsShorter(rows);
    PendingArePending(rows);
    KeyedNothing();
    PendingAfterTouch(rows, offset, size);
    KeyedAround(p, offset, size);
    var batch := p[offset..offset + size];
    if size < BATCH {
      assert p[offset + size..] == [] && Skipped(p[offset..]) == [];
      assert PendingRows(Pass(rows, offset).0) == p[..offset] + Staying(batch);
    } else {
      var next := Touch(rows, offset, BATCH);
      var q := PendingRows(next);
      var head, tail := p[..offset] + Staying(batch), p[offset + BATCH..];
      assert q == head + tail;
      assert |head| == offset + BATCH - Leaving(batch);
      assert p[offset..][..BATCH] == batch;
      if |q| >= offset + BATCH {
        BatchThenRest(p, q, head, tail, offset, Leaving(batch));
        PassFrom(next, offset + BATCH);
      } else {
        AllSkipped(p, offset, Leaving(batch));
        TouchNothing(next, offset + BATCH);
        KeyedConcat(head, tail);
      }
    }
  }

  lemma CutInTail(head: seq<Row>, tail: seq<Row>, n: nat)
    requires n <= |tail|
    ensures (head + tail)[..|head| + n] == head + tail[..n] && (head + tail)[|head| + n..] == tail[n..]
  {
  }

  /** The rows jumped over from a full batch on: as many as dropped out of it, and then those of the rest. */
  lemma SkippedFrom(rest: seq<Row>, n: nat)
    requires |rest| >= BATCH && n == Leaving(rest[..BATCH]) && n <= |rest| - BATCH
    ensures Skipped(rest) == rest[BATCH..][..n] + Skipped(rest[BATCH..][n..])
  {
    hide Leaving;
    assert rest[BATCH..BATCH + n] == rest[BATCH..][..n] && rest[BATCH + n..] == rest[BATCH..][n..];
    if |rest| == BATCH {
      assert rest[BATCH..][..0] == [] && rest[BATCH..][0..] == [];
      assert Skipped([]) == [];
    }
  }

  /** The next batch starts `n` rows further on than the last one ended. */
  lemma BatchThenRest(p: seq<Row>, q: seq<Row>, head: seq<Row>, tail: seq<Row>, offset: nat, n: nat)
    requires offset + BATCH <= |p| && tail == p[offset + BATCH..] && q == head + tail
    requires n == Leaving(p[offset..][..BATCH]) && |head| == offset + BATCH - n && |q| >= offset + BATCH
    requires Keyed(head) == Keyed(p[..offset])
    ensures |q| - (offset + BATCH) - |Skipped(q[offset + BATCH..])| + BATCH == |p| - offset - |Skipped(p[offset..])|
    ensures Keyed(q[..offset + BATCH]) + Keyed(Skipped(q[offset + BATCH..])) == Keyed(p[..offset]) + Keyed(Skipped(p[offset..]))
  {
    hide Leaving, Keyed, Skipped;
    assert p[offset..][BATCH..] == tail;
    CutInTail(head, tail, n);
    SkippedFrom(p[offset..], n);
    KeyedConcat(head, tail[..n]);
    KeyedConcat(tail[..n], Skipped(tail[n..]));
  }

  /** More rows dropped out than are left: all that are left are jumped over. */
  lemma AllSkipped(p: seq<Row>, offset: nat, n: nat)
    requires offset + BATCH <= |p| && n == Leaving(p[offset..][..BATCH]) && |p| - n < offset + BATCH
    ensures Skipped(p[offset..]) == p[offset + BATCH..]
  {
    hide Leaving;
    var rest := p[offset..];
    if |rest| > BATCH {
      assert rest[BATCH..|rest|] == p[offset + BATCH..] && rest[|rest|..] == [];
      assert Skipped([]) == [];
    }
  }

  // ----- When a pass is complete -----

  lemma {:induction false} NoneLeaving(rows: seq<Row>)
    ensures Leaving(rows) == 0 <==> forall i | 0 <= i < |rows| :: !Leaves(rows[i])
  {
    if rows != [] {
      NoneLeaving(rows[1..]);
      assert forall i | 0 < i < |rows| :: rows[i] == rows[1..][i - 1];
    }
  }

  /** No row of a batch that another batch follows gets a key. */
  predicate EarlierBatchesStay(p: seq<Row>) {
    forall i | 0 <= i < |p| && i < 100 * ((|p| - 1) / 100) :: !Leaves(p[i])
  }

  lemma EarlierStep(p: seq<Row>)
    requires |p| > BATCH
    ensures EarlierBatchesStay(p) <==> (forall i | 0 <= i < BATCH :: !Leaves(p[i])) && EarlierBatchesStay(p[BATCH..])
  {
    hide Leaves;
    var rest := p[BATCH..];
    assert (|p| - 1) / BATCH == (|rest| - 1) / BATCH + 1;
    assert (|rest| - 1) / BATCH >= 0;
    assert forall i | 0 <= i < |rest| :: rest[i] == p[i + BATCH];
    assert forall i | BATCH <= i < |p| :: p[i] == rest[i - BATCH];
  }

  lemma {:induction false} NothingSkippedIff(p: seq<Row>)
    ensures Skipped(p) == [] <==> EarlierBatchesStay(p)
    decreases |p|
  {
    hide Leaves, Leaving;
    if |p| > BATCH {
      hide EarlierBatchesStay;
      var batch := p[..BATCH];
      NoneLeaving(batch);
      EarlierStep(p);
      assert forall i | 0 <= i < BATCH :: batch[i] == p[i];
      var n := Min(|p| - BATCH, Leaving(batch));
      assert Skipped(p) == p[BATCH..BATCH + n] + Skipped(p[BATCH + n..]);
      hide Skipped;
      if Leaving(batch) == 0 {
        assert p[BATCH..BATCH] == [];
        NothingSkippedIff(p[BATCH..]);
      } else {
        assert |p[BATCH..BATCH + n]| > 0;
      }
    }
  }

  /**
    After the pass the rows still pending although they would get a key are exactly the ones among
    the rows it jumped over; so it misses none exactly when no row jumped over would get a key.  It
    jumps over none exactly when no row of a batch that another batch follows gets a key.
   */
  lemma PassIsCompleteIff(rows: seq<Row>)
    ensures var (p, table) := (PendingRows(rows), Pass(rows, 0).0);
            && Missed(table) == Keyed(Skipped(p))
            && (Missed(table) == [] <==> forall r | r in Skipped(p) :: !Leaves(r))
            && Pass(rows, 0).1 == |p| - |Skipped(p)|
            && (Skipped(p) == [] <==> EarlierBatchesStay(p))
  {
    hide PendingRows, Leaves, Pass, EarlierBatchesStay, Skipped;
    var p := PendingRows(rows);
    PassFrom(rows, 0);
    NothingSkippedIff(p);
    assert p[..0] == [] && p[0..] == p;
    var missed := Keyed(Skipped(p));
    if r :| r in Skipped(p) && Leaves(r) {
      assert r in missed;
    }
    if missed != [] {
      assert missed[0] in missed;
    }
  }

  /** A pass over at most a hundred pending rows leaves no row pending that would get a key. */
  lemma SmallPassIsComplete(rows: seq<Row>)
    requires |PendingRows(rows)| <= 100
    ensures Missed(Pass(rows, 0).0) == [] && Pass(rows, 0).1 == |PendingRows(rows)|
  {
    hide Pass, PendingRows, Leaves;
    PassIsCompleteIff(rows);
  }

  /** A row is pending when it has no key or one that does not start with "v1::". */
  lemma PendingMeans(row: Row)
    ensures Pending(row) <==> row.groupingKey.None? || |row.groupingKey.value| < 4 || row.groupingKey.value[..4] != "v1::"
  {
  }

  /** The pass recomputes rows where they are; a row it does not recompute stays as it was. */
  lemma {:induction false} TouchedInPlace(rows: seq<Row>, skip: nat, take: nat, i: nat)
    requires i < |rows|
    ensures Touch(rows, skip, take)[i] == rows[i] || (Pending(rows[i]) && Touch(rows, skip, take)[i] == Recomputed(rows[i]))
    decreases rows
  {
    hide Recomputed, Pending;
    if i > 0 {
      assert rows[i] == rows[1..][i - 1];
      if !Pending(rows[0]) {
        TouchedInPlace(rows[1..], skip, take, i - 1);
      } else if skip > 0 {
        TouchedInPlace(rows[1..], skip - 1, take, i - 1);
      } else if take > 0 {
        TouchedInPlace(rows[1..], 0, take - 1, i - 1);
      }
    }
  }
}
