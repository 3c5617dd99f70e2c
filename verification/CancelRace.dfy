/**
  Cancellations that race: `cancelSession` reads a session and writes later, only if the session is
  still not cancelled (packages/backend/src/admin/admin-events.controller.ts).  `CancelLate` is that
  write on its own, at any time and with any time stamp and reason.
 */
module CancelRace {
  import opened Prelude
  import opened Catalogue
  import opened SessionSteps
  import opened Runs
  import SessionProofs

  predicate IsCancelled(st: Store, id: SessionId) {
    id in st.sessions && st.sessions[id].canceledAt.Some?
  }

  /** The step turns the session into a cancelled one. */
  predicate Cancels(st: Store, step: Step, id: SessionId) {
    !IsCancelled(st, id) && IsCancelled(Apply(st, step), id)
  }

  function CountCancels(st: Store, steps: seq<Step>, id: SessionId): nat
    decreases steps
  {
    if steps == [] then 0
    else (if Cancels(st, steps[0], id) then 1 else 0) + CountCancels(Apply(st, steps[0]), steps[1..], id)
  }

  /** What a cancelling step writes: the time and the reason. */
  function Written(st: Store, step: SessionStep): (int, Option<string>) {
    match step
    case Stop(_, reason) => (st.clock, reason)
    case Cancel(_, reason) => (st.clock, CancelReason(reason))
    case CancelLate(_, at, reason) => (at, reason)
    case _ => (0, None)
  }

  lemma BatchAddsUncancelled(st: Store, eventId: EventId, slots: seq<Slot>)
    ensures var after := BatchCreateSessions(st, eventId, slots).0;
            forall id | id in after :: if id in st.sessions then after[id] == st.sessions[id] else after[id].canceledAt.None?
  {
    hide Insert, Wanted;
    if BatchCreateSessions(st, eventId, slots).1.Done? {
      var wanted, after := Wanted(st, eventId, slots), BatchCreateSessions(st, eventId, slots).0;
      SessionProofs.InsertExtends(st.sessions, st.events[eventId], eventId, wanted);
      forall id | id in after && id !in st.sessions
        ensures after[id].canceledAt.None?
      {
        var s :| s in wanted && s.id == id;
      }
    }
  }

  /** Only stopping and cancelling cancel a session, and they leave it inactive with their time and reason. */
  lemma SessionStepCancels(st: Store, step: SessionStep, id: SessionId)
    requires Cancels(st, OnSessions(step), id)
    ensures step.Stop? || step.Cancel? || step.CancelLate?
    ensures var s := SessionsAfter(st, step)[id];
            !s.isActive && (s.canceledAt, s.cancelReason) == (Some(Written(st, step).0), Written(st, step).1)
  {
    hide BulkAll, BulkIds, Insert, Wanted, TimeTaken, TimeTakenByOther;
    match step
    case AddBatch(eventId, slots) =>
      BatchAddsUncancelled(st, eventId, slots);
    case Bulk(ids, pause) => SessionProofs.BulkOnlyActivity(st, BulkIds(ids), pause);
    case _ =>
  }

  lemma CancelsIsOver(st: Store, step: Step, id: SessionId)
    requires Cancels(st, step, id)
    ensures step.OnSessions? && SessionProofs.Over(Apply(st, step).sessions, id)
  {
    match step
    case OnEvents(e) => EventStepFrame(st, e); hide AfterEvent;
    case OnOffers(o) => OfferStepFrame(st, o); hide AfterOffer;
    case OnSessions(s) => SessionStepCancels(st, s, id); hide SessionsAfter;
    case _ =>
  }

  lemma {:induction false} NoneOnceOver(st: Store, steps: seq<Step>, id: SessionId)
    requires SessionProofs.Over(st.sessions, id)
    ensures CountCancels(st, steps, id) == 0
    decreases steps
  {
    hide Apply;
    if steps != [] {
      SessionProofs.CancellationIsFinal(st, id, [steps[0]]);
      OneStep(st, steps[0]);
      NoneOnceOver(Apply(st, steps[0]), steps[1..], id);
    }
  }

  lemma OneStep(st: Store, step: Step)
    ensures Run(st, [step]) == Apply(st, step)
  {
    hide Apply;
    assert Run(Apply(st, step), []) == Apply(st, step);
  }

  /** Of any number of interleaved cancellations of one session, at most one takes effect. */
  lemma {:induction false} AtMostOneCancels(st: Store, steps: seq<Step>, id: SessionId)
    requires IsCancelled(st, id) ==> !st.sessions[id].isActive
    ensures CountCancels(st, steps, id) <= 1
    decreases steps
  {
    hide Apply;
    if IsCancelled(st, id) {
      NoneOnceOver(st, steps, id);
    } else if steps != [] {
      if Cancels(st, steps[0], id) {
        CancelsIsOver(st, steps[0], id);
      }
      AtMostOneCancels(Apply(st, steps[0]), steps[1..], id);
      if Cancels(st, steps[0], id) {
        NoneOnceOver(Apply(st, steps[0]), steps[1..], id);
      }
    }
  }

  /** Every step of a run that cancels the session is counted. */
  lemma {:induction false} CancelsAreCounted(st: Store, steps: seq<Step>, more: seq<Step>, id: SessionId)
    ensures CountCancels(st, steps + more, id) == CountCancels(st, steps, id) + CountCancels(Run(st, steps), more, id)
    ensures |steps| == 1 ==>
              CountCancels(st, steps, id) == if !IsCancelled(st, id) && IsCancelled(Run(st, steps), id) then 1 else 0
    decreases steps
  {
    hide Apply;
    if steps == [] {
      assert steps + more == more;
    } else {
      CancelsAreCounted(Apply(st, steps[0]), steps[1..], more, id);
      assert (steps + more)[1..] == steps[1..] + more;
      OneStep(st, steps[0]);
      if |steps| == 1 {
        assert steps == [steps[0]];
      }
    }
  }

  /** The time and the reason that the first cancellation writes are the session's for ever. */
  lemma FirstCancelWins(st: Store, step: Step, steps: seq<Step>, id: SessionId)
    requires Cancels(st, step, id)
    ensures var final := Run(Apply(st, step), steps).sessions;
            && step.OnSessions? && id in final && !final[id].isActive
            && final[id].canceledAt == Some(Written(st, step.change).0)
            && final[id].cancelReason == Written(st, step.change).1
  {
    CancelsIsOver(st, step, id);
    SessionStepCancels(st, step.change, id);
    SessionProofs.CancellationIsFinal(Apply(st, step), id, steps);
  }

  // ----- What a request answers -----

  type RequestId = nat

  /** What a cancellation that gets as far as its write has read, and is going to write. */
  datatype Read = Read(id: SessionId, session: Session, event: Event, sold: nat, at: int, reason: Option<string>)

  /** The tables, the requests that have read, and the rows they have answered with. */
  datatype World = World(st: Store, readings: map<RequestId, Read>, answers: map<RequestId, Row>)

  datatype Act =
    | Endpoint(step: Step)
    | Begin(request: RequestId, id: SessionId, reason: Option<string>)
    | Finish(finished: RequestId)

  /** The checks of `cancelSession` pass, so that it goes on to write. */
  predicate GoesOnToWrite(st: Store, id: SessionId) {
    var found := SessionWithEvent(st, id);
    && found.Some? && CancelRefusal(found.value.0, found.value.1, SoldCount(st, id), st.clock).None?
    && found.value.0.canceledAt.None?
  }

  /** The row a request answers with: the new state if its write matched, else what it had read. */
  function Answer(st: Store, r: Read): Row {
    if r.id in st.sessions && st.sessions[r.id].canceledAt.None?
    then BuildRow(CancelWrite(st.sessions, r.id, r.at, r.reason)[r.id], r.event, r.sold, st.clock)
    else BuildRow(r.session, r.event, r.sold, st.clock)
  }

  function Next(w: World, act: Act): World {
    match act
    case Endpoint(step) => w.(st := Apply(w.st, step))
    case Begin(q, id, reason) =>
      if q in w.readings || !GoesOnToWrite(w.st, id) then w
      else
        var (session, event) := SessionWithEvent(w.st, id).value;
        w.(readings := w.readings[q := Read(id, session, event, SoldCount(w.st, id), w.st.clock, CancelReason(reason))])
    case Finish(q) =>
      if q !in w.readings || q in w.answers then w
      else
        var r := w.readings[q];
        w.(st := w.st.(sessions := CancelWrite(w.st.sessions, r.id, r.at, r.reason)),
           answers := w.answers[q := Answer(w.st, r)])
  }

  function RunWorld(w: World, acts: seq<Act>): World
    decreases acts
  {
    if acts == [] then w else RunWorld(Next(w, acts[0]), acts[1..])
  }

  /** The request answered with a cancelled row. */
  predicate Won(w: World, q: RequestId) {
    q in w.answers && w.answers[q].isCancelled
  }

  /** The session is cancelled, for good, with the time and the reason of the request. */
  predicate HoldsItsWrite(w: World, r: Read) {
    && SessionProofs.Over(w.st.sessions, r.id)
    && w.st.sessions[r.id].canceledAt == Some(r.at) && w.st.sessions[r.id].cancelReason == r.reason
  }

  /** The row shows the session as it was read, whatever the time has made of its lock. */
  predicate ShowsRead(row: Row, r: Read) {
    row == BuildRow(r.session, r.event, r.sold, r.at).(locked := row.locked, lockReason := row.lockReason)
  }

  ghost predicate Sound(w: World) {
    && w.answers.Keys <= w.readings.Keys
    && (forall q | q in w.readings :: w.readings[q].session.canceledAt.None?)
    && (forall q | q in w.answers :: if Won(w, q) then HoldsItsWrite(w, w.readings[q]) else ShowsRead(w.answers[q], w.readings[q]))
    && (forall p, q | Won(w, p) && Won(w, q) && w.readings[p].id == w.readings[q].id :: p == q)
  }

  lemma EndpointKeepsSound(w: World, step: Step)
    requires Sound(w)
    ensures Sound(Next(w, Endpoint(step)))
  {
    hide Apply;
    var after := Next(w, Endpoint(step));
    OneStep(w.st, step);
    forall q | Won(after, q)
      ensures HoldsItsWrite(after, after.readings[q])
    {
      assert Won(w, q);
      SessionProofs.CancellationIsFinal(w.st, w.readings[q].id, [step]);
    }
    assert forall q :: Won(after, q) <==> Won(w, q);
  }

  lemma RowShowsCancelled(s: Session, e: Event, sold: nat, clock: int)
    ensures BuildRow(s, e, sold, clock).isCancelled <==> s.canceledAt.Some?
  {
  }

  lemma StaleRowShowsRead(r: Read, clock: int)
    ensures ShowsRead(BuildRow(r.session, r.event, r.sold, clock), r)
  {
  }

  /** A request answers with a cancelled row exactly when its write takes effect, and else with its read. */
  lemma AnswerTells(st: Store, r: Read)
    requires r.session.canceledAt.None?
    ensures Answer(st, r).isCancelled <==> r.id in st.sessions && st.sessions[r.id].canceledAt.None?
    ensures !Answer(st, r).isCancelled ==> ShowsRead(Answer(st, r), r)
  {
    hide BuildRow, ShowsRead;
    StaleRowShowsRead(r, st.clock);
    RowShowsCancelled(r.session, r.event, r.sold, st.clock);
    if r.id in st.sessions && st.sessions[r.id].canceledAt.None? {
      RowShowsCancelled(CancelWrite(st.sessions, r.id, r.at, r.reason)[r.id], r.event, r.sold, st.clock);
    }
  }

  lemma FinishKeepsSound(w: World, q: RequestId)
    requires Sound(w)
    ensures Sound(Next(w, Finish(q)))
  {
    hide Answer, ShowsRead, BuildRow;
    if q in w.readings && q !in w.answers {
      AnswerTells(w.st, w.readings[q]);
    }
    var after := Next(w, Finish(q));
    if q in w.readings && q !in w.answers {
      var r := w.readings[q];
      forall p | p in after.answers && p != q
        ensures Won(after, p) <==> Won(w, p)
        ensures Won(w, p) ==> HoldsItsWrite(w, w.readings[p]) && HoldsItsWrite(after, after.readings[p])
        ensures Won(w, p) && Won(after, q) ==> w.readings[p].id != r.id
      {
      }
      assert Won(after, q) ==> HoldsItsWrite(after, r);
      assert !Won(after, q) ==> ShowsRead(after.answers[q], r);
    }
  }

  lemma {:induction false} SoundForever(w: World, acts: seq<Act>)
    requires Sound(w)
    ensures Sound(RunWorld(w, acts))
    decreases acts
  {
    hide Sound;
    if acts != [] {
      match acts[0] {
        case Endpoint(step) => EndpointKeepsSound(w, step);
        case Begin(q, id, reason) => BeginKeepsSound(w, q, id, reason);
        case Finish(q) => FinishKeepsSound(w, q);
      }
      hide Next;
      SoundForever(Next(w, acts[0]), acts[1..]);
    }
  }

  lemma BeginKeepsSound(w: World, q: RequestId, id: SessionId, reason: Option<string>)
    requires Sound(w)
    ensures Sound(Next(w, Begin(q, id, reason)))
  {
    var after := Next(w, Begin(q, id, reason));
    assert forall p :: Won(after, p) <==> Won(w, p);
    assert forall p | p in w.readings :: after.readings[p] == w.readings[p];
  }

  /**
    Any number of requests read and write in any interleaving with everything else: at most one for
    each session answers with a cancelled row, and its time and reason are then the session's for
    ever; every other answers with the stale session it had read.
   */
  lemma AnswersTellTheWinner(st: Store, acts: seq<Act>, p: RequestId, q: RequestId)
    ensures var w := RunWorld(World(st, map[], map[]), acts);
            && w.answers.Keys <= w.readings.Keys
            && (Won(w, p) && Won(w, q) && w.readings[p].id == w.readings[q].id ==> p == q)
            && (Won(w, p) ==> HoldsItsWrite(w, w.readings[p]))
            && (p in w.answers && !Won(w, p) ==> ShowsRead(w.answers[p], w.readings[p]) && w.readings[p].session.canceledAt.None?)
  {
    hide RunWorld;
    SoundForever(World(st, map[], map[]), acts);
  }

  // ----- A request in two parts, a run of whole steps -----

  /** What an act writes to the tables: a read nothing, an answer the late cancellation of what it had read. */
  function WritesOf(w: World, act: Act): seq<Step> {
    match act
    case Endpoint(step) => [step]
    case Begin(_, _, _) => []
    case Finish(q) =>
      if q in w.readings && q !in w.answers
      then [OnSessions(CancelLate(w.readings[q].id, w.readings[q].at, w.readings[q].reason))] else []
  }

  function AllWritesOf(w: World, acts: seq<Act>): seq<Step>
    decreases acts
  {
    if acts == [] then [] else WritesOf(w, acts[0]) + AllWritesOf(Next(w, acts[0]), acts[1..])
  }

  lemma {:induction false} RunInTwo(st: Store, a: seq<Step>, b: seq<Step>)
    ensures Run(st, a + b) == Run(Run(st, a), b)
    decreases a
  {
    hide Apply;
    if a == [] {
      assert a + b == b;
    } else {
      RunInTwo(Apply(st, a[0]), a[1..], b);
      assert (a + b)[1..] == a[1..] + b;
    }
  }

  /** Requests in two parts leave the tables as a run of endpoints and late cancellations does, in the same order. */
  lemma {:induction false} TablesAreOfARun(w: World, acts: seq<Act>)
    ensures RunWorld(w, acts).st == Run(w.st, AllWritesOf(w, acts))
    decreases acts
  {
    if acts != [] {
      var next := Next(w, acts[0]);
      assert next.st == Run(w.st, WritesOf(w, acts[0])) by {
        if WritesOf(w, acts[0]) != [] {
          OneStep(w.st, WritesOf(w, acts[0])[0]);
        }
      }
      TablesAreOfARun(next, acts[1..]);
      RunInTwo(w.st, WritesOf(w, acts[0]), AllWritesOf(next, acts[1..]));
    }
  }

  /**
    With nothing in between, a request in two parts does what `cancelSession` does: it gets to its write
    exactly when the request succeeds on a session that is not cancelled, and it then answers with the
    cancelled row.
   */
  lemma AloneIsCancelSession(w: World, q: RequestId, id: SessionId, reason: Option<string>)
    requires q !in w.readings && q !in w.answers
    ensures var (alone, whole) := (RunWorld(w, [Begin(q, id, reason), Finish(q)]), CancelSession(w.st, id, reason));
            && alone.st == w.st.(sessions := whole.0)
            && alone.readings - {q} == w.readings && alone.answers - {q} == w.answers
            && (q in alone.answers <==> whole.1.Done? && w.st.sessions[id].canceledAt.None?)
            && (q in alone.answers ==> Won(alone, q))
  {
    hide BuildRow;
    var begun := Next(w, Begin(q, id, reason));
    assert [Begin(q, id, reason), Finish(q)][1..] == [Finish(q)];
    assert RunWorld(begun, [Finish(q)]) == Next(begun, Finish(q));
    var alone := Next(begun, Finish(q));
    if q in alone.answers {
      RowShowsCancelled(alone.st.sessions[id], begun.readings[q].event, begun.readings[q].sold, w.st.clock);
    }
  }

  /**
    A sale between the read and the write is not noticed.  The request passes every check on what it
    reads; then tickets are sold, so that a new request would be refused; and its write still cancels
    the session.
   */
  lemma SaleBeforeLateWrite(st: Store, id: SessionId, tickets: nat, reason: Option<string>)
    requires GoesOnToWrite(st, id) && tickets > 0 && CanSell(st, id, tickets)
    ensures CancelSession(st, id, reason).1.Done? && SoldCount(st, id) == 0
    ensures var sold := Apply(st, Sell(id, tickets));
            CancelSession(sold, id, reason).1 == Failed(SessionLocked(SOLD))
    ensures var after := Run(st, [Sell(id, tickets), OnSessions(CancelLate(id, st.clock, CancelReason(reason)))]);
            IsCancelled(after, id) && SoldCount(after, id) > 0
  {
    var sold := Apply(st, Sell(id, tickets));
    var late := OnSessions(CancelLate(id, st.clock, CancelReason(reason)));
    assert [Sell(id, tickets), late][1..] == [late];
    OneStep(sold, late);
  }
}
