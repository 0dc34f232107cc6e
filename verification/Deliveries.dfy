/** What consumers are handed: at once by direct reads, and when it commits by the reads of a
    transaction, which go through the queue without moving the head. Entries are told apart by id. */
module Deliveries {
  import opened SortedSeq
  import opened Queues
  import QueueRuns

  /** Here t names a transaction's reads under one shard and application, since a write set keeps
      one head for each. A head is committed by transactions only. */
  datatype Event =
    | Outside(e: QueueRuns.Event)
    | ReadIn(t: int, c: int, max: int)
    | Commit(t: int, c: int)
    | Abort(t: int, c: int)

  /** The entries read so far, the head the last read left, and the head the reads started from. */
  datatype Session = Session(start: int, head: int, ids: seq<int>, batch: seq<Item>)

  const NEW_SESSION := Session(-1, -1, [], [])

  datatype State = State(q: Queue, open: map<(int, int), Session>)

  /** The ids of the entries after `from` up to `head`. */
  function Between(from: int, head: int): (r: seq<int>)
    ensures |r| == if from <= head then head - from else 0
    ensures forall i :: 0 <= i < |r| ==> r[i] == from + 1 + i
  {
    if from <= head then seq(head - from, i requires 0 <= i => from + 1 + i) else []
  }

  function SessionOf(s: State, t: int, c: int): Session {
    if (t, c) in s.open then s.open[(t, c)] else NEW_SESSION
  }

  /** A read peeks from the head of the transaction's previous read, and records the new one also
      when there is no such consumer. */
  function AfterPeek(q: Queue, c: int, max: int, o: Session): Session {
    var r := PeekAt(q, c, max, o.head);
    if c !in q.consumers then Session(if o.ids == [] then -1 else o.start, r.newHead, o.ids, o.batch)
    else
      var from := PeekStart(q, c, o.head);
      Session(if o.ids == [] then from else o.start, r.newHead, o.ids + Between(from, r.newHead), o.batch + r.batch)
  }

  /** What an event does to the queue itself. */
  function Inside(s: State, e: Event): seq<QueueRuns.Event> {
    match e
    case Outside(e) => [e]
    case Commit(t, c) => if (t, c) in s.open then [QueueRuns.ReadCommitted(c, s.open[(t, c)].head)] else []
    case _ => []
  }

  function Step(s: State, e: Event): State {
    var q := if Inside(s, e) == [] then s.q else QueueRuns.Step(s.q, Inside(s, e)[0]);
    match e
    case Outside(_) => s.(q := q)
    case ReadIn(t, c, max) => s.(open := s.open[(t, c) := AfterPeek(s.q, c, max, SessionOf(s, t, c))])
    case Commit(t, c) => State(q, s.open - {(t, c)})
    case Abort(t, c) => s.(open := s.open - {(t, c)})
  }

  /** The assertions on the way hold. */
  predicate Checks(s: State, e: Event) {
    match e
    case Outside(e) => !e.ReadCommitted? && QueueRuns.Checks(s.q, e)
    case ReadIn(t, c, max) =>
      c in s.q.consumers ==> ReadChecks(s.q, PeekStart(s.q, c, SessionOf(s, t, c).head), max)
    case Commit(t, c) => (t, c) in s.open ==> ReadHeadChecks(s.q, c, s.open[(t, c)].head)
    case Abort(_, _) => true
  }

  /** The state after some events; None once the server has stopped. */
  function Run(es: seq<Event>): Option<State> {
    if es == [] then Some(State(EMPTY_QUEUE, map[]))
    else
      var before, e := Run(es[..|es| - 1]), es[|es| - 1];
      if before.None? || !Checks(before.value, e) then None else Some(Step(before.value, e))
  }

  /** The history of the queue. */
  function Trace(es: seq<Event>): seq<QueueRuns.Event> {
    if es == [] then []
    else
      var before := Run(es[..|es| - 1]);
      Trace(es[..|es| - 1]) + if before.None? then [] else Inside(before.value, es[|es| - 1])
  }

  function Log(es: seq<Event>): seq<Item> {
    QueueRuns.Log(Trace(es))
  }

  // ---- Every run is a history of the queue ----

  lemma OneMore(us: seq<QueueRuns.Event>, u: QueueRuns.Event)
    requires QueueRuns.Run(us).Some? && QueueRuns.Checks(QueueRuns.Run(us).value, u)
    ensures QueueRuns.Run(us + [u]) == Some(QueueRuns.Step(QueueRuns.Run(us).value, u))
    ensures QueueRuns.Log(us + [u]) == QueueRuns.Log(us) + QueueRuns.Produced(u)
  {
    assert (us + [u])[..|us|] == us;
  }

  lemma {:induction false} RunIsHistory(es: seq<Event>)
    requires Run(es).Some?
    ensures QueueRuns.Run(Trace(es)) == Some(Run(es).value.q)
  {
    if es != [] {
      var before, e := es[..|es| - 1], es[|es| - 1];
      RunIsHistory(before);
      var us := Inside(Run(before).value, e);
      if us == [] {
        assert Trace(before) + us == Trace(before);
      } else {
        assert us == [us[0]];
        OneMore(Trace(before), us[0]);
      }
    }
  }

  /** So every queue of a running server is the numbered log, with heads in bounds. */
  lemma ReachableState(es: seq<Event>)
    requires Run(es).Some?
    ensures Logs(Run(es).value.q, Log(es)) && HeadsOk(Run(es).value.q)
  {
    RunIsHistory(es);
    QueueRuns.ReachableQueue(Trace(es));
  }

  lemma LogGrows(es: seq<Event>)
    requires es != []
    ensures Log(es[..|es| - 1]) <= Log(es)
  {
    var before := Run(es[..|es| - 1]);
    if before.Some? {
      var us, vs := Trace(es[..|es| - 1]), Inside(before.value, es[|es| - 1]);
      if vs == [] {
        assert us + vs == us;
      } else {
        assert vs == [vs[0]] && (us + vs)[..|us|] == us;
      }
    } else {
      assert Trace(es) == Trace(es[..|es| - 1]);
    }
  }

  // ---- What consumers are handed ----

  datatype Got = Got(ids: seq<int>, batch: seq<Item>)

  /** What an event adds for consumer c; unsubscribing starts over. */
  function Received(s: State, got: Got, e: Event, c: int): Got {
    match e
    case Outside(Unsubscribed(d)) => if d == c then Got([], []) else got
    case Outside(HasRead(d, max)) =>
      if d == c && c in s.q.consumers then
        var r := DirectRead(s.q, c, max);
        Got(got.ids + Between(s.q.consumers[c].readHead, r.newHead), got.batch + r.batch)
      else got
    case Commit(t, d) =>
      if d == c && Delivers(s, t, c) then
        Got(got.ids + s.open[(t, c)].ids, got.batch + s.open[(t, c)].batch)
      else got
    case _ => got
  }

  /** Transaction t has read as c, and c is subscribed. */
  predicate Delivers(s: State, t: int, c: int) {
    (t, c) in s.open && c in s.q.consumers
  }

  /** All that consumer c was handed since its subscription began. */
  function Delivered(es: seq<Event>, c: int): Got {
    if es == [] then Got([], [])
    else
      var before, got := Run(es[..|es| - 1]), Delivered(es[..|es| - 1], c);
      if before.None? then got else Received(before.value, got, es[|es| - 1], c)
  }

  /** The items are those of the log at the ids. */
  ghost predicate FromLog(log: seq<Item>, ids: seq<int>, batch: seq<Item>) {
    |batch| == |ids| && forall i :: 0 <= i < |ids| ==> 0 <= ids[i] < |log| && batch[i] == log[ids[i]]
  }

  lemma FromLonger(log: seq<Item>, log': seq<Item>, ids: seq<int>, batch: seq<Item>)
    requires FromLog(log, ids, batch) && log <= log'
    ensures FromLog(log', ids, batch)
  {
  }

  lemma FromBoth(log: seq<Item>, ids: seq<int>, batch: seq<Item>, ids': seq<int>, batch': seq<Item>)
    requires FromLog(log, ids, batch) && FromLog(log, ids', batch')
    ensures FromLog(log, ids + ids', batch + batch')
  {
  }

  /** What a read returns are the entries after where it starts, up to its new head. */
  lemma ReadFromLog(q: Queue, log: seq<Item>, from: int, max: int)
    requires Logs(q, log) && -1 <= from && ReadChecks(q, from, max)
    ensures var r := ReadAfter(q, from, max);
            from <= r.newHead < |log| && FromLog(log, Between(from, r.newHead), r.batch)
  {
    if from < |log| - 1 {
      CountCheckIff(q, log, from, max);
      BatchIsLogSlice(q, log, from, max);
    }
  }

  ghost predicate SessionOk(log: seq<Item>, o: Session) {
    -1 <= o.head && FromLog(log, o.ids, o.batch)
  }

  ghost predicate SessionsOk(log: seq<Item>, s: State) {
    forall k :: k in s.open ==> SessionOk(log, s.open[k])
  }

  lemma PeekKeepsSession(q: Queue, log: seq<Item>, c: int, max: int, o: Session)
    requires Logs(q, log) && HeadsOk(q) && SessionOk(log, o)
    requires c in q.consumers ==> ReadChecks(q, PeekStart(q, c, o.head), max)
    ensures SessionOk(log, AfterPeek(q, c, max, o))
  {
    if c in q.consumers {
      var from := PeekStart(q, c, o.head);
      ReadFromLog(q, log, from, max);
      FromBoth(log, o.ids, o.batch, Between(from, ReadAfter(q, from, max).newHead), ReadAfter(q, from, max).batch);
    }
  }

  lemma {:induction false} SessionsFromLog(es: seq<Event>)
    requires Run(es).Some?
    ensures SessionsOk(Log(es), Run(es).value)
  {
    if es != [] {
      var before, e := es[..|es| - 1], es[|es| - 1];
      var s := Run(before).value;
      SessionsFromLog(before);
      ReachableState(before);
      LogGrows(es);
      if e.ReadIn? {
        PeekKeepsSession(s.q, Log(before), e.c, e.max, SessionOf(s, e.t, e.c));
      }
      forall k | k in Step(s, e).open
        ensures SessionOk(Log(es), Step(s, e).open[k])
      {
        FromLonger(Log(before), Log(es), Step(s, e).open[k].ids, Step(s, e).open[k].batch);
      }
    }
  }

  lemma ReceivedFromLog(s: State, log: seq<Item>, got: Got, e: Event, c: int)
    requires Logs(s.q, log) && HeadsOk(s.q) && SessionsOk(log, s) && Checks(s, e) && FromLog(log, got.ids, got.batch)
    ensures var got' := Received(s, got, e, c); FromLog(log, got'.ids, got'.batch)
  {
    match e
    case Outside(HasRead(d, max)) =>
      if d == c && c in s.q.consumers {
        var from := s.q.consumers[c].readHead;
        ReadFromLog(s.q, log, from, max);
        FromBoth(log, got.ids, got.batch, Between(from, ReadAfter(s.q, from, max).newHead),
          ReadAfter(s.q, from, max).batch);
      }
    case Commit(t, d) =>
      if d == c && Delivers(s, t, c) {
        FromBoth(log, got.ids, got.batch, s.open[(t, c)].ids, s.open[(t, c)].batch);
      }
    case _ =>
  }

  /** In every run, what a consumer is handed are entries of the log, each with its own item. */
  lemma {:induction false} DeliveredFromLog(es: seq<Event>, c: int)
    requires Run(es).Some?
    ensures FromLog(Log(es), Delivered(es, c).ids, Delivered(es, c).batch)
  {
    if es != [] {
      var before, e := es[..|es| - 1], es[|es| - 1];
      DeliveredFromLog(before, c);
      ReachableState(before);
      SessionsFromLog(before);
      ReceivedFromLog(Run(before).value, Log(before), Delivered(before, c), e, c);
      LogGrows(es);
      FromLonger(Log(before), Log(es), Delivered(es, c).ids, Delivered(es, c).batch);
    }
  }

  // ---- Exactly once and in order ----

  /** Consumer c was handed every entry up to its read head once, in order. */
  ghost predicate UpToHead(q: Queue, ids: seq<int>, c: int) {
    ids == if c in q.consumers then Between(-1, q.consumers[c].readHead) else []
  }

  /** A commit for c finds the head at the point from which the transaction's reads returned exactly
      the entries the head is about to pass. */
  ghost predicate InStep(s: State, e: Event, c: int) {
    e.Commit? && e.c == c && Delivers(s, e.t, c) ==>
      s.open[(e.t, c)].ids == Between(s.q.consumers[c].readHead, s.open[(e.t, c)].head)
  }

  lemma Joined(from: int, mid: int, head: int)
    requires from <= mid <= head
    ensures Between(from, mid) + Between(mid, head) == Between(from, head)
  {
  }

  lemma JoinsOnlyNext(head: int, ids: seq<int>, head': int)
    requires -1 <= head <= head'
    ensures Between(-1, head) + ids == Between(-1, head') <==> ids == Between(head, head')
  {
    Joined(-1, head, head');
    var a := Between(-1, head);
    assert (a + ids)[|a|..] == ids && (a + Between(head, head'))[|a|..] == Between(head, head');
  }

  /** From a state in which all is well, a step keeps it so exactly when it is in step. */
  lemma StepUpToHead(s: State, log: seq<Item>, got: Got, e: Event, c: int)
    requires Logs(s.q, log) && HeadsOk(s.q) && Checks(s, e) && UpToHead(s.q, got.ids, c)
    ensures UpToHead(Step(s, e).q, Received(s, got, e, c).ids, c) <==> InStep(s, e, c)
  {
    match e
    case Outside(u) =>
      if u.HasRead? && u.c == c && c in s.q.consumers {
        ReadFromLog(s.q, log, s.q.consumers[c].readHead, u.max);
        Joined(-1, s.q.consumers[c].readHead, DirectRead(s.q, c, u.max).newHead);
      } else {
        QueueRuns.OthersKeepHead(s.q, u, c);
      }
    case Commit(t, d) =>
      if (t, d) in s.open {
        if d == c && c in s.q.consumers {
          JoinsOnlyNext(s.q.consumers[c].readHead, s.open[(t, c)].ids, s.open[(t, c)].head);
        } else {
          QueueRuns.OthersKeepHead(s.q, QueueRuns.ReadCommitted(d, s.open[(t, d)].head), c);
        }
      }
    case _ =>
  }

  ghost predicate AlwaysUpToHead(es: seq<Event>, c: int)
    requires Run(es).Some?
  {
    && UpToHead(Run(es).value.q, Delivered(es, c).ids, c)
    && (es != [] ==> AlwaysUpToHead(es[..|es| - 1], c))
  }

  ghost predicate AlwaysInStep(es: seq<Event>, c: int)
    requires Run(es).Some?
  {
    es != [] ==> AlwaysInStep(es[..|es| - 1], c) && InStep(Run(es[..|es| - 1]).value, es[|es| - 1], c)
  }

  /** All along a run, a consumer has been handed the log up to its read head, exactly once and in
      order, if and only if every commit for it is in step. Direct reads always are. */
  lemma {:induction false} ExactlyOnceIff(es: seq<Event>, c: int)
    requires Run(es).Some?
    ensures AlwaysUpToHead(es, c) <==> AlwaysInStep(es, c)
  {
    if es != [] {
      var before, e := es[..|es| - 1], es[|es| - 1];
      ExactlyOnceIff(before, c);
      ReachableState(before);
      if AlwaysUpToHead(before, c) {
        StepUpToHead(Run(before).value, Log(before), Delivered(before, c), e, c);
      }
    }
  }

  /** A consumer all of whose commits are in step has the whole log when its head is at the end. */
  lemma AtTheEnd(es: seq<Event>, c: int)
    requires Run(es).Some? && AlwaysInStep(es, c) && c in Run(es).value.q.consumers
    ensures Delivered(es, c).batch == Log(es) <==> Run(es).value.q.consumers[c].readHead == |Log(es)| - 1
  {
    ExactlyOnceIff(es, c);
    ReachableState(es);
    DeliveredFromLog(es, c);
  }

  /** It does if and only if nothing is unread for it. */
  lemma CaughtUp(es: seq<Event>, c: int)
    requires Run(es).Some? && AlwaysInStep(es, c) && c in Run(es).value.q.consumers
    ensures Delivered(es, c).batch == Log(es) <==> DirectRead(Run(es).value.q, c, 1).batch == []
  {
    var q := Run(es).value.q;
    AtTheEnd(es, c);
    ReachableState(es);
    BatchIsLogSlice(q, Log(es), q.consumers[c].readHead, 1);
  }

  /** A direct read says COMPLETE if and only if with it the consumer has the whole log. */
  lemma CompleteReadCatchesUp(es: seq<Event>, c: int, max: int)
    requires var es' := es + [Outside(QueueRuns.HasRead(c, max))]; Run(es').Some? && AlwaysInStep(es', c)
    requires Run(es).Some? && c in Run(es).value.q.consumers
    ensures DirectRead(Run(es).value.q, c, max).status == READ_COMPLETE <==>
              Delivered(es + [Outside(QueueRuns.HasRead(c, max))], c).batch == Log(es)
  {
    var e := QueueRuns.HasRead(c, max);
    var es', q := es + [Outside(e)], Run(es).value.q;
    assert es'[..|es|] == es;
    ReachableState(es);
    RunIsHistory(es);
    OneMore(Trace(es), e);
    assert Log(es) + [] == Log(es) && Trace(es') == Trace(es) + [e];
    AtTheEnd(es', c);
    if q.consumers[c].readHead < |Log(es)| - 1 {
      CountCheckIff(q, Log(es), q.consumers[c].readHead, max);
      CompleteIff(q, Log(es), q.consumers[c].readHead, max);
    }
  }

  /** What an aborted transaction has read is forgotten: a commit that comes later hands over nothing
      and moves no head. */
  lemma AbortForgets(es: seq<Event>, t: int, c: int, d: int)
    requires Run(es).Some?
    ensures var a := es + [Abort(t, c)];
            && Run(a) == Some(Run(es).value.(open := Run(es).value.open - {(t, c)}))
            && Delivered(a, d) == Delivered(es, d)
            && Run(a + [Commit(t, c)]) == Run(a) && Delivered(a + [Commit(t, c)], d) == Delivered(a, d)
  {
    var a := es + [Abort(t, c)];
    var b, s := a + [Commit(t, c)], Run(es).value;
    assert a[..|es|] == es && b[..|a|] == a;
    assert s.open - {(t, c)} - {(t, c)} == s.open - {(t, c)};
  }

  // ---- Overlaps ----

  /** No transaction that has read as c is open when c unsubscribes. */
  ghost predicate Steady(es: seq<Event>, c: int) {
    es != [] ==>
      && Steady(es[..|es| - 1], c)
      && (es[|es| - 1] == Outside(QueueRuns.Unsubscribed(c)) && Run(es[..|es| - 1]).Some? ==>
            forall t :: (t, c) !in Run(es[..|es| - 1]).value.open)
  }

  /** The reads returned the entries after where they started, which the head has not gone back behind. */
  ghost predicate Lined(q: Queue, c: int, o: Session) {
    && -1 <= o.start <= o.head && o.ids == Between(o.start, o.head)
    && if c in q.consumers then o.start <= q.consumers[c].readHead else o.head == -1
  }

  ghost predicate AllLined(s: State, c: int) {
    forall t :: (t, c) in s.open ==> Lined(s.q, c, s.open[(t, c)])
  }

  lemma PeekStaysLined(q: Queue, log: seq<Item>, c: int, max: int, o: Session)
    requires Logs(q, log) && HeadsOk(q) && Lined(q, c, o)
    requires c in q.consumers ==> ReadChecks(q, PeekStart(q, c, o.head), max)
    ensures Lined(q, c, AfterPeek(q, c, max, o))
  {
    if c in q.consumers {
      var from := PeekStart(q, c, o.head);
      ReadFromLog(q, log, from, max);
      if o.ids != [] {
        Joined(o.start, from, ReadAfter(q, from, max).newHead);
      }
    }
  }

  lemma QueueStaysLined(q: Queue, log: seq<Item>, u: QueueRuns.Event, c: int, o: Session)
    requires Logs(q, log) && HeadsOk(q) && QueueRuns.Checks(q, u) && Lined(q, c, o)
    requires u != QueueRuns.Unsubscribed(c)
    ensures Lined(QueueRuns.Step(q, u), c, o)
  {
    if u.HasRead? && u.c == c && c in q.consumers {
      QueueRuns.ReadKeepsHead(q, log, c, u.max);
    }
  }

  lemma StepStaysLined(s: State, log: seq<Item>, e: Event, c: int)
    requires Logs(s.q, log) && HeadsOk(s.q) && Checks(s, e) && AllLined(s, c)
    requires e == Outside(QueueRuns.Unsubscribed(c)) ==> forall t :: (t, c) !in s.open
    ensures AllLined(Step(s, e), c)
  {
    forall t | (t, c) in Step(s, e).open
      ensures Lined(Step(s, e).q, c, Step(s, e).open[(t, c)])
    {
      if e.ReadIn? && e.t == t && e.c == c {
        PeekStaysLined(s.q, log, c, e.max, SessionOf(s, t, c));
      } else if Inside(s, e) != [] {
        QueueStaysLined(s.q, log, Inside(s, e)[0], c, s.open[(t, c)]);
      }
    }
  }

  lemma {:induction false} SteadyIsLined(es: seq<Event>, c: int)
    requires Run(es).Some? && Steady(es, c)
    ensures AllLined(Run(es).value, c)
  {
    if es != [] {
      var before := es[..|es| - 1];
      SteadyIsLined(before, c);
      ReachableState(before);
      StepStaysLined(Run(before).value, Log(before), es[|es| - 1], c);
    }
  }

  /** In a steady run, a commit hands over the entries its head passes after an overlap: those the
      head has passed since the transaction's reads started. It is in step exactly when the head is
      still where they did. */
  lemma CommitOverlaps(es: seq<Event>, t: int, c: int)
    requires Run(es + [Commit(t, c)]).Some? && Run(es).Some? && Steady(es, c) && Delivers(Run(es).value, t, c)
    ensures var s := Run(es).value;
            var o, h := s.open[(t, c)], s.q.consumers[c].readHead;
            && -1 <= o.start <= h <= o.head && o.ids == Between(o.start, h) + Between(h, o.head)
            && (InStep(s, Commit(t, c), c) <==> h == o.start)
  {
    var s := Run(es).value;
    assert (es + [Commit(t, c)])[..|es|] == es;
    SteadyIsLined(es, c);
    Joined(s.open[(t, c)].start, s.q.consumers[c].readHead, s.open[(t, c)].head);
  }

  /** How many entries a step hands over again. */
  function Overlap(s: State, e: Event, c: int): int {
    if e.Commit? && e.c == c && Delivers(s, e.t, c) then s.q.consumers[c].readHead - s.open[(e.t, c)].start else 0
  }

  /** All overlaps since the subscription began. */
  function Overlaps(es: seq<Event>, c: int): int {
    if es == [] || es[|es| - 1] == Outside(QueueRuns.Unsubscribed(c)) || Run(es[..|es| - 1]).None? then 0
    else Overlaps(es[..|es| - 1], c) + Overlap(Run(es[..|es| - 1]).value, es[|es| - 1], c)
  }

  /** Every entry up to the head was handed over, and that many once more. */
  ghost predicate Accounted(q: Queue, ids: seq<int>, c: int, overlaps: int) {
    && overlaps >= 0
    && (overlaps == 0 ==> UpToHead(q, ids, c))
    && if c in q.consumers then
         |ids| == q.consumers[c].readHead + 1 + overlaps && forall i :: 0 <= i <= q.consumers[c].readHead ==> i in ids
       else ids == [] && overlaps == 0
  }

  lemma Extends(q: Queue, ids: seq<int>, c: int, overlaps: int, q': Queue, start: int, head: int)
    requires Accounted(q, ids, c, overlaps) && c in q.consumers && c in q'.consumers && q'.consumers[c].readHead == head
    requires -1 <= start <= q.consumers[c].readHead <= head
    ensures Accounted(q', ids + Between(start, head), c, overlaps + q.consumers[c].readHead - start)
  {
    var h, more := q.consumers[c].readHead, Between(start, head);
    forall i | 0 <= i <= head
      ensures i in ids + more
    {
      if i > h {
        assert more[i - start - 1] == i;
      }
    }
    if overlaps == 0 && start == h {
      Joined(-1, h, head);
    }
  }

  lemma StepAccounted(s: State, log: seq<Item>, got: Got, e: Event, c: int, overlaps: int)
    requires Logs(s.q, log) && HeadsOk(s.q) && Checks(s, e) && AllLined(s, c) && Accounted(s.q, got.ids, c, overlaps)
    requires e != Outside(QueueRuns.Unsubscribed(c))
    ensures Accounted(Step(s, e).q, Received(s, got, e, c).ids, c, overlaps + Overlap(s, e, c))
  {
    var q' := Step(s, e).q;
    match e
    case Outside(u) =>
      if u.HasRead? && u.c == c && c in s.q.consumers {
        var h := s.q.consumers[c].readHead;
        ReadFromLog(s.q, log, h, u.max);
        Extends(s.q, got.ids, c, overlaps, q', h, DirectRead(s.q, c, u.max).newHead);
      } else {
        QueueRuns.OthersKeepHead(s.q, u, c);
      }
    case Commit(t, d) =>
      if (t, d) in s.open {
        if d == c && c in s.q.consumers {
          Extends(s.q, got.ids, c, overlaps, q', s.open[(t, c)].start, s.open[(t, c)].head);
        } else {
          QueueRuns.OthersKeepHead(s.q, QueueRuns.ReadCommitted(d, s.open[(t, d)].head), c);
        }
      }
    case _ =>
  }

  /** Conservation: in a steady run a consumer has been handed every entry up to its head, and as many
      again as its commits overlapped; nothing was handed over twice exactly when none did. */
  lemma {:induction false} OverlapLaw(es: seq<Event>, c: int)
    requires Run(es).Some? && Steady(es, c)
    ensures Accounted(Run(es).value.q, Delivered(es, c).ids, c, Overlaps(es, c))
    ensures UpToHead(Run(es).value.q, Delivered(es, c).ids, c) <==> Overlaps(es, c) == 0
  {
    if es != [] {
      var before, e := es[..|es| - 1], es[|es| - 1];
      OverlapLaw(before, c);
      ReachableState(before);
      SteadyIsLined(before, c);
      if e != Outside(QueueRuns.Unsubscribed(c)) {
        StepAccounted(Run(before).value, Log(before), Delivered(before, c), e, c, Overlaps(before, c));
      }
      ReachableState(es);
    }
  }
}
