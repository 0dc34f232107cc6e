/** Runs that show what the theorems on deliveries are about: an entry is handed to two transactions,
    a commit that comes too late stops the server, and one that outlives a subscription skips entries. */
module DeliveryRuns {
  import opened SortedSeq
  import opened Queues
  import opened Deliveries
  import QueueRuns

  /** Where a run has got to: the log, the consumers, the transactions that have read, what consumer 9
      has been handed, and whether the run is steady for it. */
  datatype Point = Point(log: seq<Item>, consumers: map<int, Consumer>, open: map<(int, int), Session>, got: Got,
                         steady: bool)

  ghost predicate Leads(es: seq<Event>, s: State, p: Point) {
    Run(es) == Some(s) && Log(es) == p.log && Delivered(es, 9) == p.got && Steady(es, 9) == p.steady
  }

  ghost predicate Is(s: State, p: Point) {
    s.q.consumers == p.consumers && s.open == p.open && exists es :: Leads(es, s, p)
  }

  ghost predicate Reached(p: Point) {
    exists s :: Is(s, p)
  }

  /** The head of a read of up to max entries after `from`. */
  function Reaches(log: seq<Item>, from: int, max: int): int {
    if from + max < |log| - 1 then from + max else |log| - 1
  }

  lemma Next(es: seq<Event>, e: Event, c: int)
    requires Run(es).Some?
    ensures Run(es + [e]) == if Checks(Run(es).value, e) then Some(Step(Run(es).value, e)) else None
    ensures Delivered(es + [e], c) == Received(Run(es).value, Delivered(es, c), e, c)
    ensures Trace(es + [e]) == Trace(es) + Inside(Run(es).value, e)
    ensures Steady(es + [e], c) <==>
              Steady(es, c) && (e == Outside(QueueRuns.Unsubscribed(c)) ==> forall t :: (t, c) !in Run(es).value.open)
  {
    assert (es + [e])[..|es|] == es;
  }

  lemma LogNext(es: seq<Event>, e: Event)
    requires Run(es + [e]).Some? && Run(es).Some?
    ensures Log(es + [e]) == Log(es) + if e.Outside? then QueueRuns.Produced(e.e) else []
  {
    var us := Inside(Run(es).value, e);
    Next(es, e, 0);
    if us == [] {
      assert Trace(es) + us == Trace(es);
    } else {
      RunIsHistory(es);
      assert us == [us[0]];
      OneMore(Trace(es), us[0]);
    }
  }

  /** The event gets past its assertions and leads from p to p'. */
  ghost predicate Moves(s: State, p: Point, e: Event, p': Point) {
    && Checks(s, e)
    && p'.log == p.log + (if e.Outside? then QueueRuns.Produced(e.e) else [])
    && p'.got == Received(s, p.got, e, 9)
    && (p'.steady <==> p.steady && (e == Outside(QueueRuns.Unsubscribed(9)) ==> forall t :: (t, 9) !in s.open))
    && p'.consumers == Step(s, e).q.consumers && p'.open == Step(s, e).open
  }

  /** One more event. */
  lemma Go(s: State, p: Point, e: Event, p': Point)
    requires Is(s, p) && Moves(s, p, e, p')
    ensures Reached(p')
  {
    var es :| Leads(es, s, p);
    Next(es, e, 9);
    LogNext(es, e);
    assert Leads(es + [e], Step(s, e), p');
    assert Is(Step(s, e), p');
  }

  /** What a state at p looks like. */
  ghost predicate Shows(s: State, p: Point) {
    s.q.consumers == p.consumers && s.open == p.open && Logs(s.q, p.log) && HeadsOk(s.q)
  }

  lemma IsLog(s: State, p: Point)
    requires Is(s, p)
    ensures Shows(s, p)
  {
    var es :| Leads(es, s, p);
    ReachableState(es);
  }

  predicate CanRead(p: Point) {
    9 in p.consumers && -1 <= p.consumers[9].readHead < |p.log|
  }

  /** A read after `from` gets past its assertions and returns the next entries. */
  ghost predicate Returns(q: Queue, log: seq<Item>, from: int, max: int) {
    && -1 <= from < |log| && max >= 1 && ReadChecks(q, from, max)
    && ReadAfter(q, from, max).newHead == Reaches(log, from, max)
    && ReadAfter(q, from, max).batch == log[from + 1..Reaches(log, from, max) + 1]
  }

  lemma IsRead(s: State, p: Point, max: int)
    requires Is(s, p) && CanRead(p) && max >= 1
    ensures Returns(s.q, p.log, p.consumers[9].readHead, max)
  {
    IsLog(s, p);
    BatchIsLogSlice(s.q, p.log, p.consumers[9].readHead, max);
  }

  // ---- Steps ----

  lemma Enqueue(p: Point, x: Item)
    requires Reached(p)
    ensures Reached(p.(log := p.log + [x]))
  {
    var s :| Is(s, p);
    Go(s, p, Outside(QueueRuns.Enqueued(x)), p.(log := p.log + [x]));
  }

  lemma Subscribe(p: Point)
    requires Reached(p) && 9 !in p.consumers
    ensures Reached(p.(consumers := p.consumers[9 := Consumer(-1, -1)]))
  {
    var s :| Is(s, p);
    Go(s, p, Outside(QueueRuns.Subscribed(9)), p.(consumers := p.consumers[9 := Consumer(-1, -1)]));
  }

  lemma Unsubscribe(p: Point, t: int)
    requires Reached(p) && 9 in p.consumers && (t, 9) in p.open
    ensures Reached(p.(consumers := p.consumers - {9}, got := Got([], []), steady := false))
  {
    var s :| Is(s, p);
    var p' := p.(consumers := p.consumers - {9}, got := Got([], []), steady := false);
    Go(s, p, Outside(QueueRuns.Unsubscribed(9)), p');
  }

  function WithHead(p: Point, head: int): Point
    requires 9 in p.consumers
  {
    p.(consumers := p.consumers[9 := p.consumers[9].(readHead := head)])
  }

  function HasRead(p: Point, max: int): Point
    requires CanRead(p) && max >= 1
  {
    var h := p.consumers[9].readHead;
    var head := Reaches(p.log, h, max);
    WithHead(p, head).(got := Got(p.got.ids + Between(h, head), p.got.batch + p.log[h + 1..head + 1]))
  }

  lemma ReadMoves(s: State, p: Point, max: int)
    requires s.q.consumers == p.consumers && s.open == p.open && CanRead(p)
    requires Returns(s.q, p.log, p.consumers[9].readHead, max)
    ensures Moves(s, p, Outside(QueueRuns.HasRead(9, max)), HasRead(p, max))
  {
    assert p.log + [] == p.log;
  }

  lemma ReadDirectly(p: Point, max: int)
    requires Reached(p) && CanRead(p) && max >= 1
    ensures Reached(HasRead(p, max))
  {
    var s :| Is(s, p);
    IsRead(s, p, max);
    ReadMoves(s, p, max);
    Go(s, p, Outside(QueueRuns.HasRead(9, max)), HasRead(p, max));
  }

  /** What a first read in a transaction leaves. */
  function Peeked(log: seq<Item>, h: int, max: int): Session
    requires -1 <= h < |log| && max >= 1
  {
    var head := Reaches(log, h, max);
    Session(h, head, Between(h, head), log[h + 1..head + 1])
  }

  lemma FirstPeek(q: Queue, log: seq<Item>, max: int)
    requires 9 in q.consumers && Returns(q, log, q.consumers[9].readHead, max)
    ensures AfterPeek(q, 9, max, NEW_SESSION) == Peeked(log, q.consumers[9].readHead, max)
  {
    var o := Peeked(log, q.consumers[9].readHead, max);
    assert [] + o.ids == o.ids && [] + o.batch == o.batch;
  }

  function PeekedIn(p: Point, t: int, max: int): Point
    requires CanRead(p) && max >= 1
  {
    p.(open := p.open[(t, 9) := Peeked(p.log, p.consumers[9].readHead, max)])
  }

  lemma PeekSteps(s: State, t: int, max: int, o: Session)
    requires (t, 9) !in s.open && 9 in s.q.consumers && ReadChecks(s.q, s.q.consumers[9].readHead, max)
    requires -1 <= s.q.consumers[9].readHead && AfterPeek(s.q, 9, max, NEW_SESSION) == o
    ensures Checks(s, ReadIn(t, 9, max)) && Step(s, ReadIn(t, 9, max)) == s.(open := s.open[(t, 9) := o])
  {
  }

  lemma PeekMoves(s: State, p: Point, t: int, max: int)
    requires s.q.consumers == p.consumers && s.open == p.open && CanRead(p) && (t, 9) !in p.open
    requires Returns(s.q, p.log, p.consumers[9].readHead, max)
    ensures Moves(s, p, ReadIn(t, 9, max), PeekedIn(p, t, max))
  {
    var o := Peeked(p.log, p.consumers[9].readHead, max);
    FirstPeek(s.q, p.log, max);
    PeekSteps(s, t, max, o);
    assert p.log + [] == p.log && Received(s, p.got, ReadIn(t, 9, max), 9) == p.got;
  }

  lemma ReadInside(p: Point, t: int, max: int)
    requires Reached(p) && CanRead(p) && (t, 9) !in p.open && max >= 1
    ensures Reached(PeekedIn(p, t, max))
  {
    var s :| Is(s, p);
    IsRead(s, p, max);
    PeekMoves(s, p, t, max);
    Go(s, p, ReadIn(t, 9, max), PeekedIn(p, t, max));
  }

  predicate CanCommit(p: Point, t: int) {
    && 9 in p.consumers && (t, 9) in p.open
    && p.consumers[9].readHead <= p.open[(t, 9)].head < |p.log| && p.consumers[9].consumeHead <= p.open[(t, 9)].head
  }

  function Committed(p: Point, t: int): Point
    requires CanCommit(p, t)
  {
    var o := p.open[(t, 9)];
    WithHead(p, o.head).(open := p.open - {(t, 9)}, got := Got(p.got.ids + o.ids, p.got.batch + o.batch))
  }

  lemma CommitMoves(s: State, p: Point, t: int)
    requires Shows(s, p) && CanCommit(p, t)
    ensures Moves(s, p, Commit(t, 9), Committed(p, t))
  {
    assert p.log + [] == p.log;
  }

  lemma CommitReads(p: Point, t: int)
    requires Reached(p) && CanCommit(p, t)
    ensures Reached(Committed(p, t))
  {
    var s :| Is(s, p);
    IsLog(s, p);
    CommitMoves(s, p, t);
    Go(s, p, Commit(t, 9), Committed(p, t));
  }

  // ---- Runs ----

  function Fresh(log: seq<Item>): Point {
    Point(log, map[9 := Consumer(-1, -1)], map[], Got([], []), true)
  }

  /** One entry, or two, and a consumer that has read nothing. */
  lemma OneEntry(x: Item)
    ensures Reached(Fresh([x]))
  {
    var start := Point([], map[], map[], Got([], []), true);
    assert Leads([], State(EMPTY_QUEUE, map[]), start);
    assert Is(State(EMPTY_QUEUE, map[]), start);
    Enqueue(start, x);
    assert start.(log := start.log + [x]) == start.(log := [x]);
    Subscribe(start.(log := [x]));
  }

  lemma TwoEntries(x: Item, y: Item)
    ensures Reached(Fresh([x, y]))
  {
    OneEntry(x);
    Enqueue(Fresh([x]), y);
    assert [x] + [y] == [x, y];
  }

  lemma BothRead(x: Item)
    ensures var o := Session(-1, 0, [0], [x]); Reached(Fresh([x]).(open := map[(1, 9) := o, (2, 9) := o]))
  {
    var o, a := Session(-1, 0, [0], [x]), Fresh([x]);
    assert Peeked([x], -1, 1) == o;
    OneEntry(x);
    ReadInside(a, 1, 1);
    var b := PeekedIn(a, 1, 1);
    ReadInside(b, 2, 1);
    assert PeekedIn(b, 2, 1).open == map[(1, 9) := o, (2, 9) := o];
  }

  /** Where two commits of a read of [x] lead. */
  lemma CommitsOf(x: Item)
    ensures var o := Session(-1, 0, [0], [x]);
            var b := Point([x], map[9 := Consumer(0, -1)], map[(2, 9) := o], Got([0], [x]), true);
            && Committed(Fresh([x]).(open := map[(1, 9) := o, (2, 9) := o]), 1) == b
            && Committed(b, 2) == Point([x], map[9 := Consumer(0, -1)], map[], Got([0, 0], [x, x]), true)
  {
    var o := Session(-1, 0, [0], [x]);
    assert map[(1, 9) := o, (2, 9) := o] - {(1, 9)} == map[(2, 9) := o] && map[(2, 9) := o] - {(2, 9)} == map[];
    assert [] + [0] == [0] && [] + [x] == [x] && [0] + [0] == [0, 0] && [x] + [x] == [x, x];
  }

  lemma BothCommit(x: Item)
    ensures Reached(Point([x], map[9 := Consumer(0, -1)], map[], Got([0, 0], [x, x]), true))
  {
    var o := Session(-1, 0, [0], [x]);
    var a := Fresh([x]).(open := map[(1, 9) := o, (2, 9) := o]);
    BothRead(x);
    CommitsOf(x);
    CommitReads(a, 1);
    CommitReads(Committed(a, 1), 2);
  }

  /** Two transactions read the same entry before either commits, and both commit: the consumer is
      handed the entry twice. */
  lemma TwoTransactionsGetTheSame(x: Item) returns (es: seq<Event>)
    ensures Run(es).Some? && Log(es) == [x] && Delivered(es, 9) == Got([0, 0], [x, x])
    ensures Steady(es, 9) && Overlaps(es, 9) == 1
  {
    BothCommit(x);
    var p := Point([x], map[9 := Consumer(0, -1)], map[], Got([0, 0], [x, x]), true);
    var s :| Is(s, p);
    es :| Leads(es, s, p);
    OverlapLaw(es, 9);
  }

  /** A transaction reads one of two entries, a direct read of both overtakes it, and its commit stops
      the server. */
  lemma OvertakenReadStops(x: Item, y: Item) returns (es: seq<Event>)
    ensures Run(es).Some? && (1, 9) in Run(es).value.open && Run(es + [Commit(1, 9)]) == None
  {
    var a := PeekedIn(Fresh([x, y]), 1, 1);
    TwoEntries(x, y);
    ReadInside(Fresh([x, y]), 1, 1);
    ReadDirectly(a, 2);
    var s :| Is(s, HasRead(a, 2));
    es :| Leads(es, s, HasRead(a, 2));
    Next(es, Commit(1, 9), 9);
  }

  /** Where reading one entry after the other leads. */
  lemma ReadsOf(x: Item, y: Item)
    ensures var a := Point([x, y], map[9 := Consumer(0, -1)], map[], Got([0], [x]), true);
            && HasRead(Fresh([x, y]), 1) == a
            && PeekedIn(a, 1, 1) == a.(open := map[(1, 9) := Session(0, 1, [1], [y])])
  {
    assert Between(-1, 0) == [0] && Between(0, 1) == [1] && [x, y][0..1] == [x] && [x, y][1..2] == [y];
    assert [] + [0] == [0] && [] + [x] == [x];
    var o := Session(0, 1, [1], [y]);
    assert Peeked([x, y], 0, 1) == o && map[][(1, 9) := o] == map[(1, 9) := o];
  }

  lemma SecondReadInside(x: Item, y: Item)
    ensures var o := Session(0, 1, [1], [y]);
            Reached(Point([x, y], map[9 := Consumer(0, -1)], map[(1, 9) := o], Got([0], [x]), true))
  {
    var a := Point([x, y], map[9 := Consumer(0, -1)], map[], Got([0], [x]), true);
    TwoEntries(x, y);
    ReadsOf(x, y);
    ReadDirectly(Fresh([x, y]), 1);
    ReadInside(a, 1, 1);
  }

  lemma CommitOf(x: Item, y: Item)
    ensures var o := Session(0, 1, [1], [y]);
            Committed(Point([x, y], map[9 := Consumer(-1, -1)], map[(1, 9) := o], Got([], []), false), 1) ==
              Point([x, y], map[9 := Consumer(1, -1)], map[], Got([1], [y]), false)
  {
    assert map[(1, 9) := Session(0, 1, [1], [y])] - {(1, 9)} == map[] && [] + [1] == [1] && [] + [y] == [y];
  }

  lemma SubscribeAndCommit(x: Item, y: Item)
    requires var a := map[9 := Consumer(0, -1)];
             Reached(Point([x, y], a - {9}, map[(1, 9) := Session(0, 1, [1], [y])], Got([], []), false))
    ensures Reached(Point([x, y], map[9 := Consumer(1, -1)], map[], Got([1], [y]), false))
  {
    var o := Session(0, 1, [1], [y]);
    assert map[9 := Consumer(0, -1)] - {9} == map[];
    Subscribe(Point([x, y], map[], map[(1, 9) := o], Got([], []), false));
    CommitOf(x, y);
    CommitReads(Point([x, y], map[9 := Consumer(-1, -1)], map[(1, 9) := o], Got([], []), false), 1);
  }

  /** A transaction reads the second entry, and its consumer unsubscribes and subscribes again before
      it commits: the new subscription never gets the first entry. */
  lemma OutlivedSubscriptionSkips(x: Item, y: Item) returns (es: seq<Event>)
    ensures Run(es).Some? && Log(es) == [x, y] && Delivered(es, 9) == Got([1], [y]) && !Steady(es, 9)
    ensures 9 in Run(es).value.q.consumers && Run(es).value.q.consumers[9].readHead == 1
  {
    var a := Point([x, y], map[9 := Consumer(0, -1)], map[(1, 9) := Session(0, 1, [1], [y])], Got([0], [x]), true);
    SecondReadInside(x, y);
    Unsubscribe(a, 1);
    SubscribeAndCommit(x, y);
    var p := Point([x, y], map[9 := Consumer(1, -1)], map[], Got([1], [y]), false);
    var s :| Is(s, p);
    es :| Leads(es, s, p);
  }
}
