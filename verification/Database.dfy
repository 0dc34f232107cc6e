/** The backend a transaction is persisted into. Regular tables are flat maps from key path to
    columns, which is what the trees of module Tables refine; queue tables hold queues by id. */
module Database {
  import opened Order
  import opened KeyPaths
  import opened TxnWrites
  import opened Queues
  import QueueRuns

  const NO_TABLE := -1
  const NO_QUEUE := -2
  const DUPLICATE_QUEUE := -6
  const STOPPED := -100

  datatype Table = Table(rows: map<Path, seq<int>>, queues: map<int, Queue>)

  type Db = map<int, Table>

  datatype Outcome = Outcome(db: Db, status: int)

  function Columns(w: Write): seq<int> {
    w.columnValues[w.noPrimaryKeys + w.noClusteringKeys..]
  }

  function SetQueue(db: Db, t: int, id: int, q: Queue): Db
    requires t in db
  {
    db[t := db[t].(queues := db[t].queues[id := q])]
  }

  predicate HasQueue(db: Db, t: int, id: int) {
    t in db && id in db[t].queues
  }

  /** Persisting a write trips no assertion and frees no list header. The code asserts that
      subscriptions do not occur in transactions. */
  predicate Safe(db: Db, w: Write) {
    var t, id := w.tableKey, w.queueId;
    match w.queryType
    case SubscribeQueue => false
    case UnsubscribeQueue => false
    case Delete => t in db && w.columnValues != [] && db[t].rows == map[] ==> !LooksLikeHeader(w.columnValues[0])
    case ReadQueue => HasQueue(db, t, id) ==> ReadHeadChecks(db[t].queues[id], w.consumerId, w.newReadHead)
    case ConsumeQueue => HasQueue(db, t, id) ==> ConsumeHeadChecks(db[t].queues[id], w.consumerId, w.newConsumeHead)
    case _ => true
  }

  /** persist_write. A write that is not safe stops the server and leaves nothing behind. */
  function PersistWrite(db: Db, w: Write): Outcome {
    var t, id := w.tableKey, w.queueId;
    if !Safe(db, w) then
      Outcome(db, STOPPED)
    else if t !in db then
      Outcome(db, NO_TABLE)
    else
      match w.queryType
      case Update =>
        Outcome(db[t := db[t].(rows := db[t].rows[KeyPath(w) := Columns(w)])], 0)
      case Delete =>
        if w.columnValues == [] then Outcome(db, 1)
        else
          var rest := WithoutRow(db[t].rows, w.columnValues[0]);
          Outcome(db[t := db[t].(rows := rest)], if rest == db[t].rows then 1 else 0)
      case CreateQueue =>
        if id in db[t].queues then Outcome(db, DUPLICATE_QUEUE) else Outcome(SetQueue(db, t, id, EMPTY_QUEUE), 0)
      case _ =>
        if id !in db[t].queues then Outcome(db, NO_QUEUE)
        else
          var q, c := db[t].queues[id], w.consumerId;
          if w.queryType.Enqueue? then
            Outcome(SetQueue(db, t, id, AfterEnqueue(q, w.columnValues)), 0)
          else if w.queryType.DeleteQueue? then
            Outcome(db[t := db[t].(queues := db[t].queues - {id})], 0)
          else if c !in q.consumers then
            Outcome(db, NO_CONSUMER)
          else if w.queryType.ReadQueue? then
            Outcome(SetQueue(db, t, id, SetReadHead(q, c, w.newReadHead)), 0)
          else
            Outcome(SetQueue(db, t, id, SetConsumeHead(q, c, w.newConsumeHead)), 0)
  }

  /** Persisting a sequence of writes; the status reported is that of the last one. Only what comes
      before the first unsafe write is ever observed of a server, see Survives. */
  function PersistAll(db: Db, xs: seq<Write>): Outcome {
    if xs == [] then Outcome(db, 0) else PersistWrite(PersistAll(db, xs[..|xs| - 1]).db, xs[|xs| - 1])
  }

  /** The server is still there after persisting a sequence of writes. */
  predicate Survives(db: Db, xs: seq<Write>) {
    xs == [] || (Survives(db, xs[..|xs| - 1]) && Safe(PersistAll(db, xs[..|xs| - 1]).db, xs[|xs| - 1]))
  }

  lemma {:induction false} SurvivesPrefix(db: Db, xs: seq<Write>, n: nat)
    requires Survives(db, xs) && n <= |xs|
    ensures Survives(db, xs[..n])
    decreases |xs| - n
  {
    if n < |xs| {
      SurvivesPrefix(db, xs, n + 1);
      assert xs[..n + 1][..n] == xs[..n];
    } else {
      assert xs[..n] == xs;
    }
  }

  lemma {:induction false} PersistKeepsTables(db: Db, xs: seq<Write>)
    ensures PersistAll(db, xs).db.Keys == db.Keys
  {
    if xs != [] {
      PersistKeepsTables(db, xs[..|xs| - 1]);
    }
  }

  // ---- Queues stay well-formed ----

  /** Every queue is some numbered log, with heads in bounds. */
  ghost predicate QueuesOk(db: Db) {
    forall t, id :: HasQueue(db, t, id) ==> HeadsOk(db[t].queues[id]) && IsLog(db[t].queues[id])
  }

  ghost predicate IsLog(q: Queue) {
    exists log :: Logs(q, log)
  }

  /** Whatever a transaction holds, persisting it keeps every queue a numbered log with
      consume head <= read head < number of entries for every consumer. */
  lemma {:induction false} PersistKeepsQueues(db: Db, xs: seq<Write>)
    requires QueuesOk(db)
    ensures QueuesOk(PersistAll(db, xs).db)
  {
    if xs != [] {
      PersistKeepsQueues(db, xs[..|xs| - 1]);
      WriteKeepsQueues(PersistAll(db, xs[..|xs| - 1]).db, xs[|xs| - 1]);
    }
  }

  /** What persisting an enqueue, a read or a consume does to its queue, as an event there. */
  function EventOf(w: Write): QueueRuns.Event
    requires w.queryType.Enqueue? || w.PerConsumer()
  {
    match w.queryType
    case Enqueue => QueueRuns.Enqueued(w.columnValues)
    case ReadQueue => QueueRuns.ReadCommitted(w.consumerId, w.newReadHead)
    case ConsumeQueue => QueueRuns.ConsumeCommitted(w.consumerId, w.newConsumeHead)
  }

  /** A queue that stays is left alone or goes through such an event, with its assertions met. */
  lemma PersistIsStep(db: Db, w: Write, t: int, id: int)
    requires HasQueue(db, t, id) && HasQueue(PersistWrite(db, w).db, t, id)
    ensures var q, q' := db[t].queues[id], PersistWrite(db, w).db[t].queues[id];
            || q' == q
            || (&& (w.queryType.Enqueue? || w.PerConsumer())
                && QueueRuns.Checks(q, EventOf(w)) && q' == QueueRuns.Step(q, EventOf(w)))
  {
  }

  lemma WriteKeepsQueues(db: Db, w: Write)
    requires QueuesOk(db)
    ensures QueuesOk(PersistWrite(db, w).db)
  {
    var db' := PersistWrite(db, w).db;
    forall t, id | HasQueue(db', t, id)
      ensures HeadsOk(db'[t].queues[id]) && IsLog(db'[t].queues[id])
    {
      if HasQueue(db, t, id) {
        PersistIsStep(db, w, t, id);
        StepKeepsQueue(db[t].queues[id], db'[t].queues[id], w);
      } else {
        NewQueue(db, w, t, id);
        assert Logs(EMPTY_QUEUE, []);
      }
    }
  }

  lemma NewQueue(db: Db, w: Write, t: int, id: int)
    requires !HasQueue(db, t, id) && HasQueue(PersistWrite(db, w).db, t, id)
    ensures PersistWrite(db, w).db[t].queues[id] == EMPTY_QUEUE
  {
  }

  lemma StepKeepsQueue(q: Queue, q': Queue, w: Write)
    requires HeadsOk(q) && IsLog(q)
    requires || q' == q
             || (&& (w.queryType.Enqueue? || w.PerConsumer())
                 && QueueRuns.Checks(q, EventOf(w)) && q' == QueueRuns.Step(q, EventOf(w)))
    ensures HeadsOk(q') && IsLog(q')
  {
    var log :| Logs(q, log);
    if q' != q {
      QueueRuns.StepKeeps(q, log, EventOf(w));
      assert Logs(q', log + QueueRuns.Produced(EventOf(w)));
    }
  }
}
