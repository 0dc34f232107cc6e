/** Queue reads inside a transaction: each read starts where the transaction's previous one ended,
    and the consumer's head moves only at commit. */
module TxnReads {
  import opened SortedSeq
  import opened TxnWrites
  import opened WriteSets
  import opened Queues
  import opened Database
  import opened EnqueueOrder
  import opened Transactions
  import QueueRows
  import QueueRuns
  import Deliveries

  datatype Reader = Reader(tableKey: int, queueId: int, consumerId: int, shardId: int, appId: int)

  /** The operations that set a head. */
  type Kind = k: QueryType | k.ReadQueue? || k.ConsumeQueue? witness ReadQueue

  function HeadOp(kind: Kind, rd: Reader, head: int): Write {
    TxnWrite(kind, rd.tableKey, [], 0, 0, rd.queueId, rd.consumerId, rd.shardId, rd.appId,
             if kind.ReadQueue? then head else -1, if kind.ReadQueue? then -1 else head, 0)
  }

  predicate IsBy(w: Write, kind: Kind, rd: Reader) {
    && w.queryType == kind && w.tableKey == rd.tableKey && w.queueId == rd.queueId
    && w.consumerId == rd.consumerId && w.shardId == rd.shardId && w.appId == rd.appId
  }

  /** The operation sets a head of the consumer, whatever shard and application it names. */
  predicate Sets(w: Write, kind: Kind, rd: Reader) {
    w.queryType == kind && w.tableKey == rd.tableKey && w.queueId == rd.queueId && w.consumerId == rd.consumerId
  }

  // ---- The head a transaction has read up to ----

  /** The new head of the first read by rd, or -1. */
  function PrevHead(vs: seq<Write>, rd: Reader): int {
    if vs == [] then -1
    else if IsBy(vs[0], ReadQueue, rd) then vs[0].newReadHead
    else PrevHead(vs[1..], rd)
  }

  method LookupPrevHead(vs: seq<Write>, rd: Reader) returns (head: int)
    ensures head == PrevHead(vs, rd)
  {
    head := -1;
    var i := 0;
    while i < |vs|
      invariant 0 <= i <= |vs| && head == -1
      invariant PrevHead(vs, rd) == PrevHead(vs[i..], rd)
    {
      assert vs[i..][1..] == vs[i + 1..];
      if IsBy(vs[i], ReadQueue, rd) {
        head := vs[i].newReadHead;
        break;
      }
      i := i + 1;
    }
  }

  /** The head after some operations, from h: that of the last read by rd. */
  function HeadAfter(ops: seq<Write>, rd: Reader, h: int): int {
    if ops == [] then h
    else
      var w := ops[|ops| - 1];
      if IsBy(w, ReadQueue, rd) then w.newReadHead else HeadAfter(ops[..|ops| - 1], rd, h)
  }

  ghost predicate LastBy(ops: seq<Write>, kind: Kind, rd: Reader, k: nat) {
    k < |ops| && IsBy(ops[k], kind, rd) && forall i :: k < i < |ops| ==> !IsBy(ops[i], kind, rd)
  }

  ghost predicate NoneBy(ops: seq<Write>, kind: Kind, rd: Reader) {
    forall i :: 0 <= i < |ops| ==> !IsBy(ops[i], kind, rd)
  }

  lemma {:induction false} LastOrNone(ops: seq<Write>, kind: Kind, rd: Reader)
    ensures NoneBy(ops, kind, rd) || exists k: nat :: LastBy(ops, kind, rd, k)
  {
    if ops != [] {
      var before := ops[..|ops| - 1];
      if IsBy(ops[|ops| - 1], kind, rd) {
        assert LastBy(ops, kind, rd, |ops| - 1);
      } else {
        LastOrNone(before, kind, rd);
        if k: nat :| LastBy(before, kind, rd, k) {
          assert LastBy(ops, kind, rd, k);
        }
      }
    }
  }

  lemma {:induction false} HeadAfterLast(ops: seq<Write>, rd: Reader, h: int, k: nat)
    requires LastBy(ops, ReadQueue, rd, k)
    ensures HeadAfter(ops, rd, h) == ops[k].newReadHead
  {
    if k < |ops| - 1 {
      HeadAfterLast(ops[..|ops| - 1], rd, h, k);
    }
  }

  lemma {:induction false} HeadAfterNone(ops: seq<Write>, rd: Reader, h: int)
    requires NoneBy(ops, ReadQueue, rd)
    ensures HeadAfter(ops, rd, h) == h
  {
    if ops != [] {
      HeadAfterNone(ops[..|ops| - 1], rd, h);
    }
  }

  lemma {:induction false} PrevHeadAt(vs: seq<Write>, rd: Reader, m: nat)
    requires m < |vs| && IsBy(vs[m], ReadQueue, rd) && forall i :: 0 <= i < m ==> !IsBy(vs[i], ReadQueue, rd)
    ensures PrevHead(vs, rd) == vs[m].newReadHead
  {
    if m > 0 {
      PrevHeadAt(vs[1..], rd, m - 1);
    }
  }

  lemma {:induction false} PrevHeadNone(vs: seq<Write>, rd: Reader)
    requires NoneBy(vs, ReadQueue, rd)
    ensures PrevHead(vs, rd) == -1
  {
    if vs != [] {
      PrevHeadNone(vs[1..], rd);
    }
  }

  /** The reader's operations are in the range where the comparator of write sets is an order. */
  ghost predicate Fits(queueTables: set<int>, lo: int, rd: Reader) {
    Admissible(queueTables, lo, HeadOp(ReadQueue, rd, 0))
  }

  lemma StampedBy(queueTables: set<int>, lo: int, ops: seq<Write>, kind: Kind, rd: Reader, i: nat)
    requires Issuable(queueTables, lo, ops) && i < |ops| && Fits(queueTables, lo, rd)
    ensures WriteCmp(Stamped(ops)[i], HeadOp(kind, rd, 0)) == 0 <==> IsBy(ops[i], kind, rd)
    ensures Stamped(ops)[i].newReadHead == ops[i].newReadHead && Stamped(ops)[i].newConsumeHead == ops[i].newConsumeHead
    ensures IsBy(Stamped(ops)[i], kind, rd) <==> IsBy(ops[i], kind, rd)
  {
    StampedAt(ops, i);
    StampAdmissible(queueTables, lo, ops, i, Stamped(ops)[i].localOrder);
    EqualClasses(queueTables, lo, Stamped(ops)[i], HeadOp(kind, rd, 0));
  }

  lemma EqualBy(a: Write, b: Write, kind: Kind, rd: Reader)
    requires IsBy(a, kind, rd) && IsBy(b, kind, rd)
    ensures WriteCmp(a, b) == 0
  {
  }

  /** The last operation of a kind issued by rd is in the write set, and it is the only one there. */
  lemma LastIsOnlyValue(queueTables: set<int>, lo: int, ops: seq<Write>, kind: Kind, rd: Reader, k: nat)
    returns (m: nat)
    requires Issuable(queueTables, lo, ops) && Fits(queueTables, lo, rd) && LastBy(ops, kind, rd, k)
    ensures m < |WriteSetOf(ops)|
    ensures var vs := Values(WriteSetOf(ops));
            && IsBy(vs[m], kind, rd) && vs[m].newReadHead == ops[k].newReadHead &&
              vs[m].newConsumeHead == ops[k].newConsumeHead
            && forall i :: 0 <= i < |vs| && IsBy(vs[i], kind, rd) ==> i == m
  {
    var st, vs := Stamped(ops), Values(WriteSetOf(ops));
    forall i | 0 <= i < |ops|
      ensures WriteCmp(st[i], HeadOp(kind, rd, 0)) == 0 <==> IsBy(ops[i], kind, rd)
    {
      StampedBy(queueTables, lo, ops, kind, rd, i);
    }
    LastSameAt(st, HeadOp(kind, rd, 0), k);
    m := LastIsValue(queueTables, lo, ops, HeadOp(kind, rd, 0), st[k]);
    StampedBy(queueTables, lo, ops, kind, rd, k);
    forall i | 0 <= i < |vs| && IsBy(vs[i], kind, rd)
      ensures i == m
    {
      EqualBy(vs[i], vs[m], kind, rd);
      EqualBy(vs[m], vs[i], kind, rd);
      if i < m {
        ValuesSorted(queueTables, lo, ops, i, m);
      } else if m < i {
        ValuesSorted(queueTables, lo, ops, m, i);
      }
    }
  }

  lemma NoneIsNoValue(queueTables: set<int>, lo: int, ops: seq<Write>, kind: Kind, rd: Reader)
    requires Issuable(queueTables, lo, ops) && Fits(queueTables, lo, rd) && NoneBy(ops, kind, rd)
    ensures NoneBy(Values(WriteSetOf(ops)), kind, rd)
  {
    var vs := Values(WriteSetOf(ops));
    forall i | 0 <= i < |vs|
      ensures !IsBy(vs[i], kind, rd)
    {
      var k := ValueFromOp(queueTables, lo, ops, i);
      StampedBy(queueTables, lo, ops, kind, rd, k);
    }
  }

  /** Scanning the write set finds the head of the read issued last. */
  lemma PrevHeadIsLastRead(queueTables: set<int>, lo: int, ops: seq<Write>, rd: Reader)
    requires Issuable(queueTables, lo, ops) && Fits(queueTables, lo, rd)
    ensures PrevHead(Values(WriteSetOf(ops)), rd) == HeadAfter(ops, rd, -1)
  {
    LastOrNone(ops, ReadQueue, rd);
    if k: nat :| LastBy(ops, ReadQueue, rd, k) {
      var m := LastIsOnlyValue(queueTables, lo, ops, ReadQueue, rd, k);
      PrevHeadAt(Values(WriteSetOf(ops)), rd, m);
      HeadAfterLast(ops, rd, -1, k);
    } else {
      NoneIsNoValue(queueTables, lo, ops, ReadQueue, rd);
      PrevHeadNone(Values(WriteSetOf(ops)), rd);
      HeadAfterNone(ops, rd, -1);
    }
  }

  // ---- One read ----

  /** The queue a read refers to exists and the reader is subscribed. */
  predicate Readable(db: Db, rd: Reader) {
    HasQueue(db, rd.tableKey, rd.queueId) && rd.consumerId in db[rd.tableKey].queues[rd.queueId].consumers
  }

  /** A read in a transaction with write set ws: a peek from the transaction's previous head. */
  function PeekInTxn(q: Queue, ws: WriteSet, rd: Reader, max: int): ReadResult {
    PeekAt(q, rd.consumerId, max, PrevHead(Values(ws), rd))
  }

  /** What read_queue_in_txn returns. */
  function InTxnRead(db: Db, ws: WriteSet, rd: Reader, max: int): ReadResult {
    if rd.tableKey !in db then ReadResult(NO_TABLE, -1, [])
    else if rd.queueId !in db[rd.tableKey].queues then ReadResult(NO_QUEUE, -1, [])
    else PeekInTxn(db[rd.tableKey].queues[rd.queueId], ws, rd, max)
  }

  /** Where the next read of a transaction with write set ws starts. */
  function StartOf(db: Db, ws: WriteSet, rd: Reader): int
    requires Readable(db, rd)
  {
    PeekStart(db[rd.tableKey].queues[rd.queueId], rd.consumerId, PrevHead(Values(ws), rd))
  }

  /** The log is that of the queue, and the read asks for something if there is something. */
  ghost predicate MayRead(db: Db, ws: WriteSet, rd: Reader, max: int, log: seq<Item>) {
    Readable(db, rd) ==>
      var from := StartOf(db, ws, rd);
      && Logs(db[rd.tableKey].queues[rd.queueId], log) && -1 <= from < |log| && (from < |log| - 1 ==> max >= 1)
  }

  /** The entries after the start up to the new head, with a status that says whether there is more, or
      what is missing. */
  ghost predicate Answers(r: ReadResult, db: Db, ws: WriteSet, rd: Reader, log: seq<Item>) {
    if Readable(db, rd) then
      var from := StartOf(db, ws, rd);
      -1 <= from <= r.newHead < |log| && r.batch == log[from + 1..r.newHead + 1] && QueueRows.Told(r, log)
    else
      && r.newHead == -1 && r.batch == []
      && r.status == if rd.tableKey !in db then NO_TABLE
                     else if rd.queueId !in db[rd.tableKey].queues then NO_QUEUE else NO_CONSUMER
  }

  method PeekFromTxn(db: Db, ws: WriteSet, rd: Reader, max: int, ghost log: seq<Item>) returns (r: ReadResult)
    requires MayRead(db, ws, rd, max, log)
    ensures r == InTxnRead(db, ws, rd, max) && Answers(r, db, ws, rd, log)
  {
    var prevReadHead := LookupPrevHead(Values(ws), rd);
    if rd.tableKey !in db {
      return ReadResult(NO_TABLE, -1, []);
    }
    if rd.queueId !in db[rd.tableKey].queues {
      return ReadResult(NO_QUEUE, -1, []);
    }
    var q := db[rd.tableKey].queues[rd.queueId];
    if rd.consumerId !in q.consumers {
      return ReadResult(NO_CONSUMER, -1, []);
    }
    r := QueueRows.FetchAny(q, PeekStart(q, rd.consumerId, prevReadHead), max, log);
  }

  /** Records the new head also when the read failed. */
  method ReadQueueInTxn(server: Server, t: int, rd: Reader, max: int, ghost log: seq<Item>) returns (r: ReadResult)
    requires t in server.txns ==> MayRead(server.db, server.txns[t].writes, rd, max, log)
    modifies server`txns
    ensures t !in old(server.txns) ==> r.status == NO_SUCH_TXN && server.txns == old(server.txns)
    ensures t in old(server.txns) ==>
              && r == InTxnRead(server.db, old(server.txns)[t].writes, rd, max)
              && Answers(r, server.db, old(server.txns)[t].writes, rd, log)
              && server.txns == AfterOp(old(server.txns), t, HeadOp(ReadQueue, rd, r.newHead))
  {
    if t !in server.txns {
      return ReadResult(NO_SUCH_TXN, -1, []);
    }
    r := PeekFromTxn(server.db, server.txns[t].writes, rd, max, log);
    var status := server.AddToTxn(t, HeadOp(ReadQueue, rd, r.newHead));
  }

  // ---- A whole transaction beside direct reads ----

  datatype Step =
    | Reads(max: int)
    | Issues(op: Write)
    | Meanwhile(e: QueueRuns.Event)

  /** Reads ask for something, the transaction's other operations neither read as the same consumer
      nor drop the queue, and other clients neither commit for the consumer nor read as it nor
      unsubscribe it, nor stop the server. */
  predicate Proper(q: Queue, rd: Reader, step: Step) {
    match step
    case Reads(max) => max >= 1
    case Issues(op) => !Sets(op, ReadQueue, rd) && !DropsQueue(op, rd.tableKey, rd.queueId)
    case Meanwhile(e) =>
      && QueueRuns.Checks(q, e) && !QueueRuns.MovesHeadOf(e, rd.consumerId)
      && !(e.ConsumeCommitted? && e.c == rd.consumerId) && e != QueueRuns.Unsubscribed(rd.consumerId)
  }

  datatype Session = Session(q: Queue, ops: seq<Write>, got: seq<ReadResult>)

  /** The queue, the transaction's operations and its read results after some steps. */
  function InTxn(q: Queue, rd: Reader, steps: seq<Step>): Session {
    if steps == [] then Session(q, [], [])
    else
      var s := InTxn(q, rd, steps[..|steps| - 1]);
      match steps[|steps| - 1]
      case Reads(max) =>
        var r := PeekInTxn(s.q, WriteSetOf(s.ops), rd, max);
        s.(ops := s.ops + [HeadOp(ReadQueue, rd, r.newHead)], got := s.got + [r])
      case Issues(op) => s.(ops := s.ops + [op])
      case Meanwhile(e) => s.(q := QueueRuns.Step(s.q, e))
  }

  /** The same steps with every read done outside the transaction. */
  function Direct(q: Queue, rd: Reader, steps: seq<Step>): Session {
    if steps == [] then Session(q, [], [])
    else
      var s := Direct(q, rd, steps[..|steps| - 1]);
      match steps[|steps| - 1]
      case Reads(max) =>
        Session(AfterRead(s.q, rd.consumerId, max), s.ops, s.got + [DirectRead(s.q, rd.consumerId, max)])
      case Issues(op) => s.(ops := s.ops + [op])
      case Meanwhile(e) => s.(q := QueueRuns.Step(s.q, e))
  }

  ghost predicate AllProper(q: Queue, rd: Reader, steps: seq<Step>) {
    forall i :: 0 <= i < |steps| ==> Proper(InTxn(q, rd, steps[..i]).q, rd, steps[i])
  }

  /** Whatever a transaction does to the read head of rd's consumer it does as rd, and it does not
      drop the queue. */
  ghost predicate ReadsAs(ops: seq<Write>, rd: Reader) {
    forall i :: 0 <= i < |ops| ==>
      !DropsQueue(ops[i], rd.tableKey, rd.queueId) && (Sets(ops[i], ReadQueue, rd) ==> IsBy(ops[i], ReadQueue, rd))
  }

  /** The queues differ in the record of consumer c only. */
  ghost predicate Alike(p: Queue, q: Queue, c: int) {
    && p.noEntries == q.noEntries && p.cells == q.cells
    && forall d :: d != c ==>
         (d in p.consumers <==> d in q.consumers) && (d in p.consumers ==> p.consumers[d] == q.consumers[d])
  }

  /** How the transaction's view relates to the direct one. */
  ghost predicate Matches(a: Session, b: Session, rd: Reader, h: int, log: seq<Item>) {
    var c := rd.consumerId;
    && Logs(a.q, log) && HeadsOk(a.q) && HeadsOk(b.q) && Alike(a.q, b.q, c)
    && c in a.q.consumers && c in b.q.consumers && a.got == b.got && ReadsAs(a.ops, rd)
    && a.q.consumers[c].readHead == h <= b.q.consumers[c].readHead == HeadAfter(a.ops, rd, h)
  }

  lemma PeekStartIsDirectHead(queueTables: set<int>, lo: int, a: Session, b: Session, rd: Reader, h: int,
                              log: seq<Item>)
    requires Issuable(queueTables, lo, a.ops) && Fits(queueTables, lo, rd) && Matches(a, b, rd, h, log)
    ensures PeekStart(a.q, rd.consumerId, PrevHead(Values(WriteSetOf(a.ops)), rd)) ==
            b.q.consumers[rd.consumerId].readHead
  {
    PrevHeadIsLastRead(queueTables, lo, a.ops, rd);
    LastOrNone(a.ops, ReadQueue, rd);
    if k: nat :| LastBy(a.ops, ReadQueue, rd, k) {
      HeadAfterLast(a.ops, rd, h, k);
      HeadAfterLast(a.ops, rd, -1, k);
    } else {
      HeadAfterNone(a.ops, rd, h);
      HeadAfterNone(a.ops, rd, -1);
    }
  }

  lemma ReadKeepsMatch(queueTables: set<int>, lo: int, a: Session, b: Session, rd: Reader, h: int, log: seq<Item>,
                       max: int)
    requires Issuable(queueTables, lo, a.ops) && Fits(queueTables, lo, rd) && Matches(a, b, rd, h, log) && max >= 1
    ensures var r := PeekInTxn(a.q, WriteSetOf(a.ops), rd, max);
            Matches(a.(ops := a.ops + [HeadOp(ReadQueue, rd, r.newHead)], got := a.got + [r]),
                    Session(AfterRead(b.q, rd.consumerId, max), b.ops, b.got + [DirectRead(b.q, rd.consumerId, max)]),
                      rd, h, log)
  {
    PeekStartIsDirectHead(queueTables, lo, a, b, rd, h, log);
    AlikeRead(a.q, b.q, log, rd.consumerId, max);
    ReadsAsAfterRead(a.ops, rd, h, DirectRead(b.q, rd.consumerId, max).newHead);
  }

  lemma AlikeRead(p: Queue, q: Queue, log: seq<Item>, c: int, max: int)
    requires Logs(p, log) && HeadsOk(q) && Alike(p, q, c) && c in q.consumers && max >= 1
    ensures var r, q' := DirectRead(q, c, max), AfterRead(q, c, max);
            && r == ReadAfter(p, q.consumers[c].readHead, max) && HeadsOk(q') && Alike(p, q', c) && c in q'.consumers
            && q.consumers[c].readHead <= q'.consumers[c].readHead == r.newHead
  {
    BatchIsLogSlice(p, log, q.consumers[c].readHead, max);
  }

  lemma ReadsAsAfterRead(ops: seq<Write>, rd: Reader, h: int, head: int)
    requires ReadsAs(ops, rd)
    ensures var ops' := ops + [HeadOp(ReadQueue, rd, head)]; ReadsAs(ops', rd) && HeadAfter(ops', rd, h) == head
  {
  }

  lemma MeanwhileKeepsMatch(a: Session, b: Session, rd: Reader, h: int, log: seq<Item>, e: QueueRuns.Event)
    requires Matches(a, b, rd, h, log) && Proper(a.q, rd, Meanwhile(e))
    ensures Matches(a.(q := QueueRuns.Step(a.q, e)), b.(q := QueueRuns.Step(b.q, e)), rd, h,
            log + QueueRuns.Produced(e))
  {
    AlikeChecks(a.q, b.q, rd.consumerId, e);
    QueueRuns.StepKeeps(a.q, log, e);
    QueueRuns.StepKeeps(b.q, log, e);
    QueueRuns.OthersKeepHead(a.q, e, rd.consumerId);
    QueueRuns.OthersKeepHead(b.q, e, rd.consumerId);
    AlikeStep(a.q, b.q, rd.consumerId, e);
  }

  /** An event that does not concern consumer c finds the same in both queues. */
  lemma AlikeChecks(p: Queue, q: Queue, c: int, e: QueueRuns.Event)
    requires Alike(p, q, c) && c in p.consumers && c in q.consumers && HeadsOk(q) && QueueRuns.Checks(p, e)
    requires !QueueRuns.MovesHeadOf(e, c) && !(e.ConsumeCommitted? && e.c == c)
    ensures QueueRuns.Checks(q, e)
  {
  }

  lemma AlikeStep(p: Queue, q: Queue, c: int, e: QueueRuns.Event)
    requires Alike(p, q, c) && !QueueRuns.MovesHeadOf(e, c)
    ensures Alike(QueueRuns.Step(p, e), QueueRuns.Step(q, e), c)
  {
  }

  /** Reading in a transaction returns what direct reads would return, whatever happens meanwhile. */
  lemma {:induction false} SameReads(queueTables: set<int>, lo: int, q: Queue, log: seq<Item>, rd: Reader,
                                     steps: seq<Step>)
    returns (log': seq<Item>)
    requires Logs(q, log) && HeadsOk(q) && rd.consumerId in q.consumers && AllProper(q, rd, steps)
    requires Issuable(queueTables, lo, InTxn(q, rd, steps).ops) && Fits(queueTables, lo, rd)
    ensures Matches(InTxn(q, rd, steps), Direct(q, rd, steps), rd, q.consumers[rd.consumerId].readHead, log')
  {
    if steps == [] {
      log' := log;
    } else {
      var before, step := steps[..|steps| - 1], steps[|steps| - 1];
      var a, b, h := InTxn(q, rd, before), Direct(q, rd, before), q.consumers[rd.consumerId].readHead;
      assert Proper(a.q, rd, step);
      FewerSteps(queueTables, lo, q, rd, steps);
      log' := SameReads(queueTables, lo, q, log, rd, before);
      match step
      case Reads(max) => ReadKeepsMatch(queueTables, lo, a, b, rd, h, log', max);
      case Issues(op) =>
      case Meanwhile(e) =>
        MeanwhileKeepsMatch(a, b, rd, h, log', e);
        log' := log' + QueueRuns.Produced(e);
    }
  }

  lemma FewerOps(queueTables: set<int>, lo: int, q: Queue, rd: Reader, steps: seq<Step>)
    requires steps != [] && Issuable(queueTables, lo, InTxn(q, rd, steps).ops)
    ensures Issuable(queueTables, lo, InTxn(q, rd, steps[..|steps| - 1]).ops)
  {
    var a, a' := InTxn(q, rd, steps[..|steps| - 1]).ops, InTxn(q, rd, steps).ops;
    assert a' == a || (a' != [] && a'[..|a'| - 1] == a);
    if a' != a {
      IssuablePrefix(queueTables, lo, a');
    }
  }

  lemma FewerSteps(queueTables: set<int>, lo: int, q: Queue, rd: Reader, steps: seq<Step>)
    requires steps != [] && AllProper(q, rd, steps) && Issuable(queueTables, lo, InTxn(q, rd, steps).ops)
    ensures var before := steps[..|steps| - 1];
            AllProper(q, rd, before) && Issuable(queueTables, lo, InTxn(q, rd, before).ops)
  {
    var before := steps[..|steps| - 1];
    forall i | 0 <= i < |before|
      ensures Proper(InTxn(q, rd, before[..i]).q, rd, before[i])
    {
      assert before[..i] == steps[..i];
    }
    FewerOps(queueTables, lo, q, rd, steps);
  }

  // ---- Reads whatever the others do ----

  /** The transaction's reads as module Deliveries keeps them. */
  function SessionAfter(q: Queue, rd: Reader, steps: seq<Step>): Deliveries.Session {
    if steps == [] then Deliveries.NEW_SESSION
    else
      var before := steps[..|steps| - 1];
      var o := SessionAfter(q, rd, before);
      match steps[|steps| - 1]
      case Reads(max) => Deliveries.AfterPeek(InTxn(q, rd, before).q, rd.consumerId, max, o)
      case _ => o
  }

  function Batches(got: seq<ReadResult>): seq<Item> {
    if got == [] then [] else Batches(got[..|got| - 1]) + got[|got| - 1].batch
  }

  lemma PeekIsRead(q: Queue, rd: Reader, max: int, ops: seq<Write>, got: seq<ReadResult>, o: Deliveries.Session)
    requires PrevHead(Values(WriteSetOf(ops)), rd) == o.head && Batches(got) == o.batch
    ensures var r := PeekInTxn(q, WriteSetOf(ops), rd, max);
            var o' := Deliveries.AfterPeek(q, rd.consumerId, max, o);
            && HeadAfter(ops + [HeadOp(ReadQueue, rd, r.newHead)], rd, -1) == o'.head
            && Batches(got + [r]) == o'.batch
  {
    var r := PeekAt(q, rd.consumerId, max, o.head);
    assert (got + [r])[..|got|] == got;
    assert o.batch + [] == o.batch;
  }

  /** Whatever other clients do, the head a transaction's write set holds for a reader and the entries
      its reads returned are those of a session of module Deliveries. */
  lemma {:induction false} ReadsAreSession(queueTables: set<int>, lo: int, q: Queue, rd: Reader, steps: seq<Step>)
    requires Issuable(queueTables, lo, InTxn(q, rd, steps).ops) && Fits(queueTables, lo, rd)
    requires forall i :: 0 <= i < |steps| && steps[i].Issues? ==> !IsBy(steps[i].op, ReadQueue, rd)
    ensures var s, o := InTxn(q, rd, steps), SessionAfter(q, rd, steps);
            PrevHead(Values(WriteSetOf(s.ops)), rd) == o.head && Batches(s.got) == o.batch
  {
    var s := InTxn(q, rd, steps);
    if steps != [] {
      var before := steps[..|steps| - 1];
      var a := InTxn(q, rd, before);
      FewerOps(queueTables, lo, q, rd, steps);
      ReadsAreSession(queueTables, lo, q, rd, before);
      PrevHeadIsLastRead(queueTables, lo, a.ops, rd);
      if steps[|steps| - 1].Reads? {
        PeekIsRead(a.q, rd, steps[|steps| - 1].max, a.ops, a.got, SessionAfter(q, rd, before));
      }
    }
    PrevHeadIsLastRead(queueTables, lo, s.ops, rd);
  }
}
