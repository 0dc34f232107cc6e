/** What a commit does to a consumer's heads, and when the assertions on the way hold. */
module HeadCommits {
  import opened SortedSeq
  import opened TxnWrites
  import opened WriteSets
  import opened Queues
  import opened Database
  import opened EnqueueOrder
  import opened Transactions
  import opened TxnReads

  function ConsumerOf(db: Db, rd: Reader): Consumer
    requires Readable(db, rd)
  {
    db[rd.tableKey].queues[rd.queueId].consumers[rd.consumerId]
  }

  /** Likewise for consumes: those of rd's consumer are rd's. */
  ghost predicate ConsumesAs(ops: seq<Write>, rd: Reader) {
    forall i :: 0 <= i < |ops| && Sets(ops[i], ConsumeQueue, rd) ==> IsBy(ops[i], ConsumeQueue, rd)
  }

  ghost predicate NoConsumes(vs: seq<Write>, rd: Reader) {
    forall i :: 0 <= i < |vs| ==> !Sets(vs[i], ConsumeQueue, rd)
  }

  // ---- One write ----

  lemma WriteMovesHead(db: Db, w: Write, rd: Reader)
    requires Readable(db, rd) && Safe(db, w) && !DropsQueue(w, rd.tableKey, rd.queueId)
    requires Sets(w, ReadQueue, rd) ==> IsBy(w, ReadQueue, rd)
    ensures var db' := PersistWrite(db, w).db;
            && Readable(db', rd) && ConsumerOf(db', rd).readHead == HeadAfter([w], rd, ConsumerOf(db, rd).readHead)
            && (!Sets(w, ConsumeQueue, rd) ==> ConsumerOf(db', rd).consumeHead == ConsumerOf(db, rd).consumeHead)
  {
  }

  lemma HeadAfterOne(vs: seq<Write>, rd: Reader, h: int)
    requires vs != []
    ensures HeadAfter(vs, rd, h) == HeadAfter([vs[|vs| - 1]], rd, HeadAfter(vs[..|vs| - 1], rd, h))
  {
  }

  // ---- A whole commit ----

  /** Persisting a sequence of writes leaves the head of the last read in it, and the consume head
      alone if nothing in it consumes. */
  lemma {:induction false} WritesMoveHead(db: Db, vs: seq<Write>, rd: Reader)
    requires Readable(db, rd) && Survives(db, vs) && ReadsAs(vs, rd)
    ensures var db' := PersistAll(db, vs).db;
            && Readable(db', rd) && ConsumerOf(db', rd).readHead == HeadAfter(vs, rd, ConsumerOf(db, rd).readHead)
            && (NoConsumes(vs, rd) ==> ConsumerOf(db', rd).consumeHead == ConsumerOf(db, rd).consumeHead)
  {
    if vs != [] {
      var before, w := vs[..|vs| - 1], vs[|vs| - 1];
      WritesMoveHead(db, before, rd);
      WriteMovesHead(PersistAll(db, before).db, w, rd);
      HeadAfterOne(vs, rd, ConsumerOf(db, rd).readHead);
      if NoConsumes(vs, rd) {
        assert NoConsumes(before, rd);
      }
    }
  }

  /** What holds of all operations of a transaction holds of the values in its write set. */
  lemma ValuesDoAs(queueTables: set<int>, lo: int, ops: seq<Write>, rd: Reader)
    requires Issuable(queueTables, lo, ops) && ReadsAs(ops, rd)
    ensures ReadsAs(Values(WriteSetOf(ops)), rd)
    ensures ConsumesAs(ops, rd) ==> ConsumesAs(Values(WriteSetOf(ops)), rd)
  {
    var vs := Values(WriteSetOf(ops));
    forall i | 0 <= i < |vs|
      ensures !DropsQueue(vs[i], rd.tableKey, rd.queueId) && (Sets(vs[i], ReadQueue, rd) ==> IsBy(vs[i], ReadQueue, rd))
      ensures ConsumesAs(ops, rd) && Sets(vs[i], ConsumeQueue, rd) ==> IsBy(vs[i], ConsumeQueue, rd)
    {
      var k := ValueFromOp(queueTables, lo, ops, i);
      StampedAt(ops, k);
      assert Sets(ops[k], ConsumeQueue, rd) <==> Sets(vs[i], ConsumeQueue, rd);
    }
  }

  lemma PrefixReadsAs(vs: seq<Write>, rd: Reader, n: nat)
    requires ReadsAs(vs, rd) && n <= |vs|
    ensures ReadsAs(vs[..n], rd)
  {
    assert forall i :: 0 <= i < n ==> vs[..n][i] == vs[i];
  }

  /** The first n values account for the read head, if all reads by rd are among them. */
  lemma ValuesHeadAfter(queueTables: set<int>, lo: int, ops: seq<Write>, rd: Reader, h: int, n: nat)
    requires Issuable(queueTables, lo, ops) && Fits(queueTables, lo, rd) && n <= |WriteSetOf(ops)|
    requires forall i :: n <= i < |WriteSetOf(ops)| ==> !IsBy(Values(WriteSetOf(ops))[i], ReadQueue, rd)
    ensures HeadAfter(Values(WriteSetOf(ops))[..n], rd, h) == HeadAfter(ops, rd, h)
  {
    var vs := Values(WriteSetOf(ops));
    LastOrNone(ops, ReadQueue, rd);
    if k: nat :| LastBy(ops, ReadQueue, rd, k) {
      var m := LastIsOnlyValue(queueTables, lo, ops, ReadQueue, rd, k);
      assert LastBy(vs[..n], ReadQueue, rd, m);
      HeadAfterLast(vs[..n], rd, h, m);
      HeadAfterLast(ops, rd, h, k);
    } else {
      NoneIsNoValue(queueTables, lo, ops, ReadQueue, rd);
      HeadAfterNone(vs[..n], rd, h);
      HeadAfterNone(ops, rd, h);
    }
  }

  /** A commit the server survives leaves the head of the transaction's last read. */
  lemma CommitSetsHead(queueTables: set<int>, lo: int, db: Db, ops: seq<Write>, rd: Reader)
    requires Issuable(queueTables, lo, ops) && Fits(queueTables, lo, rd) && ReadsAs(ops, rd) && Readable(db, rd)
    requires Survives(db, Values(WriteSetOf(ops)))
    ensures var db' := PersistAll(db, Values(WriteSetOf(ops))).db;
            Readable(db', rd) && ConsumerOf(db', rd).readHead == HeadAfter(ops, rd, ConsumerOf(db, rd).readHead)
  {
    var vs := Values(WriteSetOf(ops));
    ValuesDoAs(queueTables, lo, ops, rd);
    WritesMoveHead(db, vs, rd);
    ValuesHeadAfter(queueTables, lo, ops, rd, ConsumerOf(db, rd).readHead, |vs|);
    assert vs[..|vs|] == vs;
  }

  lemma WriteSetsConsumeHead(db: Db, w: Write, rd: Reader)
    requires Readable(db, rd) && Safe(db, w) && Sets(w, ConsumeQueue, rd)
    ensures var db' := PersistWrite(db, w).db; Readable(db', rd) && ConsumerOf(db', rd).consumeHead == w.newConsumeHead
  {
  }

  lemma {:induction false} LastConsumeStands(db: Db, vs: seq<Write>, rd: Reader, m: nat)
    requires Readable(db, rd) && Survives(db, vs) && ReadsAs(vs, rd) && m < |vs| && Sets(vs[m], ConsumeQueue, rd)
    requires forall i :: m < i < |vs| ==> !Sets(vs[i], ConsumeQueue, rd)
    ensures var db' := PersistAll(db, vs).db;
            Readable(db', rd) && ConsumerOf(db', rd).consumeHead == vs[m].newConsumeHead
  {
    var before, w := vs[..|vs| - 1], vs[|vs| - 1];
    PrefixReadsAs(vs, rd, |vs| - 1);
    WritesMoveHead(db, before, rd);
    if m == |vs| - 1 {
      WriteSetsConsumeHead(PersistAll(db, before).db, w, rd);
    } else {
      LastConsumeStands(db, before, rd, m);
      WriteMovesHead(PersistAll(db, before).db, w, rd);
    }
  }

  /** It leaves the consume head of the transaction's last consume, and the old one if there is none. */
  lemma CommitSetsConsumeHead(queueTables: set<int>, lo: int, db: Db, ops: seq<Write>, rd: Reader)
    requires Issuable(queueTables, lo, ops) && Fits(queueTables, lo, rd) && ReadsAs(ops, rd) && ConsumesAs(ops, rd)
    requires Readable(db, rd) && Survives(db, Values(WriteSetOf(ops)))
    ensures var db' := PersistAll(db, Values(WriteSetOf(ops))).db;
            && Readable(db', rd)
            && (forall k: nat :: LastBy(ops, ConsumeQueue, rd, k) ==>
                  ConsumerOf(db', rd).consumeHead == ops[k].newConsumeHead)
            && (NoneBy(ops, ConsumeQueue, rd) ==> ConsumerOf(db', rd).consumeHead == ConsumerOf(db, rd).consumeHead)
  {
    var vs := Values(WriteSetOf(ops));
    ValuesDoAs(queueTables, lo, ops, rd);
    WritesMoveHead(db, vs, rd);
    forall k: nat | LastBy(ops, ConsumeQueue, rd, k)
      ensures ConsumerOf(PersistAll(db, vs).db, rd).consumeHead == ops[k].newConsumeHead
    {
      var m := LastIsOnlyValue(queueTables, lo, ops, ConsumeQueue, rd, k);
      LastConsumeStands(db, vs, rd, m);
    }
    if NoneBy(ops, ConsumeQueue, rd) {
      NoneIsNoValue(queueTables, lo, ops, ConsumeQueue, rd);
      assert NoConsumes(vs, rd);
    }
  }

  /** A transaction's queue reads followed by its commit return the same entries and leave the same
      read head as the same reads done directly, whatever other clients do meanwhile. */
  lemma TransactionalReadsMatchDirect(queueTables: set<int>, lo: int, db: Db, q: Queue, log: seq<Item>, rd: Reader,
                                      steps: seq<Step>)
    requires Logs(q, log) && HeadsOk(q) && rd.consumerId in q.consumers && AllProper(q, rd, steps)
    requires Issuable(queueTables, lo, InTxn(q, rd, steps).ops) && Fits(queueTables, lo, rd)
    requires HasQueue(db, rd.tableKey, rd.queueId) && db[rd.tableKey].queues[rd.queueId] == InTxn(q, rd, steps).q
    ensures InTxn(q, rd, steps).got == Direct(q, rd, steps).got
    ensures var vs := Values(WriteSetOf(InTxn(q, rd, steps).ops));
            Survives(db, vs) ==>
              && Readable(PersistAll(db, vs).db, rd) && rd.consumerId in Direct(q, rd, steps).q.consumers
              && ConsumerOf(PersistAll(db, vs).db, rd).readHead ==
                Direct(q, rd, steps).q.consumers[rd.consumerId].readHead
  {
    var a := InTxn(q, rd, steps);
    var log' := SameReads(queueTables, lo, q, log, rd, steps);
    if Survives(db, Values(WriteSetOf(a.ops))) {
      CommitSetsHead(queueTables, lo, db, a.ops, rd);
    }
  }

  // ---- The assertions on the way ----

  /** Writes sorted before an operation of rd are not of a later kind on its table. */
  lemma KindsInOrder(queueTables: set<int>, lo: int, ops: seq<Write>, rd: Reader, i: nat, j: nat)
    requires Issuable(queueTables, lo, ops) && i < j < |WriteSetOf(ops)|
    ensures var vs := Values(WriteSetOf(ops));
            !(Sets(vs[i], ConsumeQueue, rd) && Sets(vs[j], ReadQueue, rd))
  {
    ValuesSorted(queueTables, lo, ops, i, j);
  }

  /** When a commit gets to the transaction's read, the consumer is as it was before the commit. */
  lemma BeforeTheRead(queueTables: set<int>, lo: int, db: Db, ops: seq<Write>, rd: Reader, k: nat) returns (m: nat)
    requires Issuable(queueTables, lo, ops) && Fits(queueTables, lo, rd) && ReadsAs(ops, rd) && Readable(db, rd)
    requires LastBy(ops, ReadQueue, rd, k)
    ensures m < |WriteSetOf(ops)|
    ensures var vs := Values(WriteSetOf(ops));
            && IsBy(vs[m], ReadQueue, rd) && vs[m].newReadHead == ops[k].newReadHead && ReadsAs(vs[..m], rd)
            && (Survives(db, vs[..m]) ==>
                  Readable(PersistAll(db, vs[..m]).db, rd) &&
                    ConsumerOf(PersistAll(db, vs[..m]).db, rd) == ConsumerOf(db, rd))
  {
    var vs := Values(WriteSetOf(ops));
    m := LastIsOnlyValue(queueTables, lo, ops, ReadQueue, rd, k);
    ValuesDoAs(queueTables, lo, ops, rd);
    PrefixReadsAs(vs, rd, m);
    forall i | 0 <= i < m
      ensures !Sets(vs[..m][i], ConsumeQueue, rd)
    {
      KindsInOrder(queueTables, lo, ops, rd, i, m);
    }
    if Survives(db, vs[..m]) {
      WritesMoveHead(db, vs[..m], rd);
      HeadAfterNone(vs[..m], rd, ConsumerOf(db, rd).readHead);
    }
  }

  /** A read stops the server unless its head is that of an entry at or after the consumer's read head
      before the commit. */
  lemma ReadChecksIff(queueTables: set<int>, lo: int, db: Db, ops: seq<Write>, rd: Reader, k: nat) returns (m: nat)
    requires Issuable(queueTables, lo, ops) && Fits(queueTables, lo, rd) && ReadsAs(ops, rd)
    requires QueuesOk(db) && Readable(db, rd) && LastBy(ops, ReadQueue, rd, k)
    ensures m < |WriteSetOf(ops)| && IsBy(Values(WriteSetOf(ops))[m], ReadQueue, rd)
    ensures var vs := Values(WriteSetOf(ops));
            Survives(db, vs[..m]) ==>
              var now := PersistAll(db, vs[..m]).db;
              && HasQueue(now, rd.tableKey, rd.queueId)
              && (Safe(now, vs[m]) <==>
                    ConsumerOf(db, rd).readHead <= ops[k].newReadHead < now[rd.tableKey].queues[rd.queueId].noEntries)
  {
    m := BeforeTheRead(queueTables, lo, db, ops, rd, k);
    PersistKeepsQueues(db, Values(WriteSetOf(ops))[..m]);
  }

  /** As long as nobody else moves the head of the transaction's consumer, its read does not stop the
      server: when the commit gets to it, the head does not move back, does not fall behind the consume
      head, and is that of an existing entry. */
  lemma HeadChecksPass(queueTables: set<int>, lo: int, db: Db, q: Queue, log: seq<Item>, rd: Reader, steps: seq<Step>,
                       k: nat)
    returns (m: nat)
    requires Logs(q, log) && HeadsOk(q) && rd.consumerId in q.consumers && AllProper(q, rd, steps)
    requires Issuable(queueTables, lo, InTxn(q, rd, steps).ops) && Fits(queueTables, lo, rd)
    requires HasQueue(db, rd.tableKey, rd.queueId) && db[rd.tableKey].queues[rd.queueId] == InTxn(q, rd, steps).q
    requires LastBy(InTxn(q, rd, steps).ops, ReadQueue, rd, k)
    ensures m < |WriteSetOf(InTxn(q, rd, steps).ops)| &&
            IsBy(Values(WriteSetOf(InTxn(q, rd, steps).ops))[m], ReadQueue, rd)
    ensures var vs := Values(WriteSetOf(InTxn(q, rd, steps).ops));
            Survives(db, vs[..m]) ==> Safe(PersistAll(db, vs[..m]).db, vs[m])
  {
    var a := InTxn(q, rd, steps);
    var vs := Values(WriteSetOf(a.ops));
    var log' := SameReads(queueTables, lo, q, log, rd, steps);
    m := BeforeTheRead(queueTables, lo, db, a.ops, rd, k);
    HeadAfterLast(a.ops, rd, q.consumers[rd.consumerId].readHead, k);
    LogAfter(db, vs[..m], rd.tableKey, rd.queueId, log');
  }

  /** When a commit gets to the transaction's consume, its read has been persisted. */
  lemma BeforeTheConsume(queueTables: set<int>, lo: int, db: Db, ops: seq<Write>, rd: Reader, k: nat) returns (m: nat)
    requires Issuable(queueTables, lo, ops) && Fits(queueTables, lo, rd) && ReadsAs(ops, rd) && ConsumesAs(ops, rd)
    requires Readable(db, rd) && LastBy(ops, ConsumeQueue, rd, k)
    ensures m < |WriteSetOf(ops)|
    ensures var vs := Values(WriteSetOf(ops));
            && IsBy(vs[m], ConsumeQueue, rd) && vs[m].newConsumeHead == ops[k].newConsumeHead
            && (Survives(db, vs[..m]) ==>
                  && Readable(PersistAll(db, vs[..m]).db, rd)
                  && ConsumerOf(PersistAll(db, vs[..m]).db, rd) ==
                     ConsumerOf(db, rd).(readHead := HeadAfter(ops, rd, ConsumerOf(db, rd).readHead)))
  {
    var vs := Values(WriteSetOf(ops));
    m := LastIsOnlyValue(queueTables, lo, ops, ConsumeQueue, rd, k);
    ValuesDoAs(queueTables, lo, ops, rd);
    PrefixReadsAs(vs, rd, m);
    forall i | m <= i < |vs|
      ensures !IsBy(vs[i], ReadQueue, rd)
    {
      if m < i {
        KindsInOrder(queueTables, lo, ops, rd, m, i);
      }
    }
    assert NoConsumes(vs[..m], rd) by {
      assert forall i :: 0 <= i < m ==> vs[..m][i] == vs[i];
    }
    if Survives(db, vs[..m]) {
      WritesMoveHead(db, vs[..m], rd);
      ValuesHeadAfter(queueTables, lo, ops, rd, ConsumerOf(db, rd).readHead, m);
    }
  }

  /** A consume stops the server unless its head is between the consumer's consume head before the
      commit and the read head the transaction's own reads leave. */
  lemma ConsumeChecksIff(queueTables: set<int>, lo: int, db: Db, ops: seq<Write>, rd: Reader, k: nat) returns (m: nat)
    requires Issuable(queueTables, lo, ops) && Fits(queueTables, lo, rd) && ReadsAs(ops, rd) && ConsumesAs(ops, rd)
    requires QueuesOk(db) && Readable(db, rd) && LastBy(ops, ConsumeQueue, rd, k)
    ensures m < |WriteSetOf(ops)| && IsBy(Values(WriteSetOf(ops))[m], ConsumeQueue, rd)
    ensures var vs, c := Values(WriteSetOf(ops)), ConsumerOf(db, rd);
            Survives(db, vs[..m]) ==>
              (Safe(PersistAll(db, vs[..m]).db, vs[m])
               <==> c.consumeHead <= ops[k].newConsumeHead <= HeadAfter(ops, rd, c.readHead))
  {
    m := BeforeTheConsume(queueTables, lo, db, ops, rd, k);
    var vs := Values(WriteSetOf(ops));
    PersistKeepsQueues(db, vs[..m]);
  }

  /** Validation checks the version of the queue and not that of the head: a transaction of consumer 9
      has read the first of two entries, the consumer has read both meanwhile, the transaction is
      validated, and its commit stops the server. */
  lemma OvertakenCommitStops(x: Item, y: Item, q: Queue)
    requires Logs(q, [x, y]) && q.consumers == map[9 := Consumer(1, -1)]
    ensures var db: Db := map[1 := Table(map[], map[2 := q])];
            var ws := WriteSetOf([HeadOp(ReadQueue, Reader(1, 2, 9, 0, 0), 0)]);
            && QueuesOk(db)
            && ValidateStatus(db, map[7 := Txn(Active, ws)], 7, false, _ => 0) == COMMIT
            && !Survives(db, Values(ws))
  {
    var db: Db := map[1 := Table(map[], map[2 := q])];
    var ops := [HeadOp(ReadQueue, Reader(1, 2, 9, 0, 0), 0)];
    var w := Stamp(ops[0], 0);
    assert WriteSetOf(ops[..0]) == [];
    assert WriteSetOf(ops) == [Entry(w, w)];
    assert Values(WriteSetOf(ops)) == [w];
    assert [w][..0] == [] && [w][1..] == [];
    assert !Safe(db, w);
  }

  /** Validation does not look at consume heads: a consumer that has just subscribed to an empty
      queue has a transaction that consumes up to entry 5 validated, and its commit stops the server. */
  lemma UnreadConsumeStops()
    ensures var q := AfterSubscribe(EMPTY_QUEUE, 9);
            var db: Db := map[1 := Table(map[], map[2 := q])];
            var ws := WriteSetOf([HeadOp(ConsumeQueue, Reader(1, 2, 9, 0, 0), 5)]);
            && QueuesOk(db)
            && (forall readsStale, versionCmp ::
                  ValidateStatus(db, map[7 := Txn(Active, ws)], 7, readsStale, versionCmp) == COMMIT <==> !readsStale)
            && !Survives(db, Values(ws))
  {
    var q := AfterSubscribe(EMPTY_QUEUE, 9);
    var db: Db := map[1 := Table(map[], map[2 := q])];
    var ops := [HeadOp(ConsumeQueue, Reader(1, 2, 9, 0, 0), 5)];
    var w := Stamp(ops[0], 0);
    assert Logs(q, []);
    assert WriteSetOf(ops[..0]) == [];
    assert WriteSetOf(ops) == [Entry(w, w)];
    assert Values(WriteSetOf(ops)) == [w];
    assert [w][..0] == [] && [w][1..] == [];
    assert !Safe(db, w);
  }
}
