/** Queues come and go with the transactions that create and delete them: what one write touches, and
    which queues are there after a commit. */
module QueueLives {
  import opened KeyPaths
  import opened SortedSeq
  import opened TxnWrites
  import opened WriteSets
  import opened Queues
  import opened Database
  import opened EnqueueOrder

  predicate Creates(w: Write, t: int, id: int) {
    w.queryType.CreateQueue? && w.tableKey == t && w.queueId == id
  }

  // ---- One write ----

  /** Rows are as they were, and so is every queue but (t, id). */
  ghost predicate OnlyQueue(db: Db, db': Db, t: int, id: int) {
    && db'.Keys == db.Keys
    && (forall u :: u in db ==> db'[u].rows == db[u].rows)
    && (forall u, k :: (u, k) != (t, id) ==> SameQueue(db, db', u, k))
  }

  predicate SameQueue(db: Db, db': Db, t: int, id: int) {
    && (HasQueue(db', t, id) <==> HasQueue(db, t, id))
    && (HasQueue(db, t, id) ==> db'[t].queues[id] == db[t].queues[id])
  }

  /** Queues are as they were, and so are the rows of every table but t. */
  ghost predicate OnlyRows(db: Db, db': Db, t: int) {
    && db'.Keys == db.Keys
    && (forall u :: u in db ==> db'[u].queues == db[u].queues)
    && (forall u :: u in db && u != t ==> db'[u].rows == db[u].rows)
  }

  /** A write touches the rows of its table or the one queue it names, and nothing else. */
  lemma WriteTouches(db: Db, w: Write)
    ensures var db' := PersistWrite(db, w).db;
            if w.Regular() then OnlyRows(db, db', w.tableKey) else OnlyQueue(db, db', w.tableKey, w.queueId)
  {
  }

  /** What persisting reports: 0 if and only if the table, the queue and the consumer it needs are
      there, a row to delete is there, and a queue to create is not. */
  ghost predicate Reported(db: Db, w: Write, status: int) {
    var t, id := w.tableKey, w.queueId;
    match w.queryType
    case Update => status == if t in db then 0 else NO_TABLE
    case Delete => status == if t !in db then NO_TABLE else if HasRow(db, w) then 0 else 1
    case CreateQueue => status == if t !in db then NO_TABLE else if HasQueue(db, t, id) then DUPLICATE_QUEUE else 0
    case _ =>
      status == if t !in db then NO_TABLE else if !HasQueue(db, t, id) then NO_QUEUE
                else if w.PerConsumer() && w.consumerId !in db[t].queues[id].consumers then NO_CONSUMER else 0
  }

  /** The table has a path in the row that a delete names. */
  ghost predicate HasRow(db: Db, w: Write) {
    w.tableKey in db && w.columnValues != [] && exists p :: p in db[w.tableKey].rows && InRow(p, w.columnValues[0])
  }

  lemma StatusReported(db: Db, w: Write)
    requires Safe(db, w)
    ensures Reported(db, w, PersistWrite(db, w).status)
  {
    if w.queryType.Delete? && w.tableKey in db && w.columnValues != [] {
      var rows, k := db[w.tableKey].rows, w.columnValues[0];
      if p :| p in rows && InRow(p, k) {
        assert p !in WithoutRow(rows, k);
      } else {
        assert WithoutRow(rows, k) == rows;
      }
    }
  }

  /** A deleted queue is gone, with all its entries and consumers, and a created one is empty. */
  lemma QueueGoesAndComes(db: Db, w: Write)
    requires w.tableKey in db
    ensures w.queryType.DeleteQueue? ==> !HasQueue(PersistWrite(db, w).db, w.tableKey, w.queueId)
    ensures w.queryType.CreateQueue? && !HasQueue(db, w.tableKey, w.queueId) ==>
              var db' := PersistWrite(db, w).db;
              && HasQueue(db', w.tableKey, w.queueId)
              && Logs(db'[w.tableKey].queues[w.queueId], []) && db'[w.tableKey].queues[w.queueId].consumers == map[]
    ensures w.queryType.CreateQueue? && HasQueue(db, w.tableKey, w.queueId) ==> PersistWrite(db, w).db == db
  {
  }

  // ---- Many writes ----

  /** Whether a queue is there after some writes: the last of them that creates or deletes it decides. */
  ghost function IsThere(before: bool, xs: seq<Write>, t: int, id: int): bool {
    if xs == [] then before
    else
      var w := xs[|xs| - 1];
      if Creates(w, t, id) then true else if DropsQueue(w, t, id) then false
      else IsThere(before, xs[..|xs| - 1], t, id)
  }

  lemma {:induction false} ThereAfter(db: Db, xs: seq<Write>, t: int, id: int)
    requires t in db
    ensures HasQueue(PersistAll(db, xs).db, t, id) <==> IsThere(HasQueue(db, t, id), xs, t, id)
  {
    if xs != [] {
      var before, w := xs[..|xs| - 1], xs[|xs| - 1];
      ThereAfter(db, before, t, id);
      PersistKeepsTables(db, before);
      if Creates(w, t, id) || DropsQueue(w, t, id) {
        QueueGoesAndComes(PersistAll(db, before).db, w);
      } else {
        StaysUnless(PersistAll(db, before).db, w, t, id);
      }
    }
  }

  lemma StaysUnless(db: Db, w: Write, t: int, id: int)
    requires !Creates(w, t, id) && !DropsQueue(w, t, id)
    ensures HasQueue(PersistWrite(db, w).db, t, id) <==> HasQueue(db, t, id)
  {
  }

  /** A commit reports what its last write reports, and 0 for an empty transaction. */
  lemma CommitReports(db: Db, xs: seq<Write>)
    requires Survives(db, xs)
    ensures if xs == [] then PersistAll(db, xs) == Outcome(db, 0)
            else Reported(PersistAll(db, xs[..|xs| - 1]).db, xs[|xs| - 1], PersistAll(db, xs).status)
  {
    if xs != [] {
      StatusReported(PersistAll(db, xs[..|xs| - 1]).db, xs[|xs| - 1]);
    }
  }

  /** The first of two updates goes to a table that is not there and is lost, and the commit reports 0. */
  lemma FailureNotReported(db: Db, a: Write, b: Write)
    requires a.queryType.Update? && b.queryType.Update? && a.tableKey !in db && b.tableKey in db
    ensures Survives(db, [a, b]) && PersistAll(db, [a, b]).status == 0
    ensures PersistAll(db, [a, b]) == PersistAll(db, [b])
  {
    assert [a, b][..1] == [a] && [a][..0] == [] && [b][..0] == [];
    assert PersistAll(db, [a]).db == db;
  }

  // ---- What the write set does with creations and deletions ----

  lemma {:induction false} StampIsSize(ops: seq<Write>, i: nat)
    requires i < |ops|
    ensures Stamped(ops)[i].localOrder == |WriteSetOf(ops[..i])|
  {
    var before := ops[..|ops| - 1];
    if i < |ops| - 1 {
      StampIsSize(before, i);
      assert before[..i] == ops[..i];
    }
  }

  lemma {:induction false} SizeGrows(ops: seq<Write>, i: nat)
    requires i <= |ops|
    ensures |WriteSetOf(ops[..i])| <= |WriteSetOf(ops)|
  {
    if i == |ops| {
      assert ops[..i] == ops;
    } else {
      SizeGrows(ops[..|ops| - 1], i);
      assert ops[..|ops| - 1][..i] == ops[..i];
    }
  }

  /** Operations that are told apart by their stamps. */
  predicate Numbered(w: Write) {
    !w.Regular() && !w.PerConsumer() && !w.queryType.DeleteQueue?
  }

  /** Such an operation is stamped past all before it, so it replaces none of them. */
  lemma NewEntry(queueTables: set<int>, lo: int, ops: seq<Write>, w: Write)
    requires Issuable(queueTables, lo, ops) && Admissible(queueTables, lo, w) && Numbered(w)
    requires forall k :: 0 <= k < |ops| && Numbered(ops[k]) ==> Stamped(ops)[k].localOrder < w.localOrder
    ensures !Has(WriteCmp, WriteSetOf(ops), w)
  {
    if Has(WriteCmp, WriteSetOf(ops), w) {
      var k := FoundIsIssued(queueTables, lo, ops, w);
      StampedAt(ops, k);
    }
  }

  ghost predicate AllBelow(ops: seq<Write>) {
    forall k :: 0 <= k < |ops| && Numbered(ops[k]) ==> Stamped(ops)[k].localOrder < |WriteSetOf(ops)|
  }

  lemma AddedLast(queueTables: set<int>, lo: int, ops: seq<Write>)
    requires Issuable(queueTables, lo, ops) && ops != [] && Numbered(ops[|ops| - 1]) && AllBelow(ops[..|ops| - 1])
    ensures |WriteSetOf(ops)| == |WriteSetOf(ops[..|ops| - 1])| + 1
  {
    var before := ops[..|ops| - 1];
    var w := Stamp(ops[|ops| - 1], |WriteSetOf(before)|);
    IssuablePrefix(queueTables, lo, ops);
    SizeBound(before);
    StampAdmissible(queueTables, lo, ops, |ops| - 1, |WriteSetOf(before)|);
    NewEntry(queueTables, lo, before, w);
  }

  lemma {:induction false} NumberedBelow(queueTables: set<int>, lo: int, ops: seq<Write>)
    requires Issuable(queueTables, lo, ops)
    ensures AllBelow(ops)
  {
    if ops != [] {
      var before := ops[..|ops| - 1];
      IssuablePrefix(queueTables, lo, ops);
      NumberedBelow(queueTables, lo, before);
      SizeGrows(ops, |ops| - 1);
      if Numbered(ops[|ops| - 1]) {
        AddedLast(queueTables, lo, ops);
      }
      StillBelow(ops);
    }
  }

  lemma StillBelow(ops: seq<Write>)
    requires ops != [] && AllBelow(ops[..|ops| - 1])
    requires |WriteSetOf(ops)| >= |WriteSetOf(ops[..|ops| - 1])| + if Numbered(ops[|ops| - 1]) then 1 else 0
    ensures AllBelow(ops)
  {
    var before := ops[..|ops| - 1];
    forall k | 0 <= k < |ops| && Numbered(ops[k])
      ensures Stamped(ops)[k].localOrder < |WriteSetOf(ops)|
    {
      if k < |before| {
        assert Stamped(ops)[k] == Stamped(before)[k] && before[k] == ops[k];
      }
    }
  }

  lemma StampsDiffer(queueTables: set<int>, lo: int, ops: seq<Write>, i: nat, j: nat)
    requires Issuable(queueTables, lo, ops) && i < j < |ops| && Numbered(ops[i])
    ensures Stamped(ops)[i].localOrder < Stamped(ops)[j].localOrder
  {
    StampIsSize(ops, i);
    StampIsSize(ops, j);
    GrowsPast(queueTables, lo, ops, i);
    SizeGrows(ops[..j], i + 1);
    assert ops[..j][..i + 1] == ops[..i + 1];
  }

  /** The write set is larger with such an operation than without. */
  lemma GrowsPast(queueTables: set<int>, lo: int, ops: seq<Write>, i: nat)
    requires Issuable(queueTables, lo, ops) && i < |ops| && Numbered(ops[i])
    ensures |WriteSetOf(ops[..i])| < |WriteSetOf(ops[..i + 1])|
  {
    var upTo := ops[..i + 1];
    IssuableUpTo(queueTables, lo, ops, i + 1);
    NumberedBelow(queueTables, lo, upTo);
    StampIsSize(upTo, i);
    assert upTo[..i] == ops[..i];
  }

  lemma IssuableUpTo(queueTables: set<int>, lo: int, ops: seq<Write>, n: nat)
    requires Issuable(queueTables, lo, ops) && n <= |ops|
    ensures Issuable(queueTables, lo, ops[..n])
  {
  }

  /** Every creation that is issued is in the write set. */
  lemma NumberedIsValue(queueTables: set<int>, lo: int, ops: seq<Write>, i: nat) returns (m: nat)
    requires Issuable(queueTables, lo, ops) && i < |ops| && Numbered(ops[i])
    ensures m < |WriteSetOf(ops)| && Values(WriteSetOf(ops))[m] == Stamped(ops)[i]
  {
    var st := Stamped(ops);
    StampedAt(ops, i);
    StampAdmissible(queueTables, lo, ops, i, st[i].localOrder);
    EqualClasses(queueTables, lo, st[i], st[i]);
    forall j | i < j < |st|
      ensures WriteCmp(st[j], st[i]) != 0
    {
      StampsDiffer(queueTables, lo, ops, i, j);
      StampedAt(ops, j);
      StampAdmissible(queueTables, lo, ops, j, st[j].localOrder);
      EqualClasses(queueTables, lo, st[j], st[i]);
    }
    LastSameAt(st, st[i], i);
    m := LastIsValue(queueTables, lo, ops, st[i], st[i]);
  }

  predicate DropsFrom(w: Write, t: int) {
    w.queryType.DeleteQueue? && w.tableKey == t
  }

  /** The last deletion of a queue of the table is that of queue id. */
  ghost predicate DroppedLast(ops: seq<Write>, t: int, id: int) {
    exists k: nat :: LastDrop(ops, t, id, k)
  }

  ghost predicate LastDrop(ops: seq<Write>, t: int, id: int, k: nat) {
    k < |ops| && DropsQueue(ops[k], t, id) && forall j :: k < j < |ops| ==> !DropsFrom(ops[j], t)
  }

  lemma DropsEqual(queueTables: set<int>, lo: int, ops: seq<Write>, k: nat, w: Write)
    requires Issuable(queueTables, lo, ops) && k < |ops| && Admissible(queueTables, lo, w) && w.queryType.DeleteQueue?
    ensures WriteCmp(Stamped(ops)[k], w) == 0 <==> DropsFrom(ops[k], w.tableKey)
  {
    StampedAt(ops, k);
    StampAdmissible(queueTables, lo, ops, k, Stamped(ops)[k].localOrder);
    EqualClasses(queueTables, lo, Stamped(ops)[k], w);
  }

  /** The last deletion from a table is in the write set. */
  lemma LastDropIsValue(queueTables: set<int>, lo: int, ops: seq<Write>, t: int, id: int, k: nat) returns (m: nat)
    requires Issuable(queueTables, lo, ops) && LastDrop(ops, t, id, k)
    ensures m < |WriteSetOf(ops)| && DropsQueue(Values(WriteSetOf(ops))[m], t, id)
  {
    var st := Stamped(ops);
    StampedAt(ops, k);
    StampAdmissible(queueTables, lo, ops, k, st[k].localOrder);
    forall j | k <= j < |st|
      ensures WriteCmp(st[j], st[k]) == 0 <==> j == k
    {
      DropsEqual(queueTables, lo, ops, j, st[k]);
    }
    LastSameAt(st, st[k], k);
    m := LastIsValue(queueTables, lo, ops, st[k], st[k]);
  }

  /** A deletion in the write set is the last one from its table. */
  lemma ValueIsLastDrop(queueTables: set<int>, lo: int, ops: seq<Write>, t: int, id: int, m: nat)
    requires Issuable(queueTables, lo, ops) && m < |WriteSetOf(ops)| && DropsQueue(Values(WriteSetOf(ops))[m], t, id)
    ensures DroppedLast(ops, t, id)
  {
    var st, v := Stamped(ops), Values(WriteSetOf(ops))[m];
    ValueIsLast(queueTables, lo, ops, m);
    var k := LastSameIndex(st, v, v);
    StampedAt(ops, k);
    forall j | k < j < |ops|
      ensures !DropsFrom(ops[j], t)
    {
      DropsEqual(queueTables, lo, ops, j, v);
    }
    assert LastDrop(ops, t, id, k);
  }

  lemma {:induction false} LastSameIndex(xs: seq<Write>, q: Write, y: Write) returns (k: nat)
    requires LastSame(xs, q) == Some(y)
    ensures k < |xs| && xs[k] == y && forall j :: k < j < |xs| ==> WriteCmp(xs[j], q) != 0
  {
    if WriteCmp(xs[|xs| - 1], q) == 0 {
      k := |xs| - 1;
    } else {
      k := LastSameIndex(xs[..|xs| - 1], q, y);
    }
  }

  // ---- After a commit ----

  /** In the write set, deletions from a table come last, and there is at most one. */
  lemma DropComesLast(queueTables: set<int>, lo: int, ops: seq<Write>, i: nat, j: nat)
    requires Issuable(queueTables, lo, ops) && i < j < |WriteSetOf(ops)|
    ensures var vs := Values(WriteSetOf(ops));
            vs[i].queryType.DeleteQueue? && vs[j].tableKey == vs[i].tableKey ==>
              !vs[j].queryType.CreateQueue? && !vs[j].queryType.DeleteQueue?
  {
    ValuesSorted(queueTables, lo, ops, i, j);
    DropsSortLast(Values(WriteSetOf(ops))[i], Values(WriteSetOf(ops))[j]);
  }

  lemma DropsSortLast(a: Write, b: Write)
    requires WriteCmp(a, b) < 0
    ensures a.queryType.DeleteQueue? && b.tableKey == a.tableKey ==>
              !b.queryType.CreateQueue? && !b.queryType.DeleteQueue?
  {
  }

  lemma {:induction false} ThereUnlessDropped(before: bool, xs: seq<Write>, t: int, id: int)
    requires forall i :: 0 <= i < |xs| ==> !DropsQueue(xs[i], t, id)
    ensures IsThere(before, xs, t, id) <==> before || exists i :: 0 <= i < |xs| && Creates(xs[i], t, id)
  {
    if xs != [] {
      ThereUnlessDropped(before, xs[..|xs| - 1], t, id);
      if Creates(xs[|xs| - 1], t, id) {
      } else if i :| 0 <= i < |xs| && Creates(xs[i], t, id) {
        assert Creates(xs[..|xs| - 1][i], t, id);
      }
    }
  }

  lemma {:induction false} GoneOnceDropped(before: bool, xs: seq<Write>, t: int, id: int, m: nat)
    requires m < |xs| && DropsQueue(xs[m], t, id) && forall i :: m < i < |xs| ==> !Creates(xs[i], t, id)
    ensures !IsThere(before, xs, t, id)
  {
    if m < |xs| - 1 {
      GoneOnceDropped(before, xs[..|xs| - 1], t, id, m);
    }
  }

  /** After a commit a queue is there if and only if it was there or is created, and the transaction's
      last deletion from the table is not of this queue. Earlier deletions from the table are lost. */
  lemma QueuesAfterCommit(queueTables: set<int>, lo: int, db: Db, ops: seq<Write>, t: int, id: int)
    requires Issuable(queueTables, lo, ops) && t in db
    ensures HasQueue(PersistAll(db, Values(WriteSetOf(ops))).db, t, id) <==>
              && (HasQueue(db, t, id) || exists i :: 0 <= i < |ops| && Creates(ops[i], t, id))
              && !DroppedLast(ops, t, id)
  {
    var vs := Values(WriteSetOf(ops));
    ThereAfter(db, vs, t, id);
    if m :| 0 <= m < |vs| && DropsQueue(vs[m], t, id) {
      ValueIsLastDrop(queueTables, lo, ops, t, id, m);
      forall j | m < j < |vs|
        ensures !Creates(vs[j], t, id)
      {
        DropComesLast(queueTables, lo, ops, m, j);
      }
      GoneOnceDropped(HasQueue(db, t, id), vs, t, id, m);
    } else {
      if k: nat :| LastDrop(ops, t, id, k) {
        var m := LastDropIsValue(queueTables, lo, ops, t, id, k);
        assert false;
      }
      ThereUnlessDropped(HasQueue(db, t, id), vs, t, id);
      CreationsKept(queueTables, lo, ops, t, id);
    }
  }

  lemma CreationsKept(queueTables: set<int>, lo: int, ops: seq<Write>, t: int, id: int)
    requires Issuable(queueTables, lo, ops)
    ensures var vs := Values(WriteSetOf(ops));
            (exists i :: 0 <= i < |ops| && Creates(ops[i], t, id)) <==>
              exists i :: 0 <= i < |vs| && Creates(vs[i], t, id)
  {
    var vs := Values(WriteSetOf(ops));
    if i :| 0 <= i < |ops| && Creates(ops[i], t, id) {
      var m := NumberedIsValue(queueTables, lo, ops, i);
      StampedAt(ops, i);
      assert Creates(vs[m], t, id);
    }
    if m :| 0 <= m < |vs| && Creates(vs[m], t, id) {
      var k := ValueFromOp(queueTables, lo, ops, m);
      StampedAt(ops, k);
      assert Creates(ops[k], t, id);
    }
  }

  ghost predicate EmptyIfThere(db: Db, t: int, id: int) {
    HasQueue(db, t, id) ==> Logs(db[t].queues[id], []) && db[t].queues[id].consumers == map[]
  }

  lemma EmptyStays(db: Db, w: Write, t: int, id: int)
    requires EmptyIfThere(db, t, id) && (HasQueue(db, t, id) ==> !EnqueuesTo(w, t, id))
    ensures EmptyIfThere(PersistWrite(db, w).db, t, id)
  {
  }

  /** In the write set, no enqueue to a queue comes after its creation. */
  lemma EnqueuesComeFirst(queueTables: set<int>, lo: int, ops: seq<Write>, t: int, id: int, i: nat, j: nat)
    requires Issuable(queueTables, lo, ops) && i < j < |WriteSetOf(ops)|
    requires Creates(Values(WriteSetOf(ops))[i], t, id)
    ensures !EnqueuesTo(Values(WriteSetOf(ops))[j], t, id)
  {
    ValuesSorted(queueTables, lo, ops, i, j);
  }

  lemma {:induction false} EmptySoFar(queueTables: set<int>, lo: int, db: Db, ops: seq<Write>, t: int, id: int, n: nat)
    requires Issuable(queueTables, lo, ops) && t in db && !HasQueue(db, t, id) && n <= |WriteSetOf(ops)|
    ensures EmptyIfThere(PersistAll(db, Values(WriteSetOf(ops))[..n]).db, t, id)
  {
    if n > 0 {
      var vs := Values(WriteSetOf(ops));
      var before := vs[..n - 1];
      assert vs[..n][..n - 1] == before;
      EmptySoFar(queueTables, lo, db, ops, t, id, n - 1);
      if HasQueue(PersistAll(db, before).db, t, id) {
        ThereAfter(db, before, t, id);
        var i := CreatedAt(before, t, id);
        EnqueuesComeFirst(queueTables, lo, ops, t, id, i, n - 1);
      }
      EmptyStays(PersistAll(db, before).db, vs[n - 1], t, id);
    }
  }

  lemma {:induction false} CreatedAt(xs: seq<Write>, t: int, id: int) returns (i: nat)
    requires IsThere(false, xs, t, id)
    ensures i < |xs| && Creates(xs[i], t, id)
  {
    if Creates(xs[|xs| - 1], t, id) {
      i := |xs| - 1;
    } else {
      i := CreatedAt(xs[..|xs| - 1], t, id);
    }
  }

  /** A queue that a commit creates is empty after it, whatever the transaction enqueued to it. */
  lemma CreatedIsEmpty(queueTables: set<int>, lo: int, db: Db, ops: seq<Write>, t: int, id: int)
    requires Issuable(queueTables, lo, ops) && t in db && !HasQueue(db, t, id)
    ensures EmptyIfThere(PersistAll(db, Values(WriteSetOf(ops))).db, t, id)
  {
    var vs := Values(WriteSetOf(ops));
    EmptySoFar(queueTables, lo, db, ops, t, id, |vs|);
    assert vs[..|vs|] == vs;
  }

  function Dropping(id: int): Write {
    NOTHING.(queryType := DeleteQueue, tableKey := 1, queueId := id)
  }

  /** A transaction deletes queues 2 and 3 of a table, and only queue 3 goes. */
  lemma DeletionIsLost(db: Db)
    requires HasQueue(db, 1, 2) && HasQueue(db, 1, 3)
    ensures var db' := PersistAll(db, Values(WriteSetOf([Dropping(2), Dropping(3)]))).db;
            HasQueue(db', 1, 2) && !HasQueue(db', 1, 3)
  {
    var ops := [Dropping(2), Dropping(3)];
    assert Issuable({1}, 0, ops);
    QueuesAfterCommit({1}, 0, db, ops, 1, 2);
    QueuesAfterCommit({1}, 0, db, ops, 1, 3);
    assert DropsFrom(ops[1], 1) && LastDrop(ops, 1, 3, 1);
    assert forall k: nat :: !LastDrop(ops, 1, 2, k);
  }
}
