/** A transaction's enqueues reach each queue in the order they were issued. */
module EnqueueOrder {
  import opened Order
  import opened SortedSeq
  import opened TxnWrites
  import opened WriteSets
  import opened Queues
  import opened Database

  predicate EnqueuesTo(w: Write, t: int, id: int) {
    w.queryType.Enqueue? && w.tableKey == t && w.queueId == id
  }

  function Payload(w: Write, t: int, id: int): seq<Item> {
    if EnqueuesTo(w, t, id) then [w.columnValues] else []
  }

  /** The payloads that a sequence of writes appends to one queue. */
  function Enqueued(xs: seq<Write>, t: int, id: int): seq<Item> {
    if xs == [] then [] else Enqueued(xs[..|xs| - 1], t, id) + Payload(xs[|xs| - 1], t, id)
  }

  lemma {:induction false} EnqueuedConcat(xs: seq<Write>, ys: seq<Write>, t: int, id: int)
    ensures Enqueued(xs + ys, t, id) == Enqueued(xs, t, id) + Enqueued(ys, t, id)
  {
    if ys == [] {
      assert xs + ys == xs;
    } else {
      var before := ys[..|ys| - 1];
      assert (xs + ys)[..|xs + ys| - 1] == xs + before;
      EnqueuedConcat(xs, before, t, id);
    }
  }

  lemma {:induction false} EnqueuedNone(xs: seq<Write>, t: int, id: int)
    requires forall i :: 0 <= i < |xs| ==> !EnqueuesTo(xs[i], t, id)
    ensures Enqueued(xs, t, id) == []
  {
    if xs != [] {
      EnqueuedNone(xs[..|xs| - 1], t, id);
    }
  }

  // ---- The write set keeps enqueues in issue order ----

  ghost predicate OrdersBelow(ws: WriteSet) {
    forall i :: 0 <= i < |ws| && ws[i].value.queryType.Enqueue? ==> ws[i].value.localOrder < |ws|
  }

  ghost predicate Sound(queueTables: set<int>, lo: int, ws: WriteSet) {
    && lo <= 0 && |ws| < lo + TWO31
    && Ordered(WriteCmp, Dom(queueTables, lo), ws) && Paired(queueTables, lo, ws) && OrdersBelow(ws)
  }

  /** An enqueue is stamped past every enqueue before it, so it never meets an equal entry and the
      entries sorted after it are no enqueues to its table. */
  lemma EnqueueComesLast(queueTables: set<int>, lo: int, ws: WriteSet, w: Write, i: nat)
    requires Sound(queueTables, lo, ws) && Admissible(queueTables, lo, w)
    requires w.queryType.Enqueue? && w.localOrder == |ws| && i < |ws|
    ensures WriteCmp(ws[i].key, w) != 0
    ensures i >= Rank(WriteCmp, ws, w) ==> !(ws[i].value.queryType.Enqueue? && ws[i].value.tableKey == w.tableKey)
  {
    var dom := Dom(queueTables, lo);
    RankSplits(WriteCmp, dom, ws, w);
    EqualClasses(queueTables, lo, ws[i].key, ws[i].value);
    EqualClasses(queueTables, lo, ws[i].key, w);
    EqualActsAlike(WriteCmp, dom, ws[i].key, ws[i].value, w);
    if ws[i].value.queryType.Enqueue? && ws[i].value.tableKey == w.tableKey {
      WindowSign(lo, ws[i].value.localOrder, w.localOrder);
    }
  }

  lemma EnqueuedAround(a: seq<Write>, w: Write, b: seq<Write>, t: int, id: int)
    ensures Enqueued(a + [w] + b, t, id) == Enqueued(a, t, id) + Payload(w, t, id) + Enqueued(b, t, id)
  {
    EnqueuedConcat(a + [w], b, t, id);
    assert (a + [w])[..|a + [w]| - 1] == a;
  }

  lemma EnqueuedSplit(vs: seq<Write>, r: nat, t: int, id: int)
    requires r <= |vs|
    ensures Enqueued(vs, t, id) == Enqueued(vs[..r], t, id) + Enqueued(vs[r..], t, id)
  {
    EnqueuedConcat(vs[..r], vs[r..], t, id);
    assert vs == vs[..r] + vs[r..];
  }

  lemma AddEnqueue(queueTables: set<int>, lo: int, ws: WriteSet, w: Write, t: int, id: int)
    requires Sound(queueTables, lo, ws) && Admissible(queueTables, lo, w) && w.queryType.Enqueue? &&
             w.localOrder == |ws|
    ensures !Has(WriteCmp, ws, w)
    ensures Enqueued(Values(Put(WriteCmp, ws, w, w)), t, id) == Enqueued(Values(ws), t, id) + Payload(w, t, id)
  {
    forall i | 0 <= i < |ws|
      ensures WriteCmp(ws[i].key, w) != 0
      ensures i >= Rank(WriteCmp, ws, w) ==> !(ws[i].value.queryType.Enqueue? && ws[i].value.tableKey == w.tableKey)
    {
      EnqueueComesLast(queueTables, lo, ws, w, i);
    }
    HasIffStored(WriteCmp, Dom(queueTables, lo), ws, w);
    InsertedLast(Values(ws), Rank(WriteCmp, ws, w), w, t, id);
    ValuesAfterInsert(ws, w);
  }

  lemma InsertedLast(vs: seq<Write>, r: nat, w: Write, t: int, id: int)
    requires r <= |vs| && w.queryType.Enqueue?
    requires forall i :: r <= i < |vs| ==> !(vs[i].queryType.Enqueue? && vs[i].tableKey == w.tableKey)
    ensures Enqueued(vs[..r] + [w] + vs[r..], t, id) == Enqueued(vs, t, id) + Payload(w, t, id)
  {
    var a, b := vs[..r], vs[r..];
    EnqueuedAround(a, w, b, t, id);
    EnqueuedSplit(vs, r, t, id);
    if EnqueuesTo(w, t, id) {
      EnqueuedNone(b, t, id);
    }
    MoveLast(Enqueued(a, t, id), Payload(w, t, id), Enqueued(b, t, id));
  }

  lemma MoveLast(a: seq<Item>, p: seq<Item>, b: seq<Item>)
    requires p == [] || b == []
    ensures a + p + b == a + b + p
  {
  }

  lemma ValuesAfterInsert(ws: WriteSet, w: Write)
    requires !Has(WriteCmp, ws, w)
    ensures var r := Rank(WriteCmp, ws, w);
            Values(Put(WriteCmp, ws, w, w)) == Values(ws)[..r] + [w] + Values(ws)[r..]
  {
  }

  lemma ValuesAfterOverwrite(ws: WriteSet, w: Write)
    requires Has(WriteCmp, ws, w)
    ensures var r := Rank(WriteCmp, ws, w);
            Values(Put(WriteCmp, ws, w, w)) == Values(ws)[..r] + [w] + Values(ws)[r + 1..]
  {
  }

  /** Any other operation leaves the enqueues alone, also when it overwrites. */
  lemma AddOther(queueTables: set<int>, lo: int, ws: WriteSet, w: Write, t: int, id: int)
    requires Sound(queueTables, lo, ws) && Admissible(queueTables, lo, w) && !w.queryType.Enqueue?
    ensures Enqueued(Values(Put(WriteCmp, ws, w, w)), t, id) == Enqueued(Values(ws), t, id)
  {
    var r, vs := Rank(WriteCmp, ws, w), Values(ws);
    if Has(WriteCmp, ws, w) {
      NoEnqueueThere(queueTables, lo, ws, w);
      ValuesAfterOverwrite(ws, w);
      Overwritten(vs, r, w, t, id);
    } else {
      ValuesAfterInsert(ws, w);
      Inserted(vs, r, w, t, id);
    }
  }

  lemma NoEnqueueThere(queueTables: set<int>, lo: int, ws: WriteSet, w: Write)
    requires Sound(queueTables, lo, ws) && Admissible(queueTables, lo, w) && !w.queryType.Enqueue?
    requires Has(WriteCmp, ws, w)
    ensures !Values(ws)[Rank(WriteCmp, ws, w)].queryType.Enqueue?
  {
    var r := Rank(WriteCmp, ws, w);
    HasIffStored(WriteCmp, Dom(queueTables, lo), ws, w);
    EqualClasses(queueTables, lo, ws[r].key, ws[r].value);
    EqualClasses(queueTables, lo, ws[r].key, w);
  }

  lemma Inserted(vs: seq<Write>, r: nat, w: Write, t: int, id: int)
    requires r <= |vs| && !w.queryType.Enqueue?
    ensures Enqueued(vs[..r] + [w] + vs[r..], t, id) == Enqueued(vs, t, id)
  {
    var a, b := vs[..r], vs[r..];
    EnqueuedAround(a, w, b, t, id);
    EnqueuedSplit(vs, r, t, id);
    MoveLast(Enqueued(a, t, id), [], Enqueued(b, t, id));
  }

  lemma Overwritten(vs: seq<Write>, r: nat, w: Write, t: int, id: int)
    requires r < |vs| && !w.queryType.Enqueue? && !vs[r].queryType.Enqueue?
    ensures Enqueued(vs[..r] + [w] + vs[r + 1..], t, id) == Enqueued(vs, t, id)
  {
    SameAround(vs[..r], w, vs[r], vs[r + 1..], t, id);
    SplitAt(vs, r);
  }

  lemma SplitAt<T>(s: seq<T>, r: nat)
    requires r < |s|
    ensures s[..r] + [s[r]] + s[r + 1..] == s
  {
  }

  lemma SameAround(a: seq<Write>, w: Write, x: Write, b: seq<Write>, t: int, id: int)
    requires !w.queryType.Enqueue? && !x.queryType.Enqueue?
    ensures Enqueued(a + [w] + b, t, id) == Enqueued(a + [x] + b, t, id)
  {
    EnqueuedAround(a, w, b, t, id);
    EnqueuedAround(a, x, b, t, id);
  }

  lemma PutOrdersBelow(ws: WriteSet, w: Write)
    requires OrdersBelow(ws) && w.localOrder == |ws|
    requires w.queryType.Enqueue? ==> !Has(WriteCmp, ws, w)
    ensures OrdersBelow(Put(WriteCmp, ws, w, w))
  {
    var ws', r := Put(WriteCmp, ws, w, w), Rank(WriteCmp, ws, w);
    forall i | 0 <= i < |ws'| && ws'[i].value.queryType.Enqueue?
      ensures ws'[i].value.localOrder < |ws'|
    {
      if i != r {
        assert ws'[i] == ws[if Has(WriteCmp, ws, w) || i < r then i else i - 1];
      }
    }
  }

  /** The write set holds exactly the issued enqueues, per queue in the order of issue. */
  lemma {:induction false} EnqueuesKeepIssueOrder(queueTables: set<int>, lo: int, ops: seq<Write>, t: int, id: int)
    requires Issuable(queueTables, lo, ops)
    ensures Sound(queueTables, lo, WriteSetOf(ops))
    ensures Enqueued(Values(WriteSetOf(ops)), t, id) == Enqueued(ops, t, id)
  {
    WriteSetOrdered(queueTables, lo, ops);
    WriteSetPaired(queueTables, lo, ops);
    if ops != [] {
      var before, op := ops[..|ops| - 1], ops[|ops| - 1];
      IssuablePrefix(queueTables, lo, ops);
      WriteSetOrdered(queueTables, lo, before);
      EnqueuesKeepIssueOrder(queueTables, lo, before, t, id);
      var ws := WriteSetOf(before);
      var w := Stamp(op, |ws|);
      StampAdmissible(queueTables, lo, ops, |ops| - 1, |ws|);
      if op.queryType.Enqueue? {
        AddEnqueue(queueTables, lo, ws, w, t, id);
      } else {
        AddOther(queueTables, lo, ws, w, t, id);
      }
      PutOrdersBelow(ws, w);
    }
  }

  // ---- Persisting appends them ----

  predicate DropsQueue(w: Write, t: int, id: int) {
    w.queryType.DeleteQueue? && w.tableKey == t && w.queueId == id
  }

  lemma LogStep(db: Db, w: Write, t: int, id: int, log: seq<Item>)
    requires HasQueue(db, t, id) && Logs(db[t].queues[id], log) && !DropsQueue(w, t, id)
    ensures var db' := PersistWrite(db, w).db;
            HasQueue(db', t, id) && Logs(db'[t].queues[id], log + Payload(w, t, id))
  {
    if EnqueuesTo(w, t, id) {
      EnqueueLogs(db[t].queues[id], log, w.columnValues);
    } else {
      assert log + [] == log;
    }
  }

  lemma {:induction false} LogAfter(db: Db, xs: seq<Write>, t: int, id: int, log: seq<Item>)
    requires HasQueue(db, t, id) && Logs(db[t].queues[id], log)
    requires forall i :: 0 <= i < |xs| ==> !DropsQueue(xs[i], t, id)
    ensures var db' := PersistAll(db, xs).db;
            HasQueue(db', t, id) && Logs(db'[t].queues[id], log + Enqueued(xs, t, id))
  {
    if xs == [] {
      assert log + [] == log;
    } else {
      var before, w := xs[..|xs| - 1], xs[|xs| - 1];
      LogAfter(db, before, t, id, log);
      LogStep(PersistAll(db, before).db, w, t, id, log + Enqueued(before, t, id));
      assert log + Enqueued(xs, t, id) == log + Enqueued(before, t, id) + Payload(w, t, id);
    }
  }

  /** Persisting a transaction appends its enqueues to each queue in issue order, under the next
      consecutive entry ids. */
  lemma PersistAppendsInIssueOrder(queueTables: set<int>, lo: int, db: Db, ops: seq<Write>, t: int, id: int,
                                   log: seq<Item>)
    requires Issuable(queueTables, lo, ops) && HasQueue(db, t, id) && Logs(db[t].queues[id], log)
    requires forall i :: 0 <= i < |ops| ==> !DropsQueue(ops[i], t, id)
    ensures var db' := PersistAll(db, Values(WriteSetOf(ops))).db;
            HasQueue(db', t, id) && Logs(db'[t].queues[id], log + Enqueued(ops, t, id))
  {
    var vs := Values(WriteSetOf(ops));
    EnqueuesKeepIssueOrder(queueTables, lo, ops, t, id);
    forall i | 0 <= i < |vs|
      ensures !DropsQueue(vs[i], t, id)
    {
      var k := ValueFromOp(queueTables, lo, ops, i);
      StampedAt(ops, k);
    }
    LogAfter(db, vs, t, id, log);
  }
}
