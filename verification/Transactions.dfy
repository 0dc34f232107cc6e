/** Transactions on one server: begin, write, validate, persist, abort. Vector clock comparisons
    are an oracle: `readsStale` for the read set, `versionCmp` for the heads behind READ_QUEUE. */
module Transactions {
  import opened SortedSeq
  import opened TxnWrites
  import opened WriteSets
  import opened Database

  const COMMIT := 0
  const ABORT := 1
  const ABORT_SCHEMA := -8
  const NO_SUCH_TXN := -3
  const DUPLICATE_TXN := -2

  datatype Status = Active | Validated
  datatype Txn = Txn(status: Status, writes: WriteSet)
  type Txns = map<int, Txn>

  datatype Verdict = Fine | Invalid | InvalidSchema

  /** Another validated transaction holds a write that compares equal. */
  ghost predicate Conflicted(txns: Txns, t: int, w: Write) {
    exists u :: u in txns && ConflictsIn(txns, t, u, w)
  }

  predicate ConflictsIn(txns: Txns, t: int, u: int, w: Write)
    requires u in txns
  {
    u != t && txns[u].status.Validated? && Has(WriteCmp, txns[u].writes, w)
  }

  /** The checks of queue operations against the backend. */
  function QueueVerdict(db: Db, w: Write, versionCmp: Write -> int): Verdict {
    var present := HasQueue(db, w.tableKey, w.queueId);
    match w.queryType
    case ReadQueue =>
      var status := if w.tableKey !in db then NO_TABLE else if !present then NO_QUEUE else versionCmp(w);
      if status == NO_TABLE || status == NO_QUEUE then InvalidSchema else if status != 0 then Invalid else Fine
    case CreateQueue => if present then Invalid else Fine
    case DeleteQueue => if present then Fine else Invalid
    case UnsubscribeQueue => if present then Fine else Invalid
    case _ => if present then Fine else InvalidSchema
  }

  ghost function WriteVerdict(db: Db, txns: Txns, t: int, w: Write, versionCmp: Write -> int): Verdict {
    if w.Regular() then (if Conflicted(txns, t, w) then Invalid else Fine) else QueueVerdict(db, w, versionCmp)
  }

  /** The verdict on the first write that is not fine. */
  ghost function FirstVerdict(db: Db, txns: Txns, t: int, vs: seq<Write>, versionCmp: Write -> int): (v: Verdict)
    ensures v.Fine? <==> forall i :: 0 <= i < |vs| ==> WriteVerdict(db, txns, t, vs[i], versionCmp).Fine?
  {
    if vs == [] then Fine
    else
      var v := WriteVerdict(db, txns, t, vs[0], versionCmp);
      if v.Fine? then
        assert forall i :: 1 <= i < |vs| ==> vs[1..][i - 1] == vs[i];
        FirstVerdict(db, txns, t, vs[1..], versionCmp)
      else v
  }

  ghost function ValidateStatus(db: Db, txns: Txns, t: int, readsStale: bool, versionCmp: Write -> int): int {
    if t !in txns then NO_SUCH_TXN
    else if readsStale then ABORT
    else
      match FirstVerdict(db, txns, t, Values(txns[t].writes), versionCmp)
      case Fine => COMMIT
      case Invalid => ABORT
      case InvalidSchema => ABORT_SCHEMA
  }

  function MarkValidated(txns: Txns, t: int): Txns
    requires t in txns
  {
    txns[t := txns[t].(status := Validated)]
  }

  ghost function AfterValidate(db: Db, txns: Txns, t: int, readsStale: bool, versionCmp: Write -> int): Txns {
    if ValidateStatus(db, txns, t, readsStale, versionCmp) == COMMIT then MarkValidated(txns, t) else txns
  }

  function AfterBegin(txns: Txns, t: int): Txns {
    if t in txns then txns else txns[t := Txn(Active, [])]
  }

  function AfterOp(txns: Txns, t: int, op: Write): Txns {
    if t in txns then txns[t := txns[t].(writes := Add(txns[t].writes, op))] else txns
  }

  // ---- The server as it runs ----

  class Server {
    var db: Db
    var txns: Txns

    constructor (db: Db)
      ensures this.db == db && txns == map[]
    {
      this.db := db;
      txns := map[];
    }

    method NewTxn(t: int) returns (status: int)
      modifies this`txns
      ensures txns == AfterBegin(old(txns), t)
      ensures t in old(txns) ==> status == DUPLICATE_TXN && txns == old(txns)
      ensures t !in old(txns) ==> status == 0 && txns == old(txns)[t := Txn(Active, [])]
    {
      if t in txns {
        return DUPLICATE_TXN;
      }
      txns := txns[t := Txn(Active, [])];
      status := 0;
    }

    /** The add_*_to_txn family: the operation is stamped and put into the write set. */
    method AddToTxn(t: int, op: Write) returns (status: int)
      modifies this`txns
      ensures txns == AfterOp(old(txns), t, op)
      ensures status == if t in old(txns) then 0 else NO_SUCH_TXN
      ensures t !in old(txns) ==> txns == old(txns)
    {
      if t !in txns {
        return NO_SUCH_TXN;
      }
      var ws := txns[t].writes;
      var tw := Stamp(op, |ws|);
      txns := txns[t := txns[t].(writes := Put(WriteCmp, ws, tw, tw))];
      status := 0;
    }

    method IsWriteInvalidated(w: Write, t: int, versionCmp: Write -> int) returns (v: Verdict)
      ensures v == WriteVerdict(db, txns, t, w, versionCmp)
    {
      if !w.Regular() {
        return QueueVerdict(db, w, versionCmp);
      }
      var rest: set<int> := txns.Keys;
      while rest != {}
        invariant rest <= txns.Keys
        invariant forall u :: u in txns.Keys - rest ==> !ConflictsIn(txns, t, u, w)
        decreases rest
      {
        assert (forall u :: u !in rest) ==> rest == {};
        var u :| u in rest;
        if u != t && txns[u].status.Validated? && Has(WriteCmp, txns[u].writes, w) {
          return Invalid;
        }
        rest := rest - {u};
      }
      v := Fine;
    }

    method ValidateTxn(t: int, readsStale: bool, versionCmp: Write -> int) returns (status: int)
      requires t in txns ==> txns[t].status.Active?
      modifies this`txns
      ensures status == ValidateStatus(db, old(txns), t, readsStale, versionCmp)
      ensures txns == AfterValidate(db, old(txns), t, readsStale, versionCmp)
    {
      if t !in txns {
        return NO_SUCH_TXN;
      }
      if readsStale {
        return ABORT;
      }
      var vs := Values(txns[t].writes);
      var i := 0;
      while i < |vs|
        invariant 0 <= i <= |vs| && txns == old(txns)
        invariant FirstVerdict(db, txns, t, vs, versionCmp) == FirstVerdict(db, txns, t, vs[i..], versionCmp)
      {
        var v := IsWriteInvalidated(vs[i], t, versionCmp);
        assert vs[i..][0] == vs[i] && vs[i..][1..] == vs[i + 1..];
        if v != Fine {
          return if v == Invalid then ABORT else ABORT_SCHEMA;
        }
        i := i + 1;
      }
      assert vs[i..] == [];
      txns := txns[t := txns[t].(status := Validated)];
      status := COMMIT;
    }

    /** persist_txn: the writes go to the backend in write set order, then the transaction is closed.
        The server is gone at the first write that is not safe. */
    method PersistTxn(t: int) returns (status: int, survived: bool)
      requires t in txns
      modifies this
      ensures survived <==> Survives(old(db), Values(old(txns)[t].writes))
      ensures survived ==>
                Outcome(db, status) == PersistAll(old(db), Values(old(txns)[t].writes)) && txns == old(txns) - {t}
    {
      var vs := Values(txns[t].writes);
      status := 0;
      var i := 0;
      while i < |vs|
        invariant 0 <= i <= |vs| && txns == old(txns)
        invariant Survives(old(db), vs[..i]) && Outcome(db, status) == PersistAll(old(db), vs[..i])
      {
        assert vs[..i + 1][..i] == vs[..i];
        if !Safe(db, vs[i]) {
          if Survives(old(db), vs) {
            SurvivesPrefix(old(db), vs, i + 1);
          }
          return STOPPED, false;
        }
        var r := PersistWrite(db, vs[i]);
        db, status := r.db, r.status;
        i := i + 1;
      }
      assert vs[..i] == vs;
      txns := txns - {t};
      survived := true;
    }

    /** handle_commit_txn: persists whatever the server has, validated or not. */
    method HandleCommit(t: int) returns (status: int, survived: bool)
      modifies this
      ensures survived <==> (t in old(txns) ==> Survives(old(db), Values(old(txns)[t].writes)))
      ensures t in old(txns) && survived ==> Outcome(db, status) == PersistAll(old(db), Values(old(txns)[t].writes))
      ensures t !in old(txns) ==> db == old(db) && status == NO_SUCH_TXN
      ensures survived ==> txns == old(txns) - {t}
    {
      if t !in txns {
        return NO_SUCH_TXN, true;
      }
      status, survived := PersistTxn(t);
    }

    method AbortTxn(t: int) returns (status: int)
      modifies this`txns
      ensures txns == old(txns) - {t}
      ensures status == if t in old(txns) then 0 else NO_SUCH_TXN
    {
      if t !in txns {
        return NO_SUCH_TXN;
      }
      txns := txns - {t};
      status := 0;
    }

    /** commit_txn: validate, then persist or abort, in one go. */
    method CommitTxn(t: int, readsStale: bool, versionCmp: Write -> int) returns (status: int, survived: bool)
      requires t in txns ==> txns[t].status.Active?
      modifies this
      ensures var verdict := ValidateStatus(old(db), old(txns), t, readsStale, versionCmp);
              && (survived <==> (verdict == COMMIT ==> Survives(old(db), Values(old(txns)[t].writes))))
              && (survived && verdict == COMMIT ==>
                Outcome(db, status) == PersistAll(old(db), Values(old(txns)[t].writes)))
              && (verdict != COMMIT ==> db == old(db) && status == if verdict == NO_SUCH_TXN then NO_SUCH_TXN else 0)
      ensures survived ==> txns == old(txns) - {t}
    {
      if t !in txns {
        return NO_SUCH_TXN, true;
      }
      var res := ValidateTxn(t, readsStale, versionCmp);
      if res == COMMIT {
        status, survived := PersistTxn(t);
      } else {
        status := AbortTxn(t);
        survived := true;
      }
    }
  }

  // ---- What a commit that passes validation does with its enqueues ----

  lemma QueueStays(db: Db, w: Write, t: int, id: int)
    requires HasQueue(db, t, id) && !(w.queryType.DeleteQueue? && w.tableKey == t)
    ensures HasQueue(PersistWrite(db, w).db, t, id)
  {
  }

  lemma {:induction false} QueueStaysAll(db: Db, xs: seq<Write>, t: int, id: int)
    requires HasQueue(db, t, id)
    requires forall i :: 0 <= i < |xs| ==> !(xs[i].queryType.DeleteQueue? && xs[i].tableKey == t)
    ensures HasQueue(PersistAll(db, xs).db, t, id)
  {
    if xs != [] {
      QueueStaysAll(db, xs[..|xs| - 1], t, id);
      QueueStays(PersistAll(db, xs[..|xs| - 1]).db, xs[|xs| - 1], t, id);
    }
  }

  /** Once validation says COMMIT, every enqueue of the transaction persists with status 0: its queue
      was checked to exist, and queue deletions on the table sort after enqueues. */
  lemma ValidatedEnqueuesPersist(queueTables: set<int>, lo: int, ops: seq<Write>, db: Db, txns: Txns, t: int,
                                 readsStale: bool, versionCmp: Write -> int, i: nat)
    requires Issuable(queueTables, lo, ops) && t in txns && txns[t].writes == WriteSetOf(ops)
    requires ValidateStatus(db, txns, t, readsStale, versionCmp) == COMMIT
    requires i < |WriteSetOf(ops)| && Values(WriteSetOf(ops))[i].queryType.Enqueue?
    ensures var vs := Values(WriteSetOf(ops));
            PersistWrite(PersistAll(db, vs[..i]).db, vs[i]).status == 0
  {
    var vs := Values(WriteSetOf(ops));
    var w := vs[i];
    assert HasQueue(db, w.tableKey, w.queueId) by {
      assert WriteVerdict(db, txns, t, w, versionCmp).Fine?;
    }
    forall j | 0 <= j < i
      ensures !(vs[j].queryType.DeleteQueue? && vs[j].tableKey == w.tableKey)
    {
      ValuesSorted(queueTables, lo, ops, j, i);
    }
    QueueStaysAll(db, vs[..i], w.tableKey, w.queueId);
  }
}
