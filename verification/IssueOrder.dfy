/** Persisting a transaction goes through its write set in comparator order, with overwritten
    operations gone. This module says how that compares with the order of issue. */
module IssueOrder {
  import opened SortedSeq
  import opened KeyPaths
  import opened TxnWrites
  import opened WriteSets
  import opened Database

  // ---- Rows ----

  function Row(db: Db, t: int, p: seq<int>): Option<seq<int>>
    requires t in db
  {
    if p in db[t].rows then Some(db[t].rows[p]) else None
  }

  predicate Updates(w: Write, t: int, p: seq<int>) {
    w.queryType.Update? && w.tableKey == t && KeyPath(w) == p
  }

  predicate Deletes(w: Write, t: int, p: seq<int>) {
    w.queryType.Delete? && w.tableKey == t && w.columnValues != [] && InRow(p, w.columnValues[0])
  }

  predicate Affects(w: Write, t: int, p: seq<int>) {
    Updates(w, t, p) || Deletes(w, t, p)
  }

  ghost function LastAffecting(xs: seq<Write>, t: int, p: seq<int>): Option<Write> {
    if xs == [] then None
    else if Affects(xs[|xs| - 1], t, p) then Some(xs[|xs| - 1])
    else LastAffecting(xs[..|xs| - 1], t, p)
  }

  lemma {:induction false} LastAffectingIs(xs: seq<Write>, t: int, p: seq<int>)
    ensures LastAffecting(xs, t, p) == None ==> forall i :: 0 <= i < |xs| ==> !Affects(xs[i], t, p)
    ensures LastAffecting(xs, t, p).Some? ==>
            exists i: nat :: IsLast(xs, t, p, i) && xs[i] == LastAffecting(xs, t, p).value
  {
    if xs != [] {
      var before := xs[..|xs| - 1];
      if Affects(xs[|xs| - 1], t, p) {
        assert IsLast(xs, t, p, |xs| - 1);
      } else {
        LastAffectingIs(before, t, p);
        if i: nat :| IsLast(before, t, p, i) && before[i] == LastAffecting(before, t, p).value {
          assert IsLast(xs, t, p, i);
        }
      }
    }
  }

  ghost predicate IsLast(xs: seq<Write>, t: int, p: seq<int>, i: nat) {
    i < |xs| && Affects(xs[i], t, p) && forall j :: i < j < |xs| ==> !Affects(xs[j], t, p)
  }

  lemma {:induction false} LastAffectingAt(xs: seq<Write>, t: int, p: seq<int>, i: nat)
    requires IsLast(xs, t, p, i)
    ensures LastAffecting(xs, t, p) == Some(xs[i])
  {
    if i < |xs| - 1 {
      LastAffectingAt(xs[..|xs| - 1], t, p, i);
    }
  }

  /** What an operation on a cell leaves there. */
  function Leaves(w: Write): Option<seq<int>> {
    if w.queryType.Update? then Some(Columns(w)) else None
  }

  /** A cell ends up as the last operation on it leaves it. */
  lemma {:induction false} RowAfter(db: Db, xs: seq<Write>, t: int, p: seq<int>)
    requires t in db
    ensures t in PersistAll(db, xs).db
    ensures Row(PersistAll(db, xs).db, t, p) ==
            match LastAffecting(xs, t, p)
            case None => Row(db, t, p)
            case Some(w) => Leaves(w)
  {
    PersistKeepsTables(db, xs);
    if xs != [] {
      PersistKeepsTables(db, xs[..|xs| - 1]);
      RowAfter(db, xs[..|xs| - 1], t, p);
      RowStep(PersistAll(db, xs[..|xs| - 1]).db, xs[|xs| - 1], t, p);
    }
  }

  lemma RowStep(db: Db, w: Write, t: int, p: seq<int>)
    requires t in db
    ensures t in PersistWrite(db, w).db
    ensures Row(PersistWrite(db, w).db, t, p) ==
            if Updates(w, t, p) then Some(Columns(w)) else if Deletes(w, t, p) then None else Row(db, t, p)
  {
  }

  // ---- What the write set does with updates and row deletes ----

  ghost predicate RowOp(w: Write) {
    w.Regular() ==> w.noPrimaryKeys == 1 && (w.queryType.Delete? <==> w.noClusteringKeys == 0)
  }

  /** Updates name a cell below a row; deletes name a row. */
  ghost predicate RowOps(ops: seq<Write>) {
    forall i :: 0 <= i < |ops| ==> RowOp(ops[i])
  }

  /** Some update of the cell is issued, and the row is deleted after the last one. */
  ghost predicate LateDelete(ops: seq<Write>, t: int, p: seq<int>) {
    exists i: nat, j: nat :: DeletedAfter(ops, t, p, i, j)
  }

  ghost predicate DeletedAfter(ops: seq<Write>, t: int, p: seq<int>, i: nat, j: nat) {
    && i < j < |ops| && Updates(ops[i], t, p) && Deletes(ops[j], t, p)
    && forall k :: j < k < |ops| ==> !Updates(ops[k], t, p)
  }

  /** Only updates of the same cell replace an update. */
  lemma LastOnCell(queueTables: set<int>, lo: int, ops: seq<Write>, t: int, p: seq<int>, i: nat, y: Write)
    requires Issuable(queueTables, lo, ops) && RowOps(ops) && i < |ops| && Updates(ops[i], t, p)
    requires LastSame(Stamped(ops), Stamped(ops)[i]) == Some(y)
    ensures Updates(y, t, p) && Admissible(queueTables, lo, y) && |p| >= 2
  {
    var st := Stamped(ops);
    AdmissibleAt(queueTables, lo, ops, i);
    LastSameIs(st, st[i], y);
    var k :| 0 <= k < |st| && st[k] == y;
    AdmissibleAt(queueTables, lo, ops, k);
    StampedAt(ops, i);
    StampedAt(ops, k);
    EqualClasses(queueTables, lo, y, st[i]);
  }

  /** What sorts after an update of a cell neither updates that cell nor deletes its row. */
  lemma SortsAfterUpdate(queueTables: set<int>, lo: int, y: Write, v: Write, t: int, p: seq<int>)
    requires Admissible(queueTables, lo, y) && Admissible(queueTables, lo, v) && RowOp(v)
    requires Updates(y, t, p) && |p| >= 2 && WriteCmp(y, v) < 0
    ensures !Affects(v, t, p)
  {
    EqualClasses(queueTables, lo, y, v);
  }

  /** Once the cell is updated, the write set ends with its last update. */
  lemma UpdateSurvives(queueTables: set<int>, lo: int, ops: seq<Write>, t: int, p: seq<int>, i: nat, y: Write)
    requires Issuable(queueTables, lo, ops) && RowOps(ops) && i < |ops| && Updates(ops[i], t, p)
    requires LastSame(Stamped(ops), Stamped(ops)[i]) == Some(y)
    ensures LastAffecting(Values(WriteSetOf(ops)), t, p) == Some(y) && Updates(y, t, p)
  {
    var vs := Values(WriteSetOf(ops));
    LastOnCell(queueTables, lo, ops, t, p, i, y);
    AdmissibleAt(queueTables, lo, ops, i);
    var m := LastIsValue(queueTables, lo, ops, Stamped(ops)[i], y);
    forall j | m < j < |vs|
      ensures !Affects(vs[j], t, p)
    {
      ValuesSorted(queueTables, lo, ops, m, j);
      ValueIsIssued(queueTables, lo, ops, j);
      SortsAfterUpdate(queueTables, lo, y, vs[j], t, p);
    }
    LastAffectingAt(vs, t, p, m);
  }

  lemma AdmissibleAt(queueTables: set<int>, lo: int, ops: seq<Write>, i: nat)
    requires Issuable(queueTables, lo, ops) && i < |ops|
    ensures Admissible(queueTables, lo, Stamped(ops)[i])
  {
    StampedAt(ops, i);
    StampAdmissible(queueTables, lo, ops, i, Stamped(ops)[i].localOrder);
  }

  /** Every value was issued, so it is a cell update or a row delete. */
  lemma ValueIsIssued(queueTables: set<int>, lo: int, ops: seq<Write>, j: nat)
    requires Issuable(queueTables, lo, ops) && RowOps(ops) && j < |WriteSetOf(ops)|
    ensures var v := Values(WriteSetOf(ops))[j];
            && v in Stamped(ops) && Admissible(queueTables, lo, v)
            && RowOp(v)
  {
    ValueIsLast(queueTables, lo, ops, j);
    var k := ValueFromOp(queueTables, lo, ops, j);
    StampedAt(ops, k);
  }

  /** A row deleted but not updated is deleted by the write set as well. */
  lemma DeleteSurvives(queueTables: set<int>, lo: int, ops: seq<Write>, t: int, p: seq<int>, i: nat)
    requires Issuable(queueTables, lo, ops) && RowOps(ops) && i < |ops| && Deletes(ops[i], t, p)
    requires forall j :: 0 <= j < |ops| ==> !Updates(ops[j], t, p)
    ensures LastAffecting(Values(WriteSetOf(ops)), t, p).Some?
    ensures LastAffecting(Values(WriteSetOf(ops)), t, p).value.queryType.Delete?
  {
    var st, vs := Stamped(ops), Values(WriteSetOf(ops));
    AdmissibleAt(queueTables, lo, ops, i);
    EqualClasses(queueTables, lo, st[i], st[i]);
    LastSameExists(st, st[i], i);
    var y := LastSame(st, st[i]).value;
    DeleteClass(queueTables, lo, ops, t, p, i, y);
    var m := LastIsValue(queueTables, lo, ops, st[i], y);
    LastAffectingIs(vs, t, p);
    assert Affects(vs[m], t, p);
    KeptIsIssued(queueTables, lo, ops, t, p);
  }

  /** The last value on a cell is an operation that was issued on it. */
  lemma KeptIsIssued(queueTables: set<int>, lo: int, ops: seq<Write>, t: int, p: seq<int>)
    requires Issuable(queueTables, lo, ops) && RowOps(ops) && LastAffecting(Values(WriteSetOf(ops)), t, p).Some?
    ensures var w := LastAffecting(Values(WriteSetOf(ops)), t, p).value;
            exists n :: 0 <= n < |ops| && Affects(ops[n], t, p) && ops[n].queryType == w.queryType
  {
    var st, vs := Stamped(ops), Values(WriteSetOf(ops));
    LastAffectingIs(vs, t, p);
    var w := LastAffecting(vs, t, p).value;
    var k: nat :| IsLast(vs, t, p, k) && vs[k] == w;
    ValueIsIssued(queueTables, lo, ops, k);
    var n :| 0 <= n < |st| && st[n] == w;
    StampedAt(ops, n);
    assert Affects(ops[n], t, p);
  }

  lemma DeleteClass(queueTables: set<int>, lo: int, ops: seq<Write>, t: int, p: seq<int>, i: nat, y: Write)
    requires Issuable(queueTables, lo, ops) && RowOps(ops) && i < |ops| && Deletes(ops[i], t, p)
    requires LastSame(Stamped(ops), Stamped(ops)[i]) == Some(y)
    ensures Deletes(y, t, p)
  {
    var st := Stamped(ops);
    AdmissibleAt(queueTables, lo, ops, i);
    LastSameIs(st, st[i], y);
    var k :| 0 <= k < |st| && st[k] == y;
    AdmissibleAt(queueTables, lo, ops, k);
    StampedAt(ops, i);
    StampedAt(ops, k);
    EqualClasses(queueTables, lo, y, st[i]);
    SameRowDeleted(y, st[i], t, p);
  }

  lemma SameRowDeleted(y: Write, x: Write, t: int, p: seq<int>)
    requires RowOp(y) && RowOp(x) && SameObject(y, x) && Deletes(x, t, p)
    ensures Deletes(y, t, p)
  {
    assert KeyPath(y)[0] == KeyPath(x)[0];
  }

  /** A cell nobody touches stays untouched. */
  lemma NothingSurvives(queueTables: set<int>, lo: int, ops: seq<Write>, t: int, p: seq<int>)
    requires Issuable(queueTables, lo, ops) && RowOps(ops)
    requires forall j :: 0 <= j < |ops| ==> !Affects(ops[j], t, p)
    ensures LastAffecting(Values(WriteSetOf(ops)), t, p) == None
  {
    if LastAffecting(Values(WriteSetOf(ops)), t, p).Some? {
      KeptIsIssued(queueTables, lo, ops, t, p);
    }
  }

  lemma FinalUpdateSurvives(queueTables: set<int>, lo: int, ops: seq<Write>, t: int, p: seq<int>, k: nat)
    requires Issuable(queueTables, lo, ops) && RowOps(ops) && IsLast(ops, t, p, k) && Updates(ops[k], t, p)
    ensures LastAffecting(Values(WriteSetOf(ops)), t, p) == Some(Stamped(ops)[k])
  {
    var st := Stamped(ops);
    AdmissibleAt(queueTables, lo, ops, k);
    StampedAt(ops, k);
    EqualClasses(queueTables, lo, st[k], st[k]);
    forall j | k < j < |st|
      ensures WriteCmp(st[j], st[k]) != 0
    {
      AdmissibleAt(queueTables, lo, ops, j);
      StampedAt(ops, j);
      EqualClasses(queueTables, lo, st[j], st[k]);
      assert !Affects(ops[j], t, p) && RowOp(ops[j]);
    }
    LastSameAt(st, st[k], k);
    UpdateSurvives(queueTables, lo, ops, t, p, k, st[k]);
  }

  lemma LateDeleteWhenLast(ops: seq<Write>, t: int, p: seq<int>, k: nat)
    requires IsLast(ops, t, p, k)
    ensures LateDelete(ops, t, p) <==> !Updates(ops[k], t, p) && exists i :: 0 <= i < |ops| && Updates(ops[i], t, p)
  {
    if !Updates(ops[k], t, p) {
      if i :| 0 <= i < |ops| && Updates(ops[i], t, p) {
        assert DeletedAfter(ops, t, p, i, k);
      }
    }
  }

  lemma OvertakenUpdateSurvives(queueTables: set<int>, lo: int, ops: seq<Write>, t: int, p: seq<int>, i: nat)
    requires Issuable(queueTables, lo, ops) && RowOps(ops) && i < |ops| && Updates(ops[i], t, p)
    ensures LastAffecting(Values(WriteSetOf(ops)), t, p).Some?
    ensures LastAffecting(Values(WriteSetOf(ops)), t, p).value.queryType.Update?
  {
    var st := Stamped(ops);
    AdmissibleAt(queueTables, lo, ops, i);
    EqualClasses(queueTables, lo, st[i], st[i]);
    LastSameExists(st, st[i], i);
    UpdateSurvives(queueTables, lo, ops, t, p, i, LastSame(st, st[i]).value);
  }

  ghost predicate Effects(ops: seq<Write>, t: int, p: seq<int>, issued: Option<Write>) {
    var kept := LastAffecting(Values(WriteSetOf(ops)), t, p);
    if issued == None then kept == None && !LateDelete(ops, t, p)
    else if LateDelete(ops, t, p) then kept.Some? && kept.value.queryType.Update? && !issued.value.queryType.Update?
    else kept.Some? && Leaves(kept.value) == Leaves(issued.value)
  }

  lemma UpdateIssuedLast(queueTables: set<int>, lo: int, ops: seq<Write>, t: int, p: seq<int>, k: nat)
    requires Issuable(queueTables, lo, ops) && RowOps(ops) && IsLast(ops, t, p, k) && Updates(ops[k], t, p)
    ensures Effects(ops, t, p, Some(ops[k]))
  {
    LateDeleteWhenLast(ops, t, p, k);
    FinalUpdateSurvives(queueTables, lo, ops, t, p, k);
    StampedAt(ops, k);
  }

  lemma DeleteIssuedLast(queueTables: set<int>, lo: int, ops: seq<Write>, t: int, p: seq<int>, k: nat)
    requires Issuable(queueTables, lo, ops) && RowOps(ops) && IsLast(ops, t, p, k) && !Updates(ops[k], t, p)
    ensures Effects(ops, t, p, Some(ops[k]))
  {
    LateDeleteWhenLast(ops, t, p, k);
    if i :| 0 <= i < |ops| && Updates(ops[i], t, p) {
      OvertakenUpdateSurvives(queueTables, lo, ops, t, p, i);
    } else {
      DeleteSurvives(queueTables, lo, ops, t, p, k);
    }
  }

  /** The last operation on a cell in the write set does what the last one issued does, except where
      the row is deleted after the last update of the cell. */
  lemma CellEffects(queueTables: set<int>, lo: int, ops: seq<Write>, t: int, p: seq<int>)
    requires Issuable(queueTables, lo, ops) && RowOps(ops)
    ensures Effects(ops, t, p, LastAffecting(ops, t, p))
  {
    LastAffectingIs(ops, t, p);
    if LastAffecting(ops, t, p) == None {
      NothingSurvives(queueTables, lo, ops, t, p);
    } else {
      var k: nat :| IsLast(ops, t, p, k) && ops[k] == LastAffecting(ops, t, p).value;
      if Updates(ops[k], t, p) {
        UpdateIssuedLast(queueTables, lo, ops, t, p, k);
      } else {
        DeleteIssuedLast(queueTables, lo, ops, t, p, k);
      }
    }
  }

  /** Cell by cell: persisting the write set leaves what the issue order would leave, except where
      the row is deleted after the last update of the cell. There the update comes back to life. */
  lemma CellAgreesIff(queueTables: set<int>, lo: int, db: Db, ops: seq<Write>, t: int, p: seq<int>)
    requires Issuable(queueTables, lo, ops) && RowOps(ops) && t in db
    ensures t in PersistAll(db, Values(WriteSetOf(ops))).db && t in PersistAll(db, ops).db
    ensures Row(PersistAll(db, Values(WriteSetOf(ops))).db, t, p) == Row(PersistAll(db, ops).db, t, p)
            <==> !LateDelete(ops, t, p)
  {
    RowAfter(db, Values(WriteSetOf(ops)), t, p);
    RowAfter(db, ops, t, p);
    CellEffects(queueTables, lo, ops, t, p);
  }

  /** Persisting the write set gives the rows the issue order gives if and only if no row is deleted
      after the last update of one of its cells. */
  lemma PersistMatchesIssueOrderIff(queueTables: set<int>, lo: int, db: Db, ops: seq<Write>, t: int)
    requires Issuable(queueTables, lo, ops) && RowOps(ops) && t in db
    ensures t in PersistAll(db, Values(WriteSetOf(ops))).db && t in PersistAll(db, ops).db
    ensures PersistAll(db, Values(WriteSetOf(ops))).db[t].rows == PersistAll(db, ops).db[t].rows
            <==> forall p :: !LateDelete(ops, t, p)
  {
    PersistKeepsTables(db, Values(WriteSetOf(ops)));
    PersistKeepsTables(db, ops);
    var a, b := PersistAll(db, Values(WriteSetOf(ops))).db, PersistAll(db, ops).db;
    forall p
      ensures Row(a, t, p) == Row(b, t, p) <==> !LateDelete(ops, t, p)
    {
      CellAgreesIff(queueTables, lo, db, ops, t, p);
    }
    if forall p :: !LateDelete(ops, t, p) {
      SameRows(a, b, t);
    }
  }

  lemma SameRows(a: Db, b: Db, t: int)
    requires t in a && t in b && forall p :: Row(a, t, p) == Row(b, t, p)
    ensures a[t].rows == b[t].rows
  {
    assert forall p :: p in a[t].rows ==> Row(a, t, p) == Some(a[t].rows[p]);
    assert forall p :: p in b[t].rows ==> Row(b, t, p) == Some(b[t].rows[p]);
  }

  const SAMPLE_UPDATE: Write := TxnWrite(Update, 7, [1, 2, 5], 1, 1, 0, 0, 0, 0, 0, 0, 0)
  const SAMPLE_DELETE: Write := TxnWrite(Delete, 7, [1], 1, 0, 0, 0, 0, 0, 0, 0, 0)

  /** A transaction that updates cell (1, 2) and then deletes row 1 keeps the cell. */
  lemma DeletedCellComesBack(db: Db)
    requires 7 in db
    ensures var ops, p := [SAMPLE_UPDATE, SAMPLE_DELETE], [1, 2];
            && 7 in PersistAll(db, ops).db && Row(PersistAll(db, ops).db, 7, p) == None
            && 7 in PersistAll(db, Values(WriteSetOf(ops))).db
            && Row(PersistAll(db, Values(WriteSetOf(ops))).db, 7, p) != None
  {
    var ops, p := [SAMPLE_UPDATE, SAMPLE_DELETE], [1, 2];
    assert KeyPath(SAMPLE_UPDATE) == p;
    assert DeletedAfter(ops, 7, p, 0, 1);
    CellAgreesIff({}, 0, db, ops, 7, p);
    LastAffectingAt(ops, 7, p, 1);
    RowAfter(db, ops, 7, p);
  }
}
