/** A transaction's write set: a skiplist of writes under WriteCmp, filled in issue order. */
module WriteSets {
  import opened Order
  import opened SortedSeq
  import opened TxnWrites

  type WriteSet = seq<Entry<Write, Write>>

  /** Each operation is stamped with the number of items in the set when it is issued. */
  function Stamp(op: Write, order: int): Write {
    op.(localOrder := order)
  }

  /** skiplist_insert keeps the key of an entry it overwrites. */
  function Add(ws: WriteSet, op: Write): WriteSet {
    Put(WriteCmp, ws, Stamp(op, |ws|), Stamp(op, |ws|))
  }

  function WriteSetOf(ops: seq<Write>): WriteSet {
    if ops == [] then [] else Add(WriteSetOf(ops[..|ops| - 1]), ops[|ops| - 1])
  }

  /** The issued operations with their stamps. */
  function Stamped(ops: seq<Write>): (r: seq<Write>)
    ensures |r| == |ops|
  {
    if ops == [] then []
    else
      var before := ops[..|ops| - 1];
      Stamped(before) + [Stamp(ops[|ops| - 1], |WriteSetOf(before)|)]
  }

  /** The operations of one transaction, fewer than 2^31 of them, in the range where WriteCmp is an order. */
  ghost predicate Issuable(queueTables: set<int>, lo: int, ops: seq<Write>) {
    && lo <= 0 && |ops| < lo + TWO31
    && forall i :: 0 <= i < |ops| ==> Admissible(queueTables, lo, Stamp(ops[i], 0))
  }

  lemma IssuablePrefix(queueTables: set<int>, lo: int, ops: seq<Write>)
    requires Issuable(queueTables, lo, ops) && ops != []
    ensures Issuable(queueTables, lo, ops[..|ops| - 1])
  {
    var before := ops[..|ops| - 1];
    assert forall i :: 0 <= i < |before| ==> before[i] == ops[i];
  }

  lemma StampAdmissible(queueTables: set<int>, lo: int, ops: seq<Write>, i: nat, n: nat)
    requires Issuable(queueTables, lo, ops) && i < |ops| && n <= |ops|
    ensures Admissible(queueTables, lo, Stamp(ops[i], n))
  {
    assert Admissible(queueTables, lo, Stamp(ops[i], 0));
  }

  /** A write set is ordered and no larger than the number of operations issued. */
  lemma {:induction false} WriteSetOrdered(queueTables: set<int>, lo: int, ops: seq<Write>)
    requires Issuable(queueTables, lo, ops)
    ensures Ordered(WriteCmp, Dom(queueTables, lo), WriteSetOf(ops)) && |WriteSetOf(ops)| <= |ops|
  {
    WriteCmpPreorder(queueTables, lo);
    if ops != [] {
      var before, op := ops[..|ops| - 1], ops[|ops| - 1];
      IssuablePrefix(queueTables, lo, ops);
      WriteSetOrdered(queueTables, lo, before);
      var ws := WriteSetOf(before);
      StampAdmissible(queueTables, lo, ops, |ops| - 1, |ws|);
      PutKeepsOrder(WriteCmp, Dom(queueTables, lo), ws, Stamp(op, |ws|), Stamp(op, |ws|));
    }
  }

  /** The last of a sequence of writes that compares equal to q. */
  ghost function LastSame(xs: seq<Write>, q: Write): Option<Write> {
    if xs == [] then None
    else if WriteCmp(xs[|xs| - 1], q) == 0 then Some(xs[|xs| - 1])
    else LastSame(xs[..|xs| - 1], q)
  }

  /** Last write wins: the set holds, for each object, the operation last issued on it. */
  lemma {:induction false} LastWriteWins(queueTables: set<int>, lo: int, ops: seq<Write>, q: Write)
    requires Issuable(queueTables, lo, ops) && Admissible(queueTables, lo, q)
    ensures Get(WriteCmp, WriteSetOf(ops), q) == LastSame(Stamped(ops), q)
  {
    if ops != [] {
      var before, op := ops[..|ops| - 1], ops[|ops| - 1];
      IssuablePrefix(queueTables, lo, ops);
      WriteSetOrdered(queueTables, lo, before);
      LastWriteWins(queueTables, lo, before, q);
      var ws := WriteSetOf(before);
      var w := Stamp(op, |ws|);
      StampAdmissible(queueTables, lo, ops, |ops| - 1, |ws|);
      GetAfterPut(WriteCmp, Dom(queueTables, lo), ws, w, w, q);
      assert Stamped(ops)[..|ops| - 1] == Stamped(before);
    }
  }

  lemma {:induction false} StampedAt(ops: seq<Write>, i: nat)
    requires i < |ops|
    ensures Stamped(ops)[i] == Stamp(ops[i], Stamped(ops)[i].localOrder)
    ensures 0 <= Stamped(ops)[i].localOrder <= i
  {
    var before := ops[..|ops| - 1];
    if i < |ops| - 1 {
      StampedAt(before, i);
    } else {
      SizeBound(before);
    }
  }

  lemma {:induction false} SizeBound(ops: seq<Write>)
    ensures |WriteSetOf(ops)| <= |ops|
  {
    if ops != [] {
      SizeBound(ops[..|ops| - 1]);
    }
  }

  // ---- The values a persist goes through ----

  ghost predicate Paired(queueTables: set<int>, lo: int, ws: WriteSet) {
    forall i :: 0 <= i < |ws| ==>
      Admissible(queueTables, lo, ws[i].key) && Admissible(queueTables, lo, ws[i].value) &&
        WriteCmp(ws[i].key, ws[i].value) == 0
  }

  lemma {:induction false} WriteSetPaired(queueTables: set<int>, lo: int, ops: seq<Write>)
    requires Issuable(queueTables, lo, ops)
    ensures Paired(queueTables, lo, WriteSetOf(ops))
  {
    if ops != [] {
      var before, op := ops[..|ops| - 1], ops[|ops| - 1];
      IssuablePrefix(queueTables, lo, ops);
      WriteSetOrdered(queueTables, lo, before);
      WriteSetPaired(queueTables, lo, before);
      var ws := WriteSetOf(before);
      StampAdmissible(queueTables, lo, ops, |ops| - 1, |ws|);
      PutPaired(queueTables, lo, ws, Stamp(op, |ws|));
    }
  }

  lemma PutPaired(queueTables: set<int>, lo: int, ws: WriteSet, w: Write)
    requires Ordered(WriteCmp, Dom(queueTables, lo), ws) && Paired(queueTables, lo, ws) &&
             Admissible(queueTables, lo, w)
    ensures Paired(queueTables, lo, Put(WriteCmp, ws, w, w))
  {
    var ws', r := Put(WriteCmp, ws, w, w), Rank(WriteCmp, ws, w);
    EqualClasses(queueTables, lo, w, w);
    if Has(WriteCmp, ws, w) {
      HasIffStored(WriteCmp, Dom(queueTables, lo), ws, w);
    }
    forall i | 0 <= i < |ws'|
      ensures Admissible(queueTables, lo, ws'[i].key) && Admissible(queueTables, lo, ws'[i].value)
      ensures WriteCmp(ws'[i].key, ws'[i].value) == 0
    {
      if i != r {
        assert ws'[i] == ws[if Has(WriteCmp, ws, w) || i < r then i else i - 1];
      }
    }
  }

  /** The values are in strictly increasing order, so no two touch the same object. */
  lemma ValuesSorted(queueTables: set<int>, lo: int, ops: seq<Write>, i: nat, j: nat)
    requires Issuable(queueTables, lo, ops) && i < j < |WriteSetOf(ops)|
    ensures WriteCmp(Values(WriteSetOf(ops))[i], Values(WriteSetOf(ops))[j]) < 0
  {
    var ws := WriteSetOf(ops);
    WriteSetOrdered(queueTables, lo, ops);
    WriteSetPaired(queueTables, lo, ops);
    var dom := Dom(queueTables, lo);
    EqualActsAlike(WriteCmp, dom, ws[i].key, ws[i].value, ws[j].key);
    assert WriteCmp(ws[i].value, ws[j].key) < 0;
    StrictlyBelow(WriteCmp, dom, ws[i].value, ws[j].key, ws[j].value);
  }

  /** Every value is the last issued operation on its object. */
  lemma ValueIsLast(queueTables: set<int>, lo: int, ops: seq<Write>, i: nat)
    requires Issuable(queueTables, lo, ops) && i < |WriteSetOf(ops)|
    ensures var v := Values(WriteSetOf(ops))[i];
            Admissible(queueTables, lo, v) && LastSame(Stamped(ops), v) == Some(v)
  {
    var ws := WriteSetOf(ops);
    WriteSetOrdered(queueTables, lo, ops);
    WriteSetPaired(queueTables, lo, ops);
    GetFinds(WriteCmp, Dom(queueTables, lo), ws, ws[i].value, i);
    LastWriteWins(queueTables, lo, ops, ws[i].value);
  }

  /** Every issued object is present: the last operation on it is among the values. */
  lemma LastIsValue(queueTables: set<int>, lo: int, ops: seq<Write>, q: Write, y: Write) returns (i: nat)
    requires Issuable(queueTables, lo, ops) && Admissible(queueTables, lo, q)
    requires LastSame(Stamped(ops), q) == Some(y)
    ensures i < |WriteSetOf(ops)| && Values(WriteSetOf(ops))[i] == y
  {
    LastWriteWins(queueTables, lo, ops, q);
    i := Rank(WriteCmp, WriteSetOf(ops), q);
  }

  lemma {:induction false} LastSameIs(xs: seq<Write>, q: Write, y: Write)
    requires LastSame(xs, q) == Some(y)
    ensures y in xs && WriteCmp(y, q) == 0
  {
    if WriteCmp(xs[|xs| - 1], q) != 0 {
      LastSameIs(xs[..|xs| - 1], q, y);
    }
  }

  lemma {:induction false} LastSameExists(xs: seq<Write>, q: Write, i: nat)
    requires i < |xs| && WriteCmp(xs[i], q) == 0
    ensures LastSame(xs, q).Some?
  {
    if WriteCmp(xs[|xs| - 1], q) != 0 {
      LastSameExists(xs[..|xs| - 1], q, i);
    }
  }

  lemma {:induction false} LastSameAt(xs: seq<Write>, q: Write, k: nat)
    requires k < |xs| && WriteCmp(xs[k], q) == 0
    requires forall j :: k < j < |xs| ==> WriteCmp(xs[j], q) != 0
    ensures LastSame(xs, q) == Some(xs[k])
  {
    if k < |xs| - 1 {
      LastSameAt(xs[..|xs| - 1], q, k);
    }
  }

  /** Every value was issued. */
  lemma ValueFromOp(queueTables: set<int>, lo: int, ops: seq<Write>, i: nat) returns (k: nat)
    requires Issuable(queueTables, lo, ops) && i < |WriteSetOf(ops)|
    ensures k < |ops| && Values(WriteSetOf(ops))[i] == Stamped(ops)[k]
  {
    var vs := Values(WriteSetOf(ops));
    ValueIsLast(queueTables, lo, ops, i);
    LastSameIs(Stamped(ops), vs[i], vs[i]);
    k :| 0 <= k < |ops| && Stamped(ops)[k] == vs[i];
  }

  /** A search finds only what was issued. */
  lemma FoundIsIssued(queueTables: set<int>, lo: int, ops: seq<Write>, q: Write) returns (k: nat)
    requires Issuable(queueTables, lo, ops) && Admissible(queueTables, lo, q) && Has(WriteCmp, WriteSetOf(ops), q)
    ensures k < |ops| && SameObject(Stamped(ops)[k], q)
  {
    var st := Stamped(ops);
    LastWriteWins(queueTables, lo, ops, q);
    var y := LastSame(st, q).value;
    LastSameIs(st, q, y);
    k :| 0 <= k < |st| && st[k] == y;
    StampedAt(ops, k);
    StampAdmissible(queueTables, lo, ops, k, y.localOrder);
    EqualClasses(queueTables, lo, y, q);
  }
}
