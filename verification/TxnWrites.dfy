/** Operations in a transaction's write set and the comparator that orders them. */
module TxnWrites {
  import opened Order

  datatype QueryType =
    | Update | Delete
    | Enqueue | ReadQueue | ConsumeQueue | CreateQueue | DeleteQueue | SubscribeQueue | UnsubscribeQueue

  /** The QUERY_TYPE_* constants; the gap holds the read queries. */
  function Code(q: QueryType): nat {
    match q
    case Update => 0
    case Delete => 1
    case Enqueue => 9
    case ReadQueue => 10
    case ConsumeQueue => 11
    case CreateQueue => 12
    case DeleteQueue => 13
    case SubscribeQueue => 14
    case UnsubscribeQueue => 15
  }

  datatype TxnWrite = TxnWrite(
    queryType: QueryType,
    tableKey: int,
    columnValues: seq<int>,
    noPrimaryKeys: nat,
    noClusteringKeys: nat,
    queueId: int,
    consumerId: int,
    shardId: int,
    appId: int,
    newReadHead: int,
    newConsumeHead: int,
    localOrder: int)
  {
    predicate Regular() {
      queryType.Update? || queryType.Delete?
    }

    /** Read and consume heads are kept per consumer; only the last one of a transaction matters. */
    predicate PerConsumer() {
      queryType.ReadQueue? || queryType.ConsumeQueue?
    }
  }

  predicate WellFormed(w: TxnWrite) {
    w.noPrimaryKeys + w.noClusteringKeys <= |w.columnValues|
  }

  const NOTHING: TxnWrite := TxnWrite(Update, 0, [], 0, 0, 0, 0, 0, 0, 0, 0, 0)

  type Write = w: TxnWrite | WellFormed(w) witness NOTHING

  function KeyPath(w: Write): seq<int> {
    w.columnValues[..w.noPrimaryKeys + w.noClusteringKeys]
  }

  function KeysCmp(a: seq<int>, b: seq<int>): int
    requires |a| == |b|
  {
    if a == [] then 0
    else if a[0] != b[0] then Trunc32(Trunc32(a[0]) - b[0])
    else KeysCmp(a[1..], b[1..])
  }

  function WriteCmp(a: Write, b: Write): int {
    if a.tableKey != b.tableKey then
      LongCmp(a.tableKey, b.tableKey)
    else if Code(a.queryType) < Code(Enqueue) then
      var n, m := |KeyPath(a)|, |KeyPath(b)|;
      if n != m then n - m else KeysCmp(KeyPath(a), KeyPath(b))
    else if a.queryType != b.queryType then
      Code(a.queryType) - Code(b.queryType)
    else if a.PerConsumer() then
      if a.queueId != b.queueId then LongCmp(a.queueId, b.queueId)
      else if a.appId != b.appId then LongCmp(a.appId, b.appId)
      else if a.shardId != b.shardId then LongCmp(a.shardId, b.shardId)
      else if a.consumerId != b.consumerId then LongCmp(a.consumerId, b.consumerId)
      else 0
    else if a.queryType.DeleteQueue? then
      0
    else if a.localOrder != b.localOrder then
      LongCmp(a.localOrder, b.localOrder)
    else
      0
  }

  // ---- What the comparator means ----

  /** Regular and queue operations go to different tables, and every compared word lies in one
      window of length 2^31, where truncation to int keeps the sign of a difference. */
  ghost predicate Admissible(queueTables: set<int>, lo: int, w: Write) {
    && (w.Regular() <==> w.tableKey !in queueTables)
    && InWindow(lo, w.tableKey) && InWindow(lo, w.localOrder)
    && InWindow(lo, w.queueId) && InWindow(lo, w.appId) && InWindow(lo, w.shardId) && InWindow(lo, w.consumerId)
    && forall i :: 0 <= i < |w.columnValues| ==> InWindow(lo, w.columnValues[i])
  }

  ghost function Dom(queueTables: set<int>, lo: int): iset<Write> {
    iset w: Write | Admissible(queueTables, lo, w)
  }

  /** The words a write is sorted by, most significant first. */
  ghost function SortKey(w: Write): seq<int> {
    if w.Regular() then [w.tableKey, |KeyPath(w)|] + KeyPath(w)
    else if w.PerConsumer() then
      [w.tableKey, Code(w.queryType), w.queueId, w.appId, w.shardId, w.consumerId]
    else if w.queryType.DeleteQueue? then [w.tableKey, Code(w.queryType)]
    else [w.tableKey, Code(w.queryType), w.localOrder]
  }

  ghost predicate LexLess(a: seq<int>, b: seq<int>) {
    if a == [] then b != []
    else b != [] && (a[0] < b[0] || (a[0] == b[0] && LexLess(a[1..], b[1..])))
  }

  lemma {:induction false} LexTrans(a: seq<int>, b: seq<int>, c: seq<int>)
    requires LexLess(a, b) && LexLess(b, c)
    ensures LexLess(a, c)
  {
    if a != [] && a[0] == b[0] && b[0] == c[0] {
      LexTrans(a[1..], b[1..], c[1..]);
    }
  }

  lemma {:induction false} LexTotal(a: seq<int>, b: seq<int>)
    ensures LexLess(a, b) || a == b || LexLess(b, a)
    ensures !(LexLess(a, b) && LexLess(b, a)) && (a == b ==> !LexLess(a, b))
  {
    if a != [] && b != [] && a[0] == b[0] {
      LexTotal(a[1..], b[1..]);
      assert a == [a[0]] + a[1..] && b == [b[0]] + b[1..];
    }
  }

  lemma {:induction false} KeysCmpIsLex(a: seq<int>, b: seq<int>, lo: int)
    requires |a| == |b|
    requires forall i :: 0 <= i < |a| ==> InWindow(lo, a[i]) && InWindow(lo, b[i])
    ensures KeysCmp(a, b) < 0 <==> LexLess(a, b)
    ensures KeysCmp(a, b) == 0 <==> a == b
  {
    if a != [] {
      if a[0] == b[0] {
        KeysCmpIsLex(a[1..], b[1..], lo);
        assert a == [a[0]] + a[1..] && b == [b[0]] + b[1..];
      } else {
        assert InWindow(lo, a[0]) && InWindow(lo, b[0]);
      }
    }
  }

  lemma LexCons(x: int, a: seq<int>, y: int, b: seq<int>)
    ensures LexLess([x] + a, [y] + b) <==> x < y || (x == y && LexLess(a, b))
    ensures [x] + a == [y] + b <==> x == y && a == b
  {
    assert ([x] + a)[1..] == a && ([y] + b)[1..] == b;
    assert ([x] + a)[0] == x && ([y] + b)[0] == y;
  }

  /** The words after table key and type, for operations of the same type on the same table. */
  ghost function Rest(w: Write): seq<int> {
    if w.Regular() then KeyPath(w)
    else if w.PerConsumer() then [w.queueId] + ([w.appId] + ([w.shardId] + ([w.consumerId] + [])))
    else if w.queryType.DeleteQueue? then []
    else [w.localOrder] + []
  }

  lemma ConsumerLex(a: Write, b: Write)
    requires a.PerConsumer() && b.PerConsumer()
    ensures LexLess(Rest(a), Rest(b)) <==>
            || a.queueId < b.queueId
            || (a.queueId == b.queueId &&
                (|| a.appId < b.appId
                 || (a.appId == b.appId &&
                     (a.shardId < b.shardId || (a.shardId == b.shardId && a.consumerId < b.consumerId)))))
    ensures Rest(a) == Rest(b) <==>
            a.queueId == b.queueId && a.appId == b.appId && a.shardId == b.shardId && a.consumerId == b.consumerId
  {
    LexCons(a.consumerId, [], b.consumerId, []);
    LexCons(a.shardId, [a.consumerId] + [], b.shardId, [b.consumerId] + []);
    LexCons(a.appId, [a.shardId] + ([a.consumerId] + []), b.appId, [b.shardId] + ([b.consumerId] + []));
    LexCons(a.queueId, [a.appId] + ([a.shardId] + ([a.consumerId] + [])),
            b.queueId, [b.appId] + ([b.shardId] + ([b.consumerId] + [])));
  }

  ghost function Second(w: Write): int {
    if w.Regular() then |KeyPath(w)| else Code(w.queryType)
  }

  lemma SortKeyLex(a: Write, b: Write)
    ensures LexLess(SortKey(a), SortKey(b)) <==>
            || a.tableKey < b.tableKey
            || (a.tableKey == b.tableKey &&
                (Second(a) < Second(b) || (Second(a) == Second(b) && LexLess(Rest(a), Rest(b)))))
    ensures SortKey(a) == SortKey(b) <==> a.tableKey == b.tableKey && Second(a) == Second(b) && Rest(a) == Rest(b)
  {
    assert SortKey(a) == [a.tableKey] + ([Second(a)] + Rest(a));
    assert SortKey(b) == [b.tableKey] + ([Second(b)] + Rest(b));
    LexCons(a.tableKey, [Second(a)] + Rest(a), b.tableKey, [Second(b)] + Rest(b));
    LexCons(Second(a), Rest(a), Second(b), Rest(b));
  }

  ghost predicate SameSign(c: int, less: bool, equal: bool) {
    (c < 0 <==> less) && (c == 0 <==> equal)
  }

  lemma WindowSign(lo: int, a: int, b: int)
    requires InWindow(lo, a) && InWindow(lo, b)
    ensures SameSign(LongCmp(a, b), a < b, a == b)
  {
  }

  lemma ConsumerCmp(lo: int, a: Write, b: Write)
    requires a.PerConsumer() && a.queryType == b.queryType && a.tableKey == b.tableKey
    requires InWindow(lo, a.queueId) && InWindow(lo, a.appId) && InWindow(lo, a.shardId) && InWindow(lo, a.consumerId)
    requires InWindow(lo, b.queueId) && InWindow(lo, b.appId) && InWindow(lo, b.shardId) && InWindow(lo, b.consumerId)
    ensures SameSign(WriteCmp(a, b), LexLess(Rest(a), Rest(b)), Rest(a) == Rest(b))
  {
    ConsumerLex(a, b);
    WindowSign(lo, a.queueId, b.queueId);
    WindowSign(lo, a.appId, b.appId);
    WindowSign(lo, a.shardId, b.shardId);
    WindowSign(lo, a.consumerId, b.consumerId);
  }

  lemma SameKindCmp(queueTables: set<int>, lo: int, a: Write, b: Write)
    requires Admissible(queueTables, lo, a) && Admissible(queueTables, lo, b)
    requires a.tableKey == b.tableKey && Second(a) == Second(b)
    ensures SameSign(WriteCmp(a, b), LexLess(Rest(a), Rest(b)), Rest(a) == Rest(b))
  {
    if a.Regular() {
      KeysCmpIsLex(KeyPath(a), KeyPath(b), lo);
    } else if a.PerConsumer() {
      ConsumerCmp(lo, a, b);
    } else {
      WindowSign(lo, a.localOrder, b.localOrder);
      LexCons(a.localOrder, [], b.localOrder, []);
    }
  }

  /** The comparator computes the lexicographic order of the sort keys. */
  lemma WriteCmpIsLex(queueTables: set<int>, lo: int, a: Write, b: Write)
    requires Admissible(queueTables, lo, a) && Admissible(queueTables, lo, b)
    ensures WriteCmp(a, b) < 0 <==> LexLess(SortKey(a), SortKey(b))
    ensures WriteCmp(a, b) == 0 <==> SortKey(a) == SortKey(b)
  {
    SortKeyLex(a, b);
    if a.tableKey != b.tableKey {
      WindowSign(lo, a.tableKey, b.tableKey);
    } else if Second(a) == Second(b) {
      SameKindCmp(queueTables, lo, a, b);
    }
  }

  lemma WriteCmpPreorder(queueTables: set<int>, lo: int)
    ensures TotalPreorder(WriteCmp, Dom(queueTables, lo))
  {
    var dom := Dom(queueTables, lo);
    forall a, b | a in dom && b in dom
      ensures WriteCmp(a, b) < 0 <==> WriteCmp(b, a) > 0
    {
      WriteCmpIsLex(queueTables, lo, a, b);
      WriteCmpIsLex(queueTables, lo, b, a);
      LexTotal(SortKey(a), SortKey(b));
    }
    forall a, b, c | a in dom && b in dom && c in dom && Chain(a, b, c) && WriteCmp(a, b) <= 0 && WriteCmp(b, c) <= 0
      ensures WriteCmp(a, c) <= 0
    {
      WriteCmpIsLex(queueTables, lo, a, b);
      WriteCmpIsLex(queueTables, lo, b, c);
      WriteCmpIsLex(queueTables, lo, a, c);
      LexTotal(SortKey(a), SortKey(c));
      if LexLess(SortKey(a), SortKey(b)) && LexLess(SortKey(b), SortKey(c)) {
        LexTrans(SortKey(a), SortKey(b), SortKey(c));
      }
    }
  }

  /** When two operations of one transaction replace each other in its write set. */
  ghost predicate SameObject(a: Write, b: Write) {
    && a.tableKey == b.tableKey
    && if a.Regular() then b.Regular() && KeyPath(a) == KeyPath(b)
       else
         && a.queryType == b.queryType
         && (a.PerConsumer() ==>
               a.queueId == b.queueId && a.appId == b.appId && a.shardId == b.shardId && a.consumerId == b.consumerId)
         && (!a.PerConsumer() && !a.queryType.DeleteQueue? ==> a.localOrder == b.localOrder)
  }

  lemma EqualClasses(queueTables: set<int>, lo: int, a: Write, b: Write)
    requires Admissible(queueTables, lo, a) && Admissible(queueTables, lo, b)
    ensures WriteCmp(a, b) == 0 <==> SameObject(a, b)
  {
    if a.tableKey == b.tableKey && a.Regular() && |KeyPath(a)| == |KeyPath(b)| {
      KeysCmpIsLex(KeyPath(a), KeyPath(b), lo);
    }
  }

  /** The comparator reads the type of its first argument only, so on a table that mixes regular
      and queue operations it is not even antisymmetric. */
  lemma MixedTableBreaksOrder()
    ensures exists a: Write, b: Write :: WriteCmp(a, b) > 0 && WriteCmp(b, a) > 0
  {
    var a: Write := NOTHING.(columnValues := [7], noPrimaryKeys := 1);
    var b: Write := NOTHING.(queryType := Enqueue);
    assert WriteCmp(a, b) == 1 && WriteCmp(b, a) == 9;
  }
}
