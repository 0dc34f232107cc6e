/** The consistent hash ring: buckets at the positions of their hashed ids, with a count of the live
    ones. An object belongs to the first live bucket clockwise from its own position. The ring is a
    list under some comparator of positions. Where the comparator does not order the positions, the
    list is taken as it is when all its nodes are on the lowest level. */
module HashRings {
  import opened Order
  import opened SortedSeq
  import opened Hashes

  const BUCKET_LIVE := 0
  const BUCKET_DEAD := 1

  datatype Bucket = Bucket(id: Word32, status: int)

  type Ring = seq<Entry<int, Bucket>>

  /** The hash function; all there is to know about it is that it has no collisions. */
  type Hash = Word32 -> Word32

  ghost predicate Injective(hash: Hash) {
    forall x, y :: hash(x) == hash(y) ==> x == y
  }

  lemma Hash32Injective()
    ensures Injective(Hash32)
  {
    forall x, y | Hash32(x) == Hash32(y)
      ensures x == y
    {
      NoCollision(x, y);
    }
  }

  // ---- Positions in order ----

  type Cmp = (int, int) -> int

  predicate Position(k: int) {
    0 <= k < TWO32
  }

  /** How far position k is from position h, going clockwise. */
  function Distance(h: int, k: int): int {
    if k >= h then k - h else k - h + TWO32
  }

  /** The comparator puts the positions in a domain in clockwise order, starting from `base`. */
  ghost predicate OrdersFrom(cmp: Cmp, dom: iset<int>, base: int) {
    && Position(base)
    && forall a, b :: a in dom && b in dom ==>
         (cmp(a, b) < 0 <==> Distance(base, a) < Distance(base, b)) && (cmp(a, b) == 0 <==> a == b)
  }

  ghost predicate Orders(cmp: Cmp, dom: iset<int>) {
    (forall a :: a in dom ==> Position(a)) && exists base :: OrdersFrom(cmp, dom, base)
  }

  lemma OrdersIsPreorder(cmp: Cmp, dom: iset<int>)
    requires Orders(cmp, dom)
    ensures TotalPreorder(cmp, dom)
  {
    var base :| OrdersFrom(cmp, dom, base);
    forall a, b, c | a in dom && b in dom && c in dom && Chain(a, b, c) && cmp(a, b) <= 0 && cmp(b, c) <= 0
      ensures cmp(a, c) <= 0
    {
    }
  }

  /** The intended order is one for all positions. */
  lemma IdCmpOrders()
    ensures Orders(IdCmp, iset k | Position(k))
  {
    assert OrdersFrom(IdCmp, iset k | Position(k), 0);
  }

  /** The domain lies on an arc of less than half the circle, clockwise from lo. */
  ghost predicate OnArc(dom: iset<int>, lo: int) {
    Position(lo) && forall k :: k in dom ==> Position(k) && Distance(lo, k) < TWO31
  }

  lemma TruncTurns(x: int, n: int)
    ensures Trunc32(x + n * TWO32) == Trunc32(x)
  {
    assert (x + n * TWO32) % TWO32 == x % TWO32;
  }

  lemma LongCmpOnArc(lo: int, a: int, b: int)
    requires Position(lo) && Position(a) && Position(b) && Distance(lo, a) < TWO31 && Distance(lo, b) < TWO31
    ensures LongCmp(a, b) == Distance(lo, a) - Distance(lo, b)
  {
    var d := Distance(lo, a) - Distance(lo, b);
    var n := (if a >= lo then 0 else -1) - (if b >= lo then 0 else -1);
    assert a - b == d + n * TWO32;
    TruncTurns(d, n);
  }

  /** The comparator the ring is created with is one for the positions on an arc. */
  lemma LongCmpOrders(dom: iset<int>, lo: int)
    requires OnArc(dom, lo)
    ensures Orders(LongCmp, dom)
  {
    forall a, b | a in dom && b in dom
      ensures LongCmp(a, b) == Distance(lo, a) - Distance(lo, b)
    {
      LongCmpOnArc(lo, a, b);
    }
    assert OrdersFrom(LongCmp, dom, lo);
  }

  lemma {:induction false} Nearest(dom: iset<int>, base: int, k: int) returns (m: int)
    requires k in dom && Position(base) && forall a :: a in dom ==> Position(a)
    ensures m in dom && forall a :: a in dom ==> Distance(base, m) <= Distance(base, a)
    decreases Distance(base, k)
  {
    if a :| a in dom && Distance(base, a) < Distance(base, k) {
      m := Nearest(dom, base, a);
    } else {
      m := k;
    }
  }

  /** And on no others. */
  lemma LongCmpOrdersIff(dom: iset<int>)
    ensures Orders(LongCmp, dom) <==> exists lo :: OnArc(dom, lo)
  {
    if lo :| OnArc(dom, lo) {
      LongCmpOrders(dom, lo);
    }
    if Orders(LongCmp, dom) {
      var lo := ArcOf(dom);
    }
  }

  lemma AheadIsNear(lo: int, a: int)
    requires Position(lo) && Position(a) && LongCmp(a, lo) >= 0
    ensures Distance(lo, a) < TWO31
  {
  }

  lemma ArcOf(dom: iset<int>) returns (lo: int)
    requires Orders(LongCmp, dom)
    ensures OnArc(dom, lo)
  {
    var base :| OrdersFrom(LongCmp, dom, base);
    if k :| k in dom {
      lo := Nearest(dom, base, k);
      forall a | a in dom
        ensures Distance(lo, a) < TWO31
      {
        AheadIsNear(lo, a);
      }
    } else {
      lo := 0;
    }
  }

  ghost predicate RingOk(cmp: Cmp, dom: iset<int>, hash: Hash, ring: Ring) {
    && Orders(cmp, dom) && Sorted(cmp, ring) && Within(ring, dom)
    && forall i :: 0 <= i < |ring| ==> ring[i].key == hash(ring[i].value.id)
  }

  /** The positions follow each other clockwise along the ring, starting from `base`. */
  ghost predicate Rising(base: int, ring: Ring) {
    && Position(base)
    && forall i, j :: 0 <= i < j < |ring| ==>
         Position(ring[i].key) && Position(ring[j].key) && Distance(base, ring[i].key) < Distance(base, ring[j].key)
  }

  lemma RingIsOrdered(cmp: Cmp, dom: iset<int>, hash: Hash, ring: Ring)
    requires RingOk(cmp, dom, hash, ring)
    ensures Ordered(cmp, dom, ring)
  {
    OrdersIsPreorder(cmp, dom);
  }

  lemma RingRises(cmp: Cmp, dom: iset<int>, hash: Hash, ring: Ring, base: int)
    requires RingOk(cmp, dom, hash, ring) && OrdersFrom(cmp, dom, base)
    ensures Rising(base, ring)
  {
    forall i, j | 0 <= i < j < |ring|
      ensures Position(ring[i].key) && Position(ring[j].key) &&
              Distance(base, ring[i].key) < Distance(base, ring[j].key)
    {
      assert cmp(ring[i].key, ring[j].key) < 0 && ring[i].key in dom && ring[j].key in dom;
    }
  }

  lemma RingKeysDiffer(cmp: Cmp, dom: iset<int>, hash: Hash, ring: Ring, i: nat, j: nat)
    requires RingOk(cmp, dom, hash, ring) && i < |ring| && j < |ring| && i != j
    ensures ring[i].key != ring[j].key
  {
    var base :| OrdersFrom(cmp, dom, base);
    assert i < j ==> cmp(ring[i].key, ring[j].key) < 0;
    assert j < i ==> cmp(ring[j].key, ring[i].key) < 0;
    assert ring[i].key in dom && ring[j].key in dom;
  }

  predicate IsLive(e: Entry<int, Bucket>) {
    e.value.status == BUCKET_LIVE
  }

  function LiveCount(ring: Ring): nat {
    if ring == [] then 0 else LiveCount(ring[..|ring| - 1]) + if IsLive(ring[|ring| - 1]) then 1 else 0
  }

  lemma {:induction false} NoneLive(ring: Ring)
    ensures LiveCount(ring) == 0 <==> forall i :: 0 <= i < |ring| ==> !IsLive(ring[i])
  {
    if ring != [] {
      NoneLive(ring[..|ring| - 1]);
    }
  }

  // ---- The counter ----

  function LiveUnit(b: Bucket): nat {
    if b.status == BUCKET_LIVE then 1 else 0
  }

  lemma {:induction false} LiveConcat(a: Ring, b: Ring)
    ensures LiveCount(a + b) == LiveCount(a) + LiveCount(b)
  {
    if b == [] {
      assert a + b == a;
    } else {
      assert (a + b)[..|a + b| - 1] == a + b[..|b| - 1];
      LiveConcat(a, b[..|b| - 1]);
    }
  }

  lemma LiveAround(a: Ring, e: Entry<int, Bucket>, b: Ring)
    ensures LiveCount(a + [e] + b) == LiveCount(a) + LiveUnit(e.value) + LiveCount(b)
  {
    LiveConcat(a + [e], b);
    LiveConcat(a, [e]);
    assert [e][..0] == [] && LiveCount([e]) == LiveUnit(e.value);
  }

  lemma LiveAfterInsert(ring: Ring, r: nat, e: Entry<int, Bucket>)
    requires r <= |ring|
    ensures LiveCount(ring[..r] + [e] + ring[r..]) == LiveCount(ring) + LiveUnit(e.value)
  {
    var a, b := ring[..r], ring[r..];
    assert ring == a + b;
    LiveConcat(a, b);
    LiveAround(a, e, b);
  }

  lemma LiveAfterUpdate(ring: Ring, r: nat, e: Entry<int, Bucket>)
    requires r < |ring|
    ensures LiveCount(ring[r := e]) == LiveCount(ring) - LiveUnit(ring[r].value) + LiveUnit(e.value)
  {
    LiveAround(ring[..r], e, ring[r + 1..]);
    LiveAround(ring[..r], ring[r], ring[r + 1..]);
    assert ring == ring[..r] + [ring[r]] + ring[r + 1..] && ring[r := e] == ring[..r] + [e] + ring[r + 1..];
  }

  // ---- Operations ----

  datatype Counted = Counted(buckets: Ring, live: int)

  function AfterAdd(cmp: Cmp, s: Counted, k: Word32, b: Bucket): Counted {
    if Has(cmp, s.buckets, k) then s else Counted(Put(cmp, s.buckets, k, b), s.live + LiveUnit(b))
  }

  function WithStatus(e: Entry<int, Bucket>, status: int): Entry<int, Bucket> {
    e.(value := e.value.(status := status))
  }

  /** The counter as set_bucket_status changes it. */
  function LiveAfterSet(live: int, was: int, status: int): int {
    if was == status then live else if status == BUCKET_LIVE then live + 1 else live - 1
  }

  function AfterSet(cmp: Cmp, s: Counted, k: Word32, status: int): Counted {
    if !Has(cmp, s.buckets, k) then s
    else
      var r := Rank(cmp, s.buckets, k);
      Counted(s.buckets[r := WithStatus(s.buckets[r], status)], LiveAfterSet(s.live, s.buckets[r].value.status, status))
  }

  predicate HasId(ring: Ring, id: Word32) {
    exists i :: 0 <= i < |ring| && ring[i].value.id == id
  }

  /** Without collisions, a position is taken exactly when a bucket with the same 32-bit id is there. */
  lemma HasBucketIff(cmp: Cmp, dom: iset<int>, hash: Hash, ring: Ring, id: Word32)
    requires Injective(hash) && RingOk(cmp, dom, hash, ring) && hash(id) in dom
    ensures Has(cmp, ring, hash(id)) <==> HasId(ring, id)
    ensures Has(cmp, ring, hash(id)) ==> ring[Rank(cmp, ring, hash(id))].value.id == id
  {
    RingIsOrdered(cmp, dom, hash, ring);
    HasIffStored(cmp, dom, ring, hash(id));
    var base :| OrdersFrom(cmp, dom, base);
    if i :| 0 <= i < |ring| && ring[i].value.id == id {
      assert cmp(ring[i].key, hash(id)) == 0;
    }
  }

  lemma InsertKeepsRing(cmp: Cmp, dom: iset<int>, hash: Hash, ring: Ring, b: Bucket)
    requires RingOk(cmp, dom, hash, ring) && hash(b.id) in dom && !Has(cmp, ring, hash(b.id))
    ensures RingOk(cmp, dom, hash, Put(cmp, ring, hash(b.id), b))
  {
    var k := hash(b.id);
    var r, ring' := Rank(cmp, ring, k), Put(cmp, ring, k, b);
    RingIsOrdered(cmp, dom, hash, ring);
    PutKeepsOrder(cmp, dom, ring, k, b);
    forall i | 0 <= i < |ring'|
      ensures ring'[i].key == hash(ring'[i].value.id)
    {
      assert ring'[i] == if i < r then ring[i] else if i == r then Entry(k, b) else ring[i - 1];
    }
  }

  lemma AddKeepsRing(cmp: Cmp, dom: iset<int>, hash: Hash, s: Counted, b: Bucket)
    requires RingOk(cmp, dom, hash, s.buckets) && hash(b.id) in dom
    ensures RingOk(cmp, dom, hash, AfterAdd(cmp, s, hash(b.id), b).buckets)
  {
    if !Has(cmp, s.buckets, hash(b.id)) {
      InsertKeepsRing(cmp, dom, hash, s.buckets, b);
    }
  }

  lemma AddInOrder(cmp: Cmp, dom: iset<int>, hash: Hash, s: Counted, b: Bucket)
    requires Injective(hash) && RingOk(cmp, dom, hash, s.buckets) && hash(b.id) in dom
    ensures RingOk(cmp, dom, hash, AfterAdd(cmp, s, hash(b.id), b).buckets)
    ensures Has(cmp, s.buckets, hash(b.id)) <==> HasId(s.buckets, b.id)
  {
    AddKeepsRing(cmp, dom, hash, s, b);
    HasBucketIff(cmp, dom, hash, s.buckets, b.id);
  }

  lemma SetKeepsRing(cmp: Cmp, dom: iset<int>, hash: Hash, s: Counted, k: Word32, status: int)
    requires RingOk(cmp, dom, hash, s.buckets)
    ensures RingOk(cmp, dom, hash, AfterSet(cmp, s, k, status).buckets)
  {
    var ring, ring' := s.buckets, AfterSet(cmp, s, k, status).buckets;
    assert forall i :: 0 <= i < |ring| ==> ring'[i].key == ring[i].key && ring'[i].value.id == ring[i].value.id;
  }

  /** Every bucket is where it was, and the one with the given id has the given status. */
  ghost predicate Marked(ring: Ring, ring': Ring, id: Word32, status: int) {
    && |ring'| == |ring|
    && forall i :: 0 <= i < |ring| ==>
         && ring'[i].key == ring[i].key && ring'[i].value.id == ring[i].value.id
         && ring'[i].value.status == if ring[i].value.id == id then status else ring[i].value.status
  }

  /** Setting a status sets that of the bucket with the id, and nothing else. */
  lemma SetMarks(cmp: Cmp, dom: iset<int>, hash: Hash, s: Counted, id: Word32, status: int)
    requires Injective(hash) && RingOk(cmp, dom, hash, s.buckets) && hash(id) in dom
    ensures Marked(s.buckets, AfterSet(cmp, s, hash(id), status).buckets, id, status)
  {
    HasBucketIff(cmp, dom, hash, s.buckets, id);
    if Has(cmp, s.buckets, hash(id)) {
      var r := Rank(cmp, s.buckets, hash(id));
      forall i | 0 <= i < |s.buckets| && i != r
        ensures s.buckets[i].value.id != id
      {
        RingKeysDiffer(cmp, dom, hash, s.buckets, i, r);
      }
    }
  }

  /** Adding a bucket puts it at its position, with all others where they were, unless its id is there. */
  lemma AddPlaces(cmp: Cmp, dom: iset<int>, hash: Hash, s: Counted, b: Bucket)
    requires Injective(hash) && RingOk(cmp, dom, hash, s.buckets) && hash(b.id) in dom
    ensures var ring := AfterAdd(cmp, s, hash(b.id), b).buckets;
            if HasId(s.buckets, b.id) then ring == s.buckets
            else |ring| == |s.buckets| + 1 && forall e :: e in ring <==> e in s.buckets || e == Entry(hash(b.id), b)
  {
    var ring, r := s.buckets, Rank(cmp, s.buckets, hash(b.id));
    HasBucketIff(cmp, dom, hash, ring, b.id);
    assert ring == ring[..r] + ring[r..];
  }

  lemma AddCounts(cmp: Cmp, s: Counted, k: Word32, b: Bucket)
    ensures var s' := AfterAdd(cmp, s, k, b); s'.live - LiveCount(s'.buckets) == s.live - LiveCount(s.buckets)
  {
    if !Has(cmp, s.buckets, k) {
      LiveAfterInsert(s.buckets, Rank(cmp, s.buckets, k), Entry(k, b));
    }
  }

  /** Replacing one status that is not LIVE by another one that is not LIVE. */
  predicate Miscounts(cmp: Cmp, s: Counted, k: Word32, status: int) {
    && Has(cmp, s.buckets, k) && status != BUCKET_LIVE
    && var was := s.buckets[Rank(cmp, s.buckets, k)].value.status;
    && was != BUCKET_LIVE && was != status
  }

  /** The counter goes wrong by one at such a change, and at no other. */
  lemma SetCounts(cmp: Cmp, s: Counted, k: Word32, status: int)
    ensures var s' := AfterSet(cmp, s, k, status);
            s'.live - LiveCount(s'.buckets) ==
              s.live - LiveCount(s.buckets) - if Miscounts(cmp, s, k, status) then 1 else 0
  {
    if Has(cmp, s.buckets, k) {
      var r := Rank(cmp, s.buckets, k);
      LiveAfterUpdate(s.buckets, r, WithStatus(s.buckets[r], status));
    }
  }

  // ---- Histories ----

  datatype Event = Added(b: Bucket) | StatusSet(id: Word32, status: int)

  function Step(cmp: Cmp, hash: Hash, s: Counted, e: Event): Counted {
    match e
    case Added(b) => AfterAdd(cmp, s, hash(b.id), b)
    case StatusSet(id, status) => AfterSet(cmp, s, hash(id), status)
  }

  function After(cmp: Cmp, hash: Hash, es: seq<Event>): Counted {
    if es == [] then Counted([], 0) else Step(cmp, hash, After(cmp, hash, es[..|es| - 1]), es[|es| - 1])
  }

  predicate Slips(cmp: Cmp, hash: Hash, s: Counted, e: Event) {
    e.StatusSet? && Miscounts(cmp, s, hash(e.id), e.status)
  }

  /** How often the counter was off. */
  function SlipCount(cmp: Cmp, hash: Hash, es: seq<Event>): nat {
    if es == [] then 0
    else
      var before, e := es[..|es| - 1], es[|es| - 1];
      SlipCount(cmp, hash, before) + if Slips(cmp, hash, After(cmp, hash, before), e) then 1 else 0
  }

  /** After every history, under any comparator, the counter is the number of live buckets less the
      number of slips: it is right exactly when no status that is not LIVE was replaced by another
      that is not LIVE. */
  lemma {:induction false} LiveCounterIff(cmp: Cmp, hash: Hash, es: seq<Event>)
    ensures After(cmp, hash, es).live == LiveCount(After(cmp, hash, es).buckets) - SlipCount(cmp, hash, es)
    ensures After(cmp, hash, es).live == LiveCount(After(cmp, hash, es).buckets) <==> SlipCount(cmp, hash, es) == 0
  {
    if es != [] {
      LiveCounterIff(cmp, hash, es[..|es| - 1]);
      var s := After(cmp, hash, es[..|es| - 1]);
      match es[|es| - 1]
      case Added(b) => AddCounts(cmp, s, hash(b.id), b);
      case StatusSet(id, status) => SetCounts(cmp, s, hash(id), status);
    }
  }

  /** After every history of buckets whose positions the comparator orders, the ring is in order. */
  lemma {:induction false} RingStaysInOrder(cmp: Cmp, dom: iset<int>, hash: Hash, es: seq<Event>)
    requires Orders(cmp, dom) && forall i :: 0 <= i < |es| && es[i].Added? ==> hash(es[i].b.id) in dom
    ensures RingOk(cmp, dom, hash, After(cmp, hash, es).buckets)
  {
    if es != [] {
      RingStaysInOrder(cmp, dom, hash, es[..|es| - 1]);
      var s := After(cmp, hash, es[..|es| - 1]);
      match es[|es| - 1]
      case Added(b) => AddKeepsRing(cmp, dom, hash, s, b);
      case StatusSet(id, status) => SetKeepsRing(cmp, dom, hash, s, hash(id), status);
    }
  }

  lemma FirstBucket(cmp: Cmp, k: Word32, b: Bucket)
    ensures AfterAdd(cmp, Counted([], 0), k, b) == Counted([Entry(k, b)], LiveUnit(b))
  {
  }

  lemma OneMore(cmp: Cmp, hash: Hash, es: seq<Event>, e: Event)
    ensures After(cmp, hash, es + [e]) == Step(cmp, hash, After(cmp, hash, es), e)
  {
    assert (es + [e])[..|es|] == es;
  }

  function Joins(id: Word32): Event {
    Added(Bucket(id, BUCKET_LIVE))
  }

  function LiveAt(k: int, id: Word32): Entry<int, Bucket> {
    Entry(k, Bucket(id, BUCKET_LIVE))
  }

  /** A bucket that joins with a third status and is then marked dead takes one off the counter. */
  lemma CounterSlips(hash: Hash)
    ensures var es := [Added(Bucket(1, 2)), StatusSet(1, BUCKET_DEAD)];
            After(IdCmp, hash, es).live == -1 && LiveCount(After(IdCmp, hash, es).buckets) == 0
  {
    var k, e1, e2 := hash(1), Added(Bucket(1, 2)), StatusSet(1, BUCKET_DEAD);
    var ring: Ring := [Entry(k, Bucket(1, 2))];
    assert [e1][..0] == [] && [e1, e2][..1] == [e1];
    FirstBucket(IdCmp, k, Bucket(1, 2));
    assert After(IdCmp, hash, [e1]) == Counted(ring, 0);
    RankUnique(IdCmp, ring, k, 0);
    NoneLive(After(IdCmp, hash, [e1, e2]).buckets);
  }

  predicate LiveOrDead(status: int) {
    status == BUCKET_LIVE || status == BUCKET_DEAD
  }

  predicate Plain(e: Event) {
    LiveOrDead(if e.Added? then e.b.status else e.status)
  }

  lemma PlainStep(cmp: Cmp, hash: Hash, s: Counted, e: Event)
    requires Plain(e) && forall i :: 0 <= i < |s.buckets| ==> LiveOrDead(s.buckets[i].value.status)
    ensures !Slips(cmp, hash, s, e)
    ensures var ring := Step(cmp, hash, s, e).buckets;
            forall i :: 0 <= i < |ring| ==> LiveOrDead(ring[i].value.status)
  {
  }

  lemma {:induction false} NoSlips(cmp: Cmp, hash: Hash, es: seq<Event>)
    requires forall i :: 0 <= i < |es| ==> Plain(es[i])
    ensures SlipCount(cmp, hash, es) == 0
    ensures forall i :: 0 <= i < |After(cmp, hash, es).buckets| ==>
            LiveOrDead(After(cmp, hash, es).buckets[i].value.status)
  {
    if es != [] {
      NoSlips(cmp, hash, es[..|es| - 1]);
      PlainStep(cmp, hash, After(cmp, hash, es[..|es| - 1]), es[|es| - 1]);
    }
  }

  /** With LIVE and DEAD only, the counter is always right. */
  lemma LiveDeadHistoriesCount(cmp: Cmp, hash: Hash, es: seq<Event>)
    requires forall i :: 0 <= i < |es| ==> Plain(es[i])
    ensures After(cmp, hash, es).live == LiveCount(After(cmp, hash, es).buckets)
  {
    NoSlips(cmp, hash, es);
    LiveCounterIff(cmp, hash, es);
  }

  // ---- Ownership ----

  /** Bucket i is live and no live bucket is nearer. */
  ghost predicate Owns(ring: Ring, h: int, i: int) {
    && 0 <= i < |ring| && IsLive(ring[i])
    && forall j :: 0 <= j < |ring| && IsLive(ring[j]) ==> Distance(h, ring[i].key) <= Distance(h, ring[j].key)
  }

  /** The bucket an object at position h belongs to. */
  ghost function Owner(ring: Ring, h: int): Option<Bucket> {
    if exists i :: Owns(ring, h, i) then var i :| Owns(ring, h, i); Some(ring[i].value) else None
  }

  lemma OneNearest(base: int, ring: Ring, h: Word32, i: int, j: int)
    requires Rising(base, ring) && Owns(ring, h, i) && Owns(ring, h, j)
    ensures i == j
  {
    assert Distance(h, ring[i].key) == Distance(h, ring[j].key);
  }

  lemma OwnerUnique(cmp: Cmp, dom: iset<int>, hash: Hash, ring: Ring, h: Word32, i: int)
    requires RingOk(cmp, dom, hash, ring) && Owns(ring, h, i)
    ensures Owner(ring, h) == Some(ring[i].value)
  {
    var base :| OrdersFrom(cmp, dom, base);
    RingRises(cmp, dom, hash, ring, base);
    forall j | Owns(ring, h, j)
      ensures j == i
    {
      OneNearest(base, ring, h, i, j);
    }
  }

  // ---- Looking for a live bucket ----

  /** The first live bucket from index i on, or the end. */
  function LiveFrom(ring: Ring, i: nat): (r: nat)
    requires i <= |ring|
    ensures i <= r <= |ring| && (r < |ring| ==> IsLive(ring[r]))
    ensures forall j :: i <= j < r ==> !IsLive(ring[j])
    decreases |ring| - i
  {
    if i == |ring| || IsLive(ring[i]) then i else LiveFrom(ring, i + 1)
  }

  /** Where the wrapping search from index `start` ends. */
  function Found(ring: Ring, start: nat): nat
    requires start <= |ring|
  {
    if LiveFrom(ring, start) < |ring| then LiveFrom(ring, start) else LiveFrom(ring, 0)
  }

  /** What the search for an object at position h finds. */
  function Lookup(cmp: Cmp, ring: Ring, h: int): Option<Bucket> {
    var i := Found(ring, Rank(cmp, ring, h));
    if i < |ring| then Some(ring[i].value) else None
  }

  /** The search wraps around the end at most once. */
  method FindLive(ring: Ring, start: nat) returns (node: nat)
    requires start <= |ring| && exists i :: 0 <= i < |ring| && IsLive(ring[i])
    ensures node == Found(ring, start) < |ring|
  {
    node := start;
    ghost var wrapped := false;
    while true
      invariant 0 <= node <= |ring|
      invariant !wrapped ==> start <= node && forall i :: start <= i < node ==> !IsLive(ring[i])
      invariant wrapped ==> node <= start && forall i :: start <= i < |ring| || 0 <= i < node ==> !IsLive(ring[i])
      decreases !wrapped, |ring| - node
    {
      if node == |ring| {
        node, wrapped := 0, true;
      }
      if IsLive(ring[node]) {
        break;
      }
      node := node + 1;
    }
  }

  /** Distances from h, seen from `base`. */
  lemma Turned(base: int, h: int, k: int)
    requires Position(base) && Position(h) && Position(k)
    ensures var d := Distance(base, k) - Distance(base, h); Distance(h, k) == if d >= 0 then d else d + TWO32
  {
  }

  /** Going up from the object's position, and on from the bottom after the top, positions get
      farther and farther away. */
  lemma FirstLiveOwns(base: int, ring: Ring, h: Word32, start: nat, i: nat)
    requires start <= |ring| && i < |ring| && IsLive(ring[i]) && Rising(base, ring)
    requires forall j :: 0 <= j < |ring| ==>
               Position(ring[j].key) && (Distance(base, ring[j].key) < Distance(base, h) <==> j < start)
    requires if start <= i then forall j :: start <= j < i ==> !IsLive(ring[j])
             else forall j :: (start <= j < |ring| || 0 <= j < i) ==> !IsLive(ring[j])
    ensures Owns(ring, h, i)
  {
    forall j | 0 <= j < |ring| && IsLive(ring[j])
      ensures Distance(h, ring[i].key) <= Distance(h, ring[j].key)
    {
      Turned(base, h, ring[i].key);
      Turned(base, h, ring[j].key);
      assert i < j ==> Distance(base, ring[i].key) < Distance(base, ring[j].key);
      assert j < i ==> Distance(base, ring[j].key) < Distance(base, ring[i].key);
    }
  }

  /** In a ring in order, the search from the first position not below the object's finds its owner. */
  lemma FoundOwns(cmp: Cmp, dom: iset<int>, hash: Hash, ring: Ring, h: Word32)
    requires RingOk(cmp, dom, hash, ring) && h in dom && LiveCount(ring) > 0
    ensures Owns(ring, h, Found(ring, Rank(cmp, ring, h)))
  {
    var start := Rank(cmp, ring, h);
    var base :| OrdersFrom(cmp, dom, base);
    RingIsOrdered(cmp, dom, hash, ring);
    RingRises(cmp, dom, hash, ring, base);
    RankSplits(cmp, dom, ring, h);
    NoneLive(ring);
    forall j | 0 <= j < |ring|
      ensures Position(ring[j].key) && (Distance(base, ring[j].key) < Distance(base, h) <==> j < start)
    {
      assert ring[j].key in dom;
    }
    FirstLiveOwns(base, ring, h, start, Found(ring, start));
  }

  lemma LookupFindsOwner(cmp: Cmp, dom: iset<int>, hash: Hash, ring: Ring, h: Word32)
    requires RingOk(cmp, dom, hash, ring) && h in dom
    ensures Lookup(cmp, ring, h) == Owner(ring, h)
  {
    NoneLive(ring);
    if LiveCount(ring) > 0 {
      FoundOwns(cmp, dom, hash, ring, h);
      OwnerUnique(cmp, dom, hash, ring, h, Found(ring, Rank(cmp, ring, h)));
    }
  }

  /** In the intended order, lookup finds the owner of every object after every history. */
  lemma LookupOnCircle(hash: Hash, es: seq<Event>, h: Word32)
    ensures var ring := After(IdCmp, hash, es).buckets; Lookup(IdCmp, ring, h) == Owner(ring, h)
  {
    var dom := iset k | Position(k);
    IdCmpOrders();
    RingStaysInOrder(IdCmp, dom, hash, es);
    LookupFindsOwner(IdCmp, dom, hash, After(IdCmp, hash, es).buckets, h);
  }

  /** Under the comparator the ring is created with it does so if all buckets and the object lie on an
      arc of less than half the circle, which may cross position 0. */
  lemma LookupOnArc(hash: Hash, es: seq<Event>, h: Word32, lo: int)
    requires Position(lo) && Distance(lo, h) < TWO31
    requires forall i :: 0 <= i < |es| && es[i].Added? ==> Distance(lo, hash(es[i].b.id)) < TWO31
    ensures var ring := After(LongCmp, hash, es).buckets; Lookup(LongCmp, ring, h) == Owner(ring, h)
  {
    var dom := iset k | Position(k) && Distance(lo, k) < TWO31;
    LongCmpOrders(dom, lo);
    RingStaysInOrder(LongCmp, dom, hash, es);
    LookupFindsOwner(LongCmp, dom, hash, After(LongCmp, hash, es).buckets, h);
  }

  // ---- Answers ----

  /** NoAnswer is a search that does not come to an end, or none to a ring without buckets. */
  datatype Reply = Nobody | One(bucket: Bucket) | EmptyList | NoAnswer

  function Replicas(live: int, factor: int): int {
    if factor < live then factor else live
  }

  /** What get_buckets_for_object answers for an object at position h. It trusts the counter; with a
      factor above 1 it returns the first bucket as well, and not a list of them, unless the counter is
      negative. */
  function Answer(cmp: Cmp, s: Counted, h: int, factor: int): Reply {
    var replicas := Replicas(s.live, factor);
    if replicas == 0 then Nobody
    else if factor > 1 && replicas <= 0 then EmptyList
    else match Lookup(cmp, s.buckets, h)
      case Some(b) => One(b)
      case None => NoAnswer
  }

  /** The search comes to an end if and only if it is not started or some bucket is live. */
  lemma AnsweredIff(cmp: Cmp, s: Counted, h: int, factor: int)
    ensures !Answer(cmp, s, h, factor).NoAnswer? <==>
              || Replicas(s.live, factor) == 0 || (factor > 1 && s.live < 0)
              || exists i :: 0 <= i < |s.buckets| && IsLive(s.buckets[i])
    ensures Answer(cmp, s, h, factor).Nobody? <==>
              (s.live == 0 && factor >= 0) || (factor == 0 && s.live >= 0)
    ensures Answer(cmp, s, h, factor).EmptyList? <==> factor > 1 && s.live < 0
    ensures Answer(cmp, s, h, factor).One? ==> Lookup(cmp, s.buckets, h) == Some(Answer(cmp, s, h, factor).bucket)
  {
  }

  /** Nobody is found exactly when no bucket is live if and only if the counter is 0 exactly then. */
  lemma NobodyIff(cmp: Cmp, s: Counted, h: int, factor: int)
    requires factor >= 1
    ensures (Answer(cmp, s, h, factor).Nobody? <==> LiveCount(s.buckets) == 0)
            <==> (s.live == 0 <==> LiveCount(s.buckets) == 0)
    ensures s.live == LiveCount(s.buckets) ==>
              Answer(cmp, s, h, factor) == match Lookup(cmp, s.buckets, h) case Some(b) => One(b) case None => Nobody
  {
    NoneLive(s.buckets);
  }

  /** A live bucket is there, another one joins with a third status and is marked dead: the counter is
      0, and nobody is found for any object. */
  lemma LiveBucketNotFound(hash: Hash, h: int)
    requires hash(1) != hash(2)
    ensures var s := After(IdCmp, hash, [Joins(1)] + [Added(Bucket(2, 2))] + [StatusSet(2, BUCKET_DEAD)]);
            s.live == 0 && LiveCount(s.buckets) == 1 && Answer(IdCmp, s, h, 1) == Nobody
  {
    var a, b := hash(1), hash(2);
    var one := Counted([LiveAt(a, 1)], 1);
    assert [Joins(1)] == [] + [Joins(1)];
    OneMore(IdCmp, hash, [], Joins(1));
    FirstBucket(IdCmp, a, Bucket(1, BUCKET_LIVE));
    OneMore(IdCmp, hash, [Joins(1)], Added(Bucket(2, 2)));
    OneMore(IdCmp, hash, [Joins(1)] + [Added(Bucket(2, 2))], StatusSet(2, BUCKET_DEAD));
    NoneLive([]);
    LiveAround([], LiveAt(a, 1), []);
    assert [] + [LiveAt(a, 1)] + [] == one.buckets;
    SlipsByOne(one, b);
  }

  lemma SlipsByOne(s: Counted, k: Word32)
    requires s.live == 1 == LiveCount(s.buckets) && !Has(IdCmp, s.buckets, k)
    requires |s.buckets| == 1 && Position(s.buckets[0].key)
    ensures var s' := AfterSet(IdCmp, AfterAdd(IdCmp, s, k, Bucket(2, 2)), k, BUCKET_DEAD);
            s'.live == 0 && LiveCount(s'.buckets) == 1
  {
    var dom := iset i | Position(i);
    var s1 := AfterAdd(IdCmp, s, k, Bucket(2, 2));
    AddCounts(IdCmp, s, k, Bucket(2, 2));
    GetAfterPut(IdCmp, dom, s.buckets, k, Bucket(2, 2), k);
    SetCounts(IdCmp, s1, k, BUCKET_DEAD);
  }

  /** After the history of CounterSlips a lookup never ends. */
  lemma SearchNeverEnds(hash: Hash, h: int)
    ensures Answer(IdCmp, After(IdCmp, hash, [Added(Bucket(1, 2)), StatusSet(1, BUCKET_DEAD)]), h, 1) == NoAnswer
  {
    CounterSlips(hash);
    NoneLive(After(IdCmp, hash, [Added(Bucket(1, 2)), StatusSet(1, BUCKET_DEAD)]).buckets);
  }

  // ---- The ring as it runs ----

  class HashRing {
    const cmp: Cmp
    const hash: Hash
    ghost const dom: iset<int>
    var buckets: Ring
    var liveBuckets: int

    ghost function State(): Counted
      reads this
    {
      Counted(buckets, liveBuckets)
    }

    ghost predicate Valid()
      reads this
    {
      Injective(hash)
    }

    /** By how much the counter is off. */
    ghost function Error(): int
      reads this
    {
      liveBuckets - LiveCount(buckets)
    }

    /** All buckets are at positions the comparator orders. */
    ghost predicate InOrder()
      reads this
    {
      RingOk(cmp, dom, hash, buckets)
    }

    /** An empty ring that hashes with hash32 for good. */
    constructor (cmp: Cmp, ghost dom: iset<int>)
      requires Orders(cmp, dom)
      ensures Valid() && InOrder() && Error() == 0 && hash == Hash32 && State() == Counted([], 0)
      ensures this.cmp == cmp && this.dom == dom
    {
      Hash32Injective();
      this.cmp := cmp;
      this.dom := dom;
      hash := Hash32;
      buckets, liveBuckets := [], 0;
    }

    method Join(b: Bucket) returns (status: int)
      requires Valid()
      modifies this
      ensures Valid() && Error() == old(Error()) && State() == AfterAdd(cmp, old(State()), hash(b.id), b)
      ensures status == if Has(cmp, old(buckets), hash(b.id)) then -1 else 0
    {
      AddCounts(cmp, State(), hash(b.id), b);
      var idHash := hash(b.id);
      if Has(cmp, buckets, idHash) {
        return -1;
      }
      if b.status == BUCKET_LIVE {
        liveBuckets := liveBuckets + 1;
      }
      buckets := Put(cmp, buckets, idHash, b);
      status := 0;
    }

    /** In a ring in order, refuses a bucket exactly when one with the same 32-bit id is there. */
    method AddBucket(b: Bucket) returns (status: int)
      requires Valid()
      modifies this
      ensures Valid() && Error() == old(Error()) && State() == AfterAdd(cmp, old(State()), hash(b.id), b)
      ensures old(InOrder()) && hash(b.id) in dom ==>
                InOrder() && status == if HasId(old(buckets), b.id) then -1 else 0
      ensures old(InOrder()) && hash(b.id) in dom && status == 0 ==>
                && |buckets| == |old(buckets)| + 1
                && forall e :: e in buckets <==> e in old(buckets) || e == Entry(hash(b.id), b)
    {
      if InOrder() && hash(b.id) in dom {
        AddInOrder(cmp, dom, hash, State(), b);
        AddPlaces(cmp, dom, hash, State(), b);
      }
      status := Join(b);
    }

    /** The counter goes off by one exactly when the change is from one status that is not LIVE to
        another. */
    method SetBucketStatus(id: Word32, status: int) returns (r: int)
      requires Valid()
      modifies this
      ensures Valid() && State() == AfterSet(cmp, old(State()), hash(id), status)
      ensures Error() == old(Error()) - if Miscounts(cmp, old(State()), hash(id), status) then 1 else 0
      ensures old(InOrder()) && hash(id) in dom ==> InOrder() && r == if HasId(old(buckets), id) then 0 else -1
      ensures old(InOrder()) && hash(id) in dom ==> Marked(old(buckets), buckets, id, status)
    {
      if InOrder() && hash(id) in dom {
        SetMarks(cmp, dom, hash, State(), id, status);
        HasBucketIff(cmp, dom, hash, buckets, id);
        SetKeepsRing(cmp, dom, hash, State(), hash(id), status);
      }
      var idHash := hash(id);
      SetCounts(cmp, State(), idHash, status);
      if !Has(cmp, buckets, idHash) {
        return -1;
      }
      var node := Rank(cmp, buckets, idHash);
      if buckets[node].value.status != status {
        if status == BUCKET_LIVE {
          liveBuckets := liveBuckets + 1;
        } else {
          liveBuckets := liveBuckets - 1;
        }
      }
      buckets := buckets[node := WithStatus(buckets[node], status)];
      r := 0;
    }

    /** get_buckets_for_object: in a ring in order, any bucket returned is the owner of the object. */
    method GetBucket(objectId: Word32, replicationFactor: int) returns (r: Reply)
      ensures r == Answer(cmp, State(), hash(objectId), replicationFactor)
      ensures r.One? && InOrder() && hash(objectId) in dom ==> Owner(buckets, hash(objectId)) == Some(r.bucket)
    {
      if InOrder() && hash(objectId) in dom {
        LookupFindsOwner(cmp, dom, hash, buckets, hash(objectId));
      }
      var replicas := Replicas(liveBuckets, replicationFactor);
      if replicas == 0 {
        return Nobody;
      }
      if replicationFactor > 1 && 0 >= replicas {
        return EmptyList;
      }
      if LiveFrom(buckets, 0) == |buckets| {
        return NoAnswer;
      }
      var node := FindLive(buckets, Rank(cmp, buckets, hash(objectId)));
      r := One(buckets[node].value);
    }
  }

  // ---- Changes move as little as possible ----

  predicate Is(o: Option<Bucket>, id: Word32) {
    o.Some? && o.value.id == id
  }

  /** Buckets other than the one at index k are as they were. */
  lemma OthersOwn(ring: Ring, k: nat, status: int, h: Word32, i: int)
    requires k < |ring| && i != k
    ensures var ring' := ring[k := WithStatus(ring[k], status)];
            && (status != BUCKET_LIVE && Owns(ring, h, i) ==> Owns(ring', h, i))
            && (status == BUCKET_LIVE && Owns(ring', h, i) ==> Owns(ring, h, i))
  {
    var ring' := ring[k := WithStatus(ring[k], status)];
    if status == BUCKET_LIVE && Owns(ring', h, i) {
      forall j | 0 <= j < |ring| && IsLive(ring[j])
        ensures Distance(h, ring[i].key) <= Distance(h, ring[j].key)
      {
        assert IsLive(ring'[j]) && ring'[j].key == ring[j].key;
      }
    }
  }

  /** Killing a bucket moves the objects it owned to others, and no other objects. */
  lemma KillMovesOnlyItsOwn(cmp: Cmp, dom: iset<int>, hash: Hash, s: Counted, id: Word32, status: int, h: Word32)
    requires Injective(hash) && RingOk(cmp, dom, hash, s.buckets) && hash(id) in dom && h in dom &&
             status != BUCKET_LIVE
    ensures var before, after := Owner(s.buckets, h), Owner(AfterSet(cmp, s, hash(id), status).buckets, h);
            if Is(before, id) then !Is(after, id) else after == before
  {
    var ring, ring' := s.buckets, AfterSet(cmp, s, hash(id), status).buckets;
    HasBucketIff(cmp, dom, hash, ring, id);
    SetKeepsRing(cmp, dom, hash, s, hash(id), status);
    if Has(cmp, ring, hash(id)) {
      var k := Rank(cmp, ring, hash(id));
      if i :| Owns(ring, h, i) && i != k {
        OthersOwn(ring, k, status, h, i);
        OwnerUnique(cmp, dom, hash, ring, h, i);
        OwnerUnique(cmp, dom, hash, ring', h, i);
        OnlyAt(cmp, dom, hash, ring, id, i, k);
      } else {
        NotTheOwner(cmp, dom, hash, ring', h, id, k);
        if !Owns(ring, h, k) {
          NobodyOwns(cmp, dom, hash, ring, h);
          NobodyLive(ring, ring');
        } else {
          OwnerUnique(cmp, dom, hash, ring, h, k);
        }
      }
    } else {
      OwnerHasId(ring, h);
    }
  }

  lemma OwnerHasId(ring: Ring, h: int)
    ensures Owner(ring, h).Some? ==> HasId(ring, Owner(ring, h).value.id)
  {
  }

  lemma OnlyAt(cmp: Cmp, dom: iset<int>, hash: Hash, ring: Ring, id: Word32, i: int, k: nat)
    requires RingOk(cmp, dom, hash, ring) && 0 <= i < |ring| && k < |ring| && ring[k].value.id == id && i != k
    ensures ring[i].value.id != id
  {
    RingKeysDiffer(cmp, dom, hash, ring, i, k);
  }

  /** A bucket that is not live owns nothing. */
  lemma NotTheOwner(cmp: Cmp, dom: iset<int>, hash: Hash, ring: Ring, h: Word32, id: Word32, k: nat)
    requires RingOk(cmp, dom, hash, ring) && k < |ring| && ring[k].value.id == id && !IsLive(ring[k])
    ensures !Is(Owner(ring, h), id)
  {
    if i :| Owns(ring, h, i) {
      OwnerUnique(cmp, dom, hash, ring, h, i);
      OnlyAt(cmp, dom, hash, ring, id, i, k);
    }
  }

  lemma NobodyOwns(cmp: Cmp, dom: iset<int>, hash: Hash, ring: Ring, h: Word32)
    requires RingOk(cmp, dom, hash, ring) && h in dom && forall i :: !Owns(ring, h, i)
    ensures forall i :: 0 <= i < |ring| ==> !IsLive(ring[i])
  {
    NoneLive(ring);
    if LiveCount(ring) > 0 {
      FoundOwns(cmp, dom, hash, ring, h);
    }
  }

  lemma NobodyLive(ring: Ring, ring': Ring)
    requires |ring'| == |ring| && forall i :: 0 <= i < |ring| ==>
             !IsLive(ring[i]) && (IsLive(ring'[i]) ==> IsLive(ring[i]))
    ensures forall h :: Owner(ring', h) == None && Owner(ring, h) == None
  {
  }

  /** No live bucket is nearer to position h than position k is. */
  ghost predicate AsNear(ring: Ring, h: int, k: int) {
    forall i :: 0 <= i < |ring| && IsLive(ring[i]) ==> Distance(h, k) <= Distance(h, ring[i].key)
  }

  /** Reviving a bucket moves to it the objects to which no live bucket is nearer, and no others. */
  lemma ReviveMovesOnlyToIt(cmp: Cmp, dom: iset<int>, hash: Hash, s: Counted, id: Word32, h: Word32)
    requires Injective(hash) && RingOk(cmp, dom, hash, s.buckets) && hash(id) in dom && h in dom
    ensures var before, after := Owner(s.buckets, h), Owner(AfterSet(cmp, s, hash(id), BUCKET_LIVE).buckets, h);
            && (Is(after, id) <==> HasId(s.buckets, id) && AsNear(s.buckets, h, hash(id)))
            && (Is(after, id) || after == before)
  {
    var ring, ring' := s.buckets, AfterSet(cmp, s, hash(id), BUCKET_LIVE).buckets;
    HasBucketIff(cmp, dom, hash, ring, id);
    SetKeepsRing(cmp, dom, hash, s, hash(id), BUCKET_LIVE);
    SetMarks(cmp, dom, hash, s, id, BUCKET_LIVE);
    if Has(cmp, ring, hash(id)) {
      var k := Rank(cmp, ring, hash(id));
      NoneLive(ring');
      assert IsLive(ring'[k]);
      FoundOwns(cmp, dom, hash, ring', h);
      var i := Found(ring', Rank(cmp, ring', h));
      OwnerUnique(cmp, dom, hash, ring', h, i);
      NearestIffOwner(cmp, dom, hash, ring, ring', id, h, k, i);
      if i != k {
        OthersOwn(ring, k, BUCKET_LIVE, h, i);
        OwnerUnique(cmp, dom, hash, ring, h, i);
      }
    } else {
      OwnerHasId(ring, h);
    }
  }

  /** Where bucket k has been revived and bucket i is the owner. */
  lemma NearestIffOwner(cmp: Cmp, dom: iset<int>, hash: Hash, ring: Ring, ring': Ring, id: Word32, h: Word32, k: nat,
                        i: nat)
    requires RingOk(cmp, dom, hash, ring') && Marked(ring, ring', id, BUCKET_LIVE) && k < |ring|
    requires ring[k].value.id == id && Owns(ring', h, i)
    ensures (ring'[i].value.id == id <==> i == k) && (i == k <==> AsNear(ring, h, hash(id)))
  {
    assert ring'[k].key == hash(id) && IsLive(ring'[k]);
    if i != k {
      OnlyAt(cmp, dom, hash, ring', id, i, k);
      assert IsLive(ring[i]);
      RingKeysDiffer(cmp, dom, hash, ring', i, k);
      assert ring'[i].key in dom && ring'[k].key in dom;
    } else {
      forall j | 0 <= j < |ring| && IsLive(ring[j])
        ensures Distance(h, hash(id)) <= Distance(h, ring[j].key)
      {
        assert IsLive(ring'[j]);
      }
    }
  }

  lemma OwnedBefore(ring: Ring, r: nat, e: Entry<int, Bucket>, h: Word32, i: int)
    requires r <= |ring| && i != r && Owns(ring[..r] + [e] + ring[r..], h, i)
    ensures var j := if i < r then i else i - 1; Owns(ring, h, j) && ring[j] == (ring[..r] + [e] + ring[r..])[i]
  {
    var ring' := ring[..r] + [e] + ring[r..];
    forall j | 0 <= j < |ring|
      ensures ring[j] == ring'[if j < r then j else j + 1]
    {
    }
    var m := if i < r then i else i - 1;
    forall j | 0 <= j < |ring| && IsLive(ring[j])
      ensures Distance(h, ring[m].key) <= Distance(h, ring[j].key)
    {
      assert IsLive(ring'[if j < r then j else j + 1]);
    }
  }

  lemma NobodyLiveBefore(ring: Ring, r: nat, e: Entry<int, Bucket>)
    requires r <= |ring|
    requires var ring' := ring[..r] + [e] + ring[r..]; forall i :: 0 <= i < |ring'| ==> !IsLive(ring'[i])
    ensures forall h :: Owner(ring, h) == None
  {
    var ring' := ring[..r] + [e] + ring[r..];
    forall j | 0 <= j < |ring|
      ensures !IsLive(ring[j])
    {
      assert ring[j] == ring'[if j < r then j else j + 1];
    }
    NobodyLive(ring, ring);
  }

  /** Adding a live bucket moves to it the objects to which no live bucket is nearer, and no others. */
  lemma AddMovesOnlyToIt(cmp: Cmp, dom: iset<int>, hash: Hash, s: Counted, b: Bucket, h: Word32)
    requires RingOk(cmp, dom, hash, s.buckets) && hash(b.id) in dom && h in dom
    ensures var before, after := Owner(s.buckets, h), Owner(AfterAdd(cmp, s, hash(b.id), b).buckets, h);
            if !Has(cmp, s.buckets, hash(b.id)) && b.status == BUCKET_LIVE && AsNear(s.buckets, h, hash(b.id)) then
              after == Some(b)
            else
              after == before
  {
    var ring, ring' := s.buckets, AfterAdd(cmp, s, hash(b.id), b).buckets;
    AddKeepsRing(cmp, dom, hash, s, b);
    if !Has(cmp, ring, hash(b.id)) {
      var r, e := Rank(cmp, ring, hash(b.id)), Entry(hash(b.id), b);
      if i :| Owns(ring', h, i) {
        OwnerUnique(cmp, dom, hash, ring', h, i);
        AddedOwnsIff(cmp, dom, hash, ring, r, e, h, i);
        if i != r {
          OwnedBefore(ring, r, e, h, i);
          OwnerUnique(cmp, dom, hash, ring, h, if i < r then i else i - 1);
        }
      } else {
        NobodyOwns(cmp, dom, hash, ring', h);
        NobodyLiveBefore(ring, r, e);
        assert ring'[r] == e;
      }
    }
  }

  /** Where bucket e has been added at index r and bucket i is the owner. */
  lemma AddedOwnsIff(cmp: Cmp, dom: iset<int>, hash: Hash, ring: Ring, r: nat, e: Entry<int, Bucket>, h: Word32,
                     i: nat)
    requires r <= |ring| && RingOk(cmp, dom, hash, ring[..r] + [e] + ring[r..])
    requires Owns(ring[..r] + [e] + ring[r..], h, i)
    ensures i == r <==> IsLive(e) && AsNear(ring, h, e.key)
  {
    var ring' := ring[..r] + [e] + ring[r..];
    assert ring'[r] == e;
    if i == r {
      forall j | 0 <= j < |ring| && IsLive(ring[j])
        ensures Distance(h, e.key) <= Distance(h, ring[j].key)
      {
        assert IsLive(ring'[if j < r then j else j + 1]);
      }
    } else {
      OwnedBefore(ring, r, e, h, i);
      RingKeysDiffer(cmp, dom, hash, ring', i, r);
      assert ring'[i].key in dom && ring'[r].key in dom;
    }
  }

  // ---- Lookup under the comparator of long keys ----

  lemma AddAt(cmp: Cmp, s: Counted, k: Word32, b: Bucket, r: nat)
    requires r <= |s.buckets| && (forall i :: 0 <= i < r ==> cmp(s.buckets[i].key, k) < 0)
    requires r < |s.buckets| ==> cmp(s.buckets[r].key, k) > 0 && cmp(k, s.buckets[r].key) != 0
    ensures AfterAdd(cmp, s, k, b) == Counted(s.buckets[..r] + [Entry(k, b)] + s.buckets[r..], s.live + LiveUnit(b))
  {
    RankUnique(cmp, s.buckets, k, r);
  }

  lemma TwoInOrder(hash: Hash, a: Word32, b: Word32)
    requires hash(a) == 0 && hash(b) == 0x6000_0000
    ensures After(LongCmp, hash, [Joins(a)] + [Joins(b)]) == Counted([LiveAt(0, a), LiveAt(0x6000_0000, b)], 2)
  {
    var one := Counted([LiveAt(0, a)], 1);
    assert [Joins(a)] == [] + [Joins(a)];
    OneMore(LongCmp, hash, [], Joins(a));
    FirstBucket(LongCmp, 0, Bucket(a, BUCKET_LIVE));
    OneMore(LongCmp, hash, [Joins(a)], Joins(b));
    AddAt(LongCmp, one, 0x6000_0000, Bucket(b, BUCKET_LIVE), 1);
  }

  function OutOfOrder(a: Word32, b: Word32, c: Word32): Ring {
    [LiveAt(0xC000_0000, c), LiveAt(0, a), LiveAt(0x6000_0000, b)]
  }

  /** Three buckets that join under long_cmp, spread over the circle: the list is out of order. */
  lemma ThreeOutOfOrder(hash: Hash, a: Word32, b: Word32, c: Word32)
    requires hash(a) == 0 && hash(b) == 0x6000_0000 && hash(c) == 0xC000_0000
    ensures After(LongCmp, hash, [Joins(a)] + [Joins(b)] + [Joins(c)]).buckets == OutOfOrder(a, b, c)
  {
    TwoInOrder(hash, a, b);
    OneMore(LongCmp, hash, [Joins(a)] + [Joins(b)], Joins(c));
    AddAt(LongCmp, Counted([LiveAt(0, a), LiveAt(0x6000_0000, b)], 2), 0xC000_0000, Bucket(c, BUCKET_LIVE), 0);
  }

  /** An object at a position before the third bucket's is sent past the bucket that owns it. */
  lemma LookupGoesAstray(a: Word32, b: Word32, c: Word32)
    requires b != c
    ensures var ring := OutOfOrder(a, b, c);
            Is(Lookup(LongCmp, ring, 0x5000_0000), c) && Is(Owner(ring, 0x5000_0000), b)
  {
    var ring, h := OutOfOrder(a, b, c), 0x5000_0000;
    RankUnique(LongCmp, ring, h, 0);
    assert Owns(ring, h, 2);
    assert forall i :: Owns(ring, h, i) ==> i == 2;
  }

  /** Every position is the hash of some id. */
  lemma IdAt(k: Word32) returns (id: Word32)
    ensures Hash32(id) == k
  {
    id := Unhash32(k);
    HashIsBijection(k);
  }

  lemma Astray(hash: Hash, a: Word32, b: Word32, c: Word32, objectId: Word32) returns (es: seq<Event>)
    requires hash(a) == 0 && hash(b) == 0x6000_0000 && hash(c) == 0xC000_0000 && hash(objectId) == 0x5000_0000
    ensures var ring := After(LongCmp, hash, es).buckets;
            Lookup(LongCmp, ring, hash(objectId)) != Owner(ring, hash(objectId))
  {
    es := [Joins(a)] + [Joins(b)] + [Joins(c)];
    ThreeOutOfOrder(hash, a, b, c);
    LookupGoesAstray(a, b, c);
  }

  /** So a ring under long_cmp and hash32 can send objects to buckets that do not own them. */
  lemma RingGoesAstray() returns (es: seq<Event>, objectId: Word32)
    ensures var ring := After(LongCmp, Hash32, es).buckets;
            Lookup(LongCmp, ring, Hash32(objectId)) != Owner(ring, Hash32(objectId))
  {
    var a := IdAt(0);
    var b := IdAt(0x6000_0000);
    var c := IdAt(0xC000_0000);
    objectId := IdAt(0x5000_0000);
    es := Astray(Hash32, a, b, c, objectId);
  }
}
