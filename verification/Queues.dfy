/** Queues: rows whose cells are an append-only log, read through per-consumer heads.
    The cells form a skiplist keyed by entry id, used here in its sorted-sequence meaning. */
module Queues {
  import opened Order
  import opened SortedSeq

  type Item = seq<int>

  const NO_CONSUMER := -3
  const QUEUE_COMPLETE := -4
  const HEAD_INVALID := -5
  const DUPLICATE_CONSUMER := -7
  const READ_INCOMPLETE := 0
  const READ_COMPLETE := 1

  const SENTINEL_ID := -2

  // ---- Range search over the cells of a row ----

  /** Where the scan that starts at index i stops: at the first key not below `end`, or at the last cell. */
  function ScanEnd(cells: seq<Entry<int, Item>>, i: nat, end: int): (e: nat)
    requires i < |cells|
    ensures i <= e < |cells|
    ensures forall k :: i <= k < e ==> cells[k].key < end
    ensures e + 1 < |cells| ==> cells[e].key >= end
    decreases |cells| - i
  {
    if i + 1 < |cells| && cells[i].key < end then ScanEnd(cells, i + 1, end) else i
  }

  /** How many cells table_range_search_clustering returns, from the first key not below `start`. */
  function RangeCount(cells: seq<Entry<int, Item>>, start: int, end: int): (n: nat)
    ensures Rank(IdCmp, cells, start) + n <= |cells|
  {
    var i := Rank(IdCmp, cells, start);
    if i == |cells| then 0 else ScanEnd(cells, i, end) + 1 - i
  }

  method RangeSearch(cells: seq<Entry<int, Item>>, start: int, end: int) returns (startRow: nat, noResults: nat)
    ensures startRow == Rank(IdCmp, cells, start) && noResults == RangeCount(cells, start, end)
  {
    startRow := Rank(IdCmp, cells, start);
    if startRow == |cells| {
      return startRow, 0;
    }
    var endRow := startRow;
    noResults := 0;
    while endRow + 1 < |cells| && cells[endRow].key < end
      invariant startRow <= endRow < |cells| && noResults == endRow - startRow
      invariant ScanEnd(cells, startRow, end) == ScanEnd(cells, endRow, end)
      decreases |cells| - endRow
    {
      endRow, noResults := endRow + 1, noResults + 1;
    }
    noResults := noResults + 1;
  }

  /** The search returns the cells with keys in [start, end] and no others. */
  ghost predicate Exact(cells: seq<Entry<int, Item>>, start: int, end: int) {
    var i := Rank(IdCmp, cells, start);
    forall k :: 0 <= k < |cells| ==> (i <= k < i + RangeCount(cells, start, end) <==> start <= cells[k].key <= end)
  }

  ghost predicate KeyAt(cells: seq<Entry<int, Item>>, k: int) {
    exists i :: 0 <= i < |cells| && cells[i].key == k
  }

  ghost predicate SomeBeyond(cells: seq<Entry<int, Item>>, start: int, end: int) {
    exists i :: 0 <= i < |cells| && cells[i].key >= start && cells[i].key > end
  }

  /** The scan includes the cell it stops at, so a range search is exact just when it does not run
      past `end`: either `end` itself is stored (and not below start), or nothing beyond it is. */
  lemma RangeExactIff(cells: seq<Entry<int, Item>>, start: int, end: int)
    requires Sorted(IdCmp, cells)
    ensures Exact(cells, start, end) <==> !SomeBeyond(cells, start, end) || (start <= end && KeyAt(cells, end))
  {
    var i := Rank(IdCmp, cells, start);
    KeysGrow(cells);
    if i < |cells| {
      if cells[ScanEnd(cells, i, end)].key <= end {
        StopsInTime(cells, start, end);
      } else {
        RunsPast(cells, start, end);
      }
    }
  }

  lemma KeysGrow(cells: seq<Entry<int, Item>>)
    requires Sorted(IdCmp, cells)
    ensures forall j, k :: 0 <= j < k < |cells| ==> cells[j].key < cells[k].key
  {
    forall j, k | 0 <= j < k < |cells|
      ensures cells[j].key < cells[k].key
    {
      assert IdCmp(cells[j].key, cells[k].key) < 0;
    }
  }

  lemma StopsInTime(cells: seq<Entry<int, Item>>, start: int, end: int)
    requires forall j, k :: 0 <= j < k < |cells| ==> cells[j].key < cells[k].key
    requires var i := Rank(IdCmp, cells, start); i < |cells| && cells[ScanEnd(cells, i, end)].key <= end
    ensures Exact(cells, start, end)
    ensures !SomeBeyond(cells, start, end) || (start <= end && KeyAt(cells, end))
  {
    var i := Rank(IdCmp, cells, start);
    var e := ScanEnd(cells, i, end);
    assert cells[i].key >= start;
    if e + 1 < |cells| {
      assert cells[e].key == end && KeyAt(cells, end);
    }
  }

  lemma RunsPast(cells: seq<Entry<int, Item>>, start: int, end: int)
    requires forall j, k :: 0 <= j < k < |cells| ==> cells[j].key < cells[k].key
    requires var i := Rank(IdCmp, cells, start); i < |cells| && cells[ScanEnd(cells, i, end)].key > end
    ensures !Exact(cells, start, end)
    ensures SomeBeyond(cells, start, end) && (start <= end ==> !KeyAt(cells, end))
  {
    var i := Rank(IdCmp, cells, start);
    var e := ScanEnd(cells, i, end);
    assert cells[i].key >= start;
    assert cells[e].key >= start && i <= e < i + RangeCount(cells, start, end);
    assert forall k :: i <= k < e ==> cells[k].key < end;
    assert forall k :: 0 <= k < i ==> cells[k].key < start;
  }

  /** With keys 1 and 3 stored, the search from 1 to 2 returns both. */
  lemma RangeOvershoots()
    ensures var cells := [Entry(1, [7]), Entry(3, [8])];
            RangeCount(cells, 1, 2) == 2 && !Exact(cells, 1, 2)
  {
    var cells := [Entry(1, [7]), Entry(3, [8])];
    RankUnique(IdCmp, cells, 1, 0);
    assert ScanEnd(cells, 0, 2) == ScanEnd(cells, 1, 2) == 1;
    assert cells[1].key == 3;
  }

  // ---- Queue state and its operations ----

  datatype Consumer = Consumer(readHead: int, consumeHead: int)

  /** A queue row: entry counter, cells by entry id, consumer state by consumer id. */
  datatype Queue = Queue(noEntries: nat, cells: seq<Entry<int, Item>>, consumers: map<int, Consumer>)

  datatype ReadResult = ReadResult(status: int, newHead: int, batch: seq<Item>)

  const EMPTY_QUEUE := Queue(0, [Entry(SENTINEL_ID, [0])], map[])

  function AfterEnqueue(q: Queue, item: Item): Queue {
    q.(noEntries := q.noEntries + 1, cells := Put(IdCmp, q.cells, q.noEntries, item))
  }

  function AfterSubscribe(q: Queue, c: int): Queue {
    if c in q.consumers then q else q.(consumers := q.consumers[c := Consumer(-1, -1)])
  }

  function AfterUnsubscribe(q: Queue, c: int): Queue {
    q.(consumers := q.consumers - {c})
  }

  function NewHead(q: Queue, from: int, max: int): int {
    if from + max < q.noEntries - 1 then from + max else q.noEntries - 1
  }

  /** What a read after entry `from` returns. */
  function ReadAfter(q: Queue, from: int, max: int): ReadResult {
    if from == q.noEntries - 1 then
      ReadResult(READ_COMPLETE, from, [])
    else
      var head := NewHead(q, from, max);
      var i := Rank(IdCmp, q.cells, from + 1);
      ReadResult(if head == q.noEntries - 1 then READ_COMPLETE else READ_INCOMPLETE, head,
                 Values(q.cells[i..i + RangeCount(q.cells, from + 1, head)]))
  }

  function SetReadHead(q: Queue, c: int, head: int): Queue
    requires c in q.consumers
  {
    q.(consumers := q.consumers[c := q.consumers[c].(readHead := head)])
  }

  function SetConsumeHead(q: Queue, c: int, head: int): Queue
    requires c in q.consumers
  {
    q.(consumers := q.consumers[c := q.consumers[c].(consumeHead := head)])
  }

  /** The assertions of set_private_read_head: the head is that of an entry and does not move back. */
  predicate ReadHeadChecks(q: Queue, c: int, head: int) {
    c in q.consumers ==>
      head <= q.noEntries - 1 && q.consumers[c].readHead <= head && q.consumers[c].consumeHead <= head
  }

  /** The assertions of set_private_consume_head: only entries that were read are consumed. */
  predicate ConsumeHeadChecks(q: Queue, c: int, head: int) {
    c in q.consumers ==>
      head <= q.noEntries - 1 && head <= q.consumers[c].readHead && q.consumers[c].consumeHead <= head
  }

  /** The assertions of a read after entry `from`; see CountCheckIff. */
  predicate ReadChecks(q: Queue, from: int, max: int) {
    && from <= q.noEntries - 1
    && (from < q.noEntries - 1 ==> RangeCount(q.cells, from + 1, NewHead(q, from, max)) == NewHead(q, from, max) - from)
  }

  /** Unsubscribing from a queue without consumers by an id that looks like the header's frees the
      header of the consumer list. */
  predicate LosesConsumers(q: Queue, c: int) {
    q.consumers == map[] && LooksLikeHeader(c)
  }

  function DirectRead(q: Queue, c: int, max: int): ReadResult {
    if c !in q.consumers then ReadResult(NO_CONSUMER, 0, []) else ReadAfter(q, q.consumers[c].readHead, max)
  }

  /** Where a peek starts. */
  function PeekStart(q: Queue, c: int, offset: int): int
    requires c in q.consumers
  {
    if offset >= 0 then offset else q.consumers[c].readHead
  }

  /** What a peek returns; the head of a failed one is the caller's initial -1. */
  function PeekAt(q: Queue, c: int, max: int, offset: int): ReadResult {
    if c !in q.consumers then ReadResult(NO_CONSUMER, -1, []) else ReadAfter(q, PeekStart(q, c, offset), max)
  }

  function AfterRead(q: Queue, c: int, max: int): Queue {
    if c !in q.consumers then q else SetReadHead(q, c, DirectRead(q, c, max).newHead)
  }

  function ConsumeStatus(q: Queue, c: int, head: int): int {
    if c !in q.consumers then NO_CONSUMER
    else if head > q.consumers[c].readHead then HEAD_INVALID
    else if head == q.consumers[c].consumeHead then QUEUE_COMPLETE
    else head
  }

  function AfterConsume(q: Queue, c: int, head: int): Queue {
    if c in q.consumers && head <= q.consumers[c].readHead then
      SetConsumeHead(q, c, head)
    else q
  }

  /** No other consumer and no entry is touched. */
  ghost predicate OnlyConsumer(q: Queue, q': Queue, c: int) {
    && q'.noEntries == q.noEntries && q'.cells == q.cells && q'.consumers.Keys == q.consumers.Keys
    && forall d :: d in q.consumers && d != c ==> q'.consumers[d] == q.consumers[d]
  }

  /** What a consume does: it is accepted when the consumer has read that far, and then the consume head
      is where it says, also if that is further back; else nothing changes. The status tells the two
      apart, except that a consume up to where the head was is reported as nothing to do. */
  lemma ConsumeMoves(q: Queue, c: int, head: int)
    ensures var q', status := AfterConsume(q, c, head), ConsumeStatus(q, c, head);
            if c in q.consumers && head <= q.consumers[c].readHead then
              && OnlyConsumer(q, q', c) && q'.consumers[c] == Consumer(q.consumers[c].readHead, head)
              && status == if q' == q then QUEUE_COMPLETE else head
            else
              && q' == q && status == if c in q.consumers then HEAD_INVALID else NO_CONSUMER
  {
    if c in q.consumers && head == q.consumers[c].consumeHead {
      assert q.consumers[c := Consumer(q.consumers[c].readHead, head)] == q.consumers;
    }
  }

  // ---- Reachable queues ----

  /** The cells are the sentinel and then the log, numbered from 0 without gaps. */
  ghost predicate Logs(q: Queue, log: seq<Item>) {
    && q.noEntries == |log| && |q.cells| == |log| + 1
    && q.cells[0] == Entry(SENTINEL_ID, [0])
    && (forall i :: 1 <= i < |q.cells| ==> q.cells[i] == Entry(i - 1, log[i - 1]))
  }

  ghost predicate HeadsOk(q: Queue) {
    forall c :: c in q.consumers ==>
      -1 <= q.consumers[c].readHead < q.noEntries && q.consumers[c].consumeHead <= q.consumers[c].readHead
  }

  lemma RankOfId(q: Queue, log: seq<Item>, k: int)
    requires Logs(q, log) && 0 <= k <= |log|
    ensures Rank(IdCmp, q.cells, k) == k + 1
  {
    RankUnique(IdCmp, q.cells, k, k + 1);
  }

  lemma EnqueueLogs(q: Queue, log: seq<Item>, item: Item)
    requires Logs(q, log)
    ensures Logs(AfterEnqueue(q, item), log + [item])
  {
    RankOfId(q, log, |log|);
  }

  /** A read with max >= 1 returns the log from the old head to the new one; the count check of
      read_queue and peek_queue passes. */
  lemma BatchIsLogSlice(q: Queue, log: seq<Item>, from: int, max: int)
    requires Logs(q, log) && -1 <= from < |log| && max >= 1
    ensures var r := ReadAfter(q, from, max);
            from <= r.newHead < |log| && r.batch == log[from + 1..r.newHead + 1]
    ensures from + 1 < |log| ==> from < ReadAfter(q, from, max).newHead
    ensures from + 1 < |log| ==>
              RangeCount(q.cells, from + 1, NewHead(q, from, max)) == NewHead(q, from, max) - (from + 1) + 1
  {
    if from + 1 < |log| {
      var head := NewHead(q, from, max);
      RankOfId(q, log, from + 1);
      var i := from + 2;
      var e := ScanEnd(q.cells, i, head);
      assert q.cells[head + 1].key == head;
      assert e == head + 1 by {
        assert e + 1 < |q.cells| ==> q.cells[e].key >= head;
        assert forall k :: i <= k < e ==> q.cells[k].key < head;
      }
      assert Values(q.cells[i..e + 1]) == log[from + 1..head + 1];
    }
  }

  /** A read says COMPLETE exactly when it leaves nothing unread. */
  lemma CompleteIff(q: Queue, log: seq<Item>, from: int, max: int)
    requires Logs(q, log) && -1 <= from < |log| && max >= 1
    ensures var r := ReadAfter(q, from, max);
            && r.status in {READ_COMPLETE, READ_INCOMPLETE}
            && (r.status == READ_COMPLETE <==> r.newHead == |log| - 1)
            && (r.status == READ_COMPLETE <==> from + max >= |log| - 1)
  {
  }

  /** The count check of a read that finds unread entries passes exactly when max >= 1. */
  lemma CountCheckIff(q: Queue, log: seq<Item>, from: int, max: int)
    requires Logs(q, log) && -1 <= from && from + 1 < |log|
    ensures RangeCount(q.cells, from + 1, NewHead(q, from, max)) == NewHead(q, from, max) - (from + 1) + 1 <==> max >= 1
  {
    if max >= 1 {
      BatchIsLogSlice(q, log, from, max);
    } else {
      RankOfId(q, log, from + 1);
      assert RangeCount(q.cells, from + 1, NewHead(q, from, max)) >= 1;
    }
  }

  /** A read of no entries from a queue that holds one finds one. */
  lemma ZeroReadFindsOne(item: Item)
    ensures var q := AfterEnqueue(EMPTY_QUEUE, item);
            NewHead(q, -1, 0) == -1 && RangeCount(q.cells, 0, -1) != 0
  {
    var q := AfterEnqueue(EMPTY_QUEUE, item);
    EnqueueLogs(EMPTY_QUEUE, [], item);
    assert [] + [item] == [item];
    CountCheckIff(q, [item], -1, 0);
  }
}
