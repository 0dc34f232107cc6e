/** The queue operations as they update a row in place, each proved against its specification
    in module Queues. The assertions of the original appear as proved assertions; what they ask of
    the caller is a precondition here, and QueueRuns and TxnReads say when it is met. */
module QueueRows {
  import opened Order
  import opened SortedSeq
  import opened Queues

  /** The status of a read says whether there is more. */
  ghost predicate Told(r: ReadResult, log: seq<Item>) {
    r.status == if r.newHead == |log| - 1 then READ_COMPLETE else READ_INCOMPLETE
  }

  /** The part read_queue and peek_queue share: the entries after `from`, found by a range search. */
  method Fetch(q: Queue, from: int, max: int, ghost log: seq<Item>) returns (r: ReadResult)
    requires Logs(q, log) && -1 <= from < |log| - 1 && max >= 1
    ensures r == ReadAfter(q, from, max)
    ensures from < r.newHead < |log| && r.batch == log[from + 1..r.newHead + 1] && Told(r, log)
  {
    BatchIsLogSlice(q, log, from, max);
    CompleteIff(q, log, from, max);
    var newHead := NewHead(q, from, max);
    var startIndex := from + 1;
    var startRow, noResults := RangeSearch(q.cells, startIndex, newHead);
    assert noResults == newHead - startIndex + 1;
    r := ReadResult(if newHead == q.noEntries - 1 then READ_COMPLETE else READ_INCOMPLETE, newHead,
                    Values(q.cells[startRow..startRow + noResults]));
  }

  /** The same when there may be nothing to read. */
  method FetchAny(q: Queue, from: int, max: int, ghost log: seq<Item>) returns (r: ReadResult)
    requires Logs(q, log) && -1 <= from < |log| && (from < |log| - 1 ==> max >= 1)
    ensures r == ReadAfter(q, from, max)
    ensures from <= r.newHead < |log| && r.batch == log[from + 1..r.newHead + 1] && Told(r, log)
  {
    if from == q.noEntries - 1 {
      return ReadResult(READ_COMPLETE, from, []);
    }
    r := Fetch(q, from, max, log);
  }

  lemma GotMore(q: Queue, p: Queue, c: int, log: seq<Item>, head: int)
    requires c in q.consumers && c in p.consumers && p == SetReadHead(q, c, p.consumers[c].readHead)
    requires -1 <= q.consumers[c].readHead <= p.consumers[c].readHead <= head < |log|
    ensures SetReadHead(p, c, head) == SetReadHead(q, c, head)
    ensures var a, b := q.consumers[c].readHead + 1, p.consumers[c].readHead + 1;
            log[a..b] + log[b..head + 1] == log[a..head + 1]
  {
    assert SetReadHead(p, c, head).consumers == SetReadHead(q, c, head).consumers;
  }

  class QueueRow {
    var noEntries: nat
    var cells: seq<Entry<int, Item>>
    var consumers: map<int, Consumer>

    ghost function State(): Queue
      reads this
    {
      Queue(noEntries, cells, consumers)
    }

    /** create_queue, with no group subscribers. */
    constructor ()
      ensures State() == EMPTY_QUEUE && Logs(State(), []) && HeadsOk(State())
    {
      noEntries := 0;
      cells := [Entry(SENTINEL_ID, [0])];
      consumers := map[];
    }

    method Enqueue(item: Item, ghost log: seq<Item>)
      requires Logs(State(), log) && HeadsOk(State())
      modifies this
      ensures State() == AfterEnqueue(old(State()), item)
      ensures Logs(State(), log + [item]) && HeadsOk(State())
    {
      EnqueueLogs(State(), log, item);
      var entryId := noEntries;
      noEntries := noEntries + 1;
      cells := Put(IdCmp, cells, entryId, item);
    }

    method Subscribe(c: int) returns (status: int, prevReadHead: int, prevConsumeHead: int)
      modifies this
      ensures State() == AfterSubscribe(old(State()), c)
      ensures old(HeadsOk(State())) ==> HeadsOk(State())
      ensures c in old(consumers) ==>
                status == DUPLICATE_CONSUMER && Consumer(prevReadHead, prevConsumeHead) == old(consumers)[c]
      ensures c !in old(consumers) ==> status == 0 && prevReadHead == -1 && prevConsumeHead == -1
    {
      prevReadHead, prevConsumeHead := -1, -1;
      if c in consumers {
        prevReadHead, prevConsumeHead := consumers[c].readHead, consumers[c].consumeHead;
        return DUPLICATE_CONSUMER, prevReadHead, prevConsumeHead;
      }
      consumers := consumers[c := Consumer(-1, -1)];
      status := 0;
    }

    /** Reports success also for a consumer that was not subscribed. With no consumer left, an id
        that looks like the header's makes the deletion free the header of the consumer list. */
    method Unsubscribe(c: int) returns (status: int, headerFreed: bool)
      modifies this
      ensures headerFreed <==> LosesConsumers(old(State()), c)
      ensures !headerFreed ==> status == 0 && State() == AfterUnsubscribe(old(State()), c)
      ensures !headerFreed && old(HeadsOk(State())) ==> HeadsOk(State())
    {
      status, headerFreed := 0, consumers == map[] && LooksLikeHeader(c);
      if !headerFreed {
        consumers := consumers - {c};
      }
    }

    method Read(c: int, max: int, ghost log: seq<Item>) returns (r: ReadResult)
      requires Logs(State(), log) && HeadsOk(State())
      requires c in consumers && consumers[c].readHead < noEntries - 1 ==> max >= 1
      modifies this
      ensures r == DirectRead(old(State()), c, max)
      ensures c !in consumers ==> r == ReadResult(NO_CONSUMER, 0, []) && State() == old(State())
      ensures State() == AfterRead(old(State()), c, max)
      ensures Logs(State(), log) && HeadsOk(State())
      ensures c in consumers ==>
                && consumers[c].readHead == r.newHead && Told(r, log)
                && r.batch == log[old(consumers[c].readHead) + 1..consumers[c].readHead + 1]
    {
      if c !in consumers {
        return ReadResult(NO_CONSUMER, 0, []);
      }
      var cs := consumers[c];
      assert cs.readHead <= noEntries - 1;
      if cs.readHead == noEntries - 1 {
        return ReadResult(READ_COMPLETE, cs.readHead, []);
      }
      r := Fetch(Queue(noEntries, cells, consumers), cs.readHead, max, log);
      consumers := consumers[c := cs.(readHead := r.newHead)];
    }

    /** Reads without moving the head, from `offset` if that is an entry id and from the head otherwise. */
    method Peek(c: int, max: int, offset: int, ghost log: seq<Item>) returns (r: ReadResult)
      requires Logs(State(), log) && HeadsOk(State())
      requires c in consumers ==> offset < noEntries
      requires c in consumers && PeekStart(State(), c, offset) < noEntries - 1 ==> max >= 1
      ensures r == PeekAt(State(), c, max, offset)
      ensures c !in consumers ==> r == ReadResult(NO_CONSUMER, -1, [])
      ensures c in consumers ==>
                && PeekStart(State(), c, offset) <= r.newHead < |log| && Told(r, log)
                && r.batch == log[PeekStart(State(), c, offset) + 1..r.newHead + 1]
    {
      if c !in consumers {
        return ReadResult(NO_CONSUMER, -1, []);
      }
      var startOffset := if offset >= 0 then offset else consumers[c].readHead;
      assert startOffset <= noEntries - 1;
      r := FetchAny(Queue(noEntries, cells, consumers), startOffset, max, log);
    }

    /** Consumer c has read on and got the entries on the way. */
    ghost predicate HasGot(q: Queue, c: int, log: seq<Item>, got: seq<Item>)
      reads this
    {
      && c in q.consumers && c in consumers
      && -1 <= q.consumers[c].readHead <= consumers[c].readHead < |log|
      && State() == SetReadHead(q, c, consumers[c].readHead)
      && got == log[q.consumers[c].readHead + 1..consumers[c].readHead + 1]
    }

    /** A read, told without the specification function. */
    method ReadNext(c: int, max: int, ghost log: seq<Item>) returns (r: ReadResult)
      requires Logs(State(), log) && HeadsOk(State()) && max >= 1
      modifies this
      ensures Logs(State(), log) && HeadsOk(State())
      ensures c !in old(consumers) ==> r == ReadResult(NO_CONSUMER, 0, []) && State() == old(State())
      ensures c in old(consumers) ==>
                var h := old(consumers[c].readHead);
                && State() == SetReadHead(old(State()), c, r.newHead) && Told(r, log)
                && -1 <= h <= r.newHead < |log| && (h < |log| - 1 ==> h < r.newHead)
                && r.batch == log[h + 1..r.newHead + 1]
    {
      if c in consumers {
        BatchIsLogSlice(State(), log, consumers[c].readHead, max);
      }
      r := Read(c, max, log);
    }

    /** One read more. */
    method ReadOn(c: int, max: int, ghost log: seq<Item>, ghost q: Queue, got: seq<Item>)
      returns (status: int, got': seq<Item>)
      requires Logs(State(), log) && HeadsOk(State()) && max >= 1 && (c in consumers ==> HasGot(q, c, log, got))
      modifies this
      ensures Logs(State(), log) && HeadsOk(State())
      ensures c !in old(consumers) ==> status == NO_CONSUMER && got' == got && State() == old(State())
      ensures c in old(consumers) ==>
                && HasGot(q, c, log, got')
                && status == (if consumers[c].readHead == |log| - 1 then READ_COMPLETE else READ_INCOMPLETE)
                && (status == READ_INCOMPLETE ==> old(consumers[c].readHead) < consumers[c].readHead)
    {
      ghost var before := State();
      var r := ReadNext(c, max, log);
      status, got' := r.status, got + r.batch;
      if c in consumers {
        GotMore(q, before, c, log, r.newHead);
      }
    }

    /** Reads until a read says COMPLETE: the consumer gets all it has not read. */
    method ReadWhileNotEmpty(c: int, max: int, ghost log: seq<Item>) returns (status: int, got: seq<Item>)
      requires Logs(State(), log) && HeadsOk(State()) && max >= 1
      modifies this
      ensures c !in old(consumers) ==> status == NO_CONSUMER && got == [] && State() == old(State())
      ensures c in old(consumers) ==>
                && status == READ_COMPLETE && got == log[old(consumers[c].readHead) + 1..]
                && State() == SetReadHead(old(State()), c, |log| - 1)
      ensures Logs(State(), log) && HeadsOk(State())
    {
      status, got := READ_INCOMPLETE, [];
      if c in consumers {
        assert consumers == consumers[c := consumers[c].(readHead := consumers[c].readHead)];
      }
      while status != READ_COMPLETE
        invariant Logs(State(), log) && HeadsOk(State())
        invariant if c in old(consumers) then HasGot(old(State()), c, log, got)
                  else State() == old(State()) && status == READ_INCOMPLETE && got == []
        invariant c in consumers && status == READ_COMPLETE ==> consumers[c].readHead == |log| - 1
        decreases status != READ_COMPLETE, if c in consumers then |log| - consumers[c].readHead else 0
      {
        status, got := ReadOn(c, max, log, old(State()), got);
        if status < 0 {
          return;
        }
      }
    }

    method Consume(c: int, head: int) returns (status: int)
      requires HeadsOk(State())
      modifies this
      ensures status == ConsumeStatus(old(State()), c, head)
      ensures State() == AfterConsume(old(State()), c, head) && HeadsOk(State())
      ensures noEntries == old(noEntries) && cells == old(cells)
      ensures consumers == if c in old(consumers) && head <= old(consumers[c].readHead) then
                old(consumers)[c := Consumer(old(consumers[c].readHead), head)] else old(consumers)
    {
      if c !in consumers {
        return NO_CONSUMER;
      }
      var cs := consumers[c];
      assert cs.consumeHead <= cs.readHead;
      if head > cs.readHead {
        return HEAD_INVALID;
      }
      if head == cs.consumeHead {
        assert consumers == consumers[c := cs.(consumeHead := head)];
        return QUEUE_COMPLETE;
      }
      consumers := consumers[c := cs.(consumeHead := head)];
      status := head;
    }

    /** set_private_read_head: what a committing transaction does with its last read. */
    method SetPrivateReadHead(c: int, head: int) returns (status: int)
      requires HeadsOk(State()) && ReadHeadChecks(State(), c, head)
      modifies this
      ensures c !in old(consumers) ==> status == NO_CONSUMER && State() == old(State())
      ensures c in old(consumers) ==> status == 0 && State() == SetReadHead(old(State()), c, head)
      ensures HeadsOk(State())
    {
      if c !in consumers {
        return NO_CONSUMER;
      }
      assert head <= noEntries - 1 && consumers[c].readHead <= head && consumers[c].consumeHead <= head;
      consumers := consumers[c := consumers[c].(readHead := head)];
      status := 0;
    }

    /** set_private_consume_head: what a committing transaction does with its last consume. */
    method SetPrivateConsumeHead(c: int, head: int) returns (status: int)
      requires HeadsOk(State()) && ConsumeHeadChecks(State(), c, head)
      modifies this
      ensures c !in old(consumers) ==> status == NO_CONSUMER && State() == old(State())
      ensures c in old(consumers) ==> status == 0 && State() == SetConsumeHead(old(State()), c, head)
      ensures HeadsOk(State())
    {
      if c !in consumers {
        return NO_CONSUMER;
      }
      assert head <= noEntries - 1 && head <= consumers[c].readHead && consumers[c].consumeHead <= head;
      if consumers[c].consumeHead <= head {
        consumers := consumers[c := consumers[c].(consumeHead := head)];
      }
      status := 0;
    }
  }
}
