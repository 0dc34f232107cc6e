/** Any interleaving of queue operations by any number of producers and consumers, in and out of
    transactions. */
module QueueRuns {
  import opened Order
  import opened SortedSeq
  import opened Queues

  /** The last two are what a committing transaction does with its reads and consumes. */
  datatype Event =
    | Enqueued(item: Item)
    | Subscribed(c: int)
    | Unsubscribed(c: int)
    | HasRead(c: int, max: int)
    | Consumed(c: int, head: int)
    | ReadCommitted(c: int, head: int)
    | ConsumeCommitted(c: int, head: int)

  function Step(q: Queue, e: Event): Queue {
    match e
    case Enqueued(item) => AfterEnqueue(q, item)
    case Subscribed(c) => AfterSubscribe(q, c)
    case Unsubscribed(c) => AfterUnsubscribe(q, c)
    case HasRead(c, max) => AfterRead(q, c, max)
    case Consumed(c, head) => AfterConsume(q, c, head)
    case ReadCommitted(c, head) => if c in q.consumers then SetReadHead(q, c, head) else q
    case ConsumeCommitted(c, head) => if c in q.consumers then SetConsumeHead(q, c, head) else q
  }

  /** The assertions on the way hold, and no list header is freed. */
  predicate Checks(q: Queue, e: Event) {
    match e
    case Enqueued(_) => true
    case Subscribed(_) => true
    case Unsubscribed(c) => !LosesConsumers(q, c)
    case HasRead(c, max) => c in q.consumers ==> ReadChecks(q, q.consumers[c].readHead, max)
    case Consumed(c, _) => c in q.consumers ==> q.consumers[c].consumeHead <= q.consumers[c].readHead
    case ReadCommitted(c, head) => ReadHeadChecks(q, c, head)
    case ConsumeCommitted(c, head) => ConsumeHeadChecks(q, c, head)
  }

  /** The queue after some events; None once the server has stopped. */
  function Run(es: seq<Event>): Option<Queue> {
    if es == [] then Some(EMPTY_QUEUE)
    else
      var before, e := Run(es[..|es| - 1]), es[|es| - 1];
      if before.None? || !Checks(before.value, e) then None else Some(Step(before.value, e))
  }

  /** The items an event adds to the log. */
  function Produced(e: Event): seq<Item> {
    if e.Enqueued? then [e.item] else []
  }

  /** The items produced so far, in order. */
  function Log(es: seq<Event>): seq<Item> {
    if es == [] then [] else Log(es[..|es| - 1]) + Produced(es[|es| - 1])
  }

  // ---- Every reachable queue ----

  /** Every queue of a running server is the numbered log, with heads in bounds. */
  lemma {:induction false} ReachableQueue(es: seq<Event>)
    requires Run(es).Some?
    ensures Logs(Run(es).value, Log(es)) && HeadsOk(Run(es).value)
  {
    if es != [] {
      var before, e := es[..|es| - 1], es[|es| - 1];
      ReachableQueue(before);
      StepKeeps(Run(before).value, Log(before), e);
    }
  }

  lemma StepKeeps(q: Queue, log: seq<Item>, e: Event)
    requires Logs(q, log) && HeadsOk(q) && Checks(q, e)
    ensures Logs(Step(q, e), log + Produced(e)) && HeadsOk(Step(q, e))
  {
    assert log + [] == log;
    match e
    case Enqueued(item) => EnqueueLogs(q, log, item);
    case HasRead(c, max) =>
      if c in q.consumers {
        ReadKeepsHead(q, log, c, max);
      }
    case _ =>
  }

  lemma ReadKeepsHead(q: Queue, log: seq<Item>, c: int, max: int)
    requires Logs(q, log) && HeadsOk(q) && c in q.consumers && ReadChecks(q, q.consumers[c].readHead, max)
    ensures q.consumers[c].readHead <= DirectRead(q, c, max).newHead < |log|
    ensures q.consumers[c].readHead < |log| - 1 ==> max >= 1
  {
    var h := q.consumers[c].readHead;
    if h < |log| - 1 {
      CountCheckIff(q, log, h, max);
      BatchIsLogSlice(q, log, h, max);
    }
  }

  /** What a caller has to mind: ask for at least one entry when there are unread ones, commit read
      heads that are new, and consume heads that are between the old one and the read head. */
  predicate Minds(q: Queue, e: Event) {
    match e
    case Unsubscribed(c) => q.consumers != map[] || c % TWO32 != TWO32 - 1
    case HasRead(c, max) => c in q.consumers && q.consumers[c].readHead < q.noEntries - 1 ==> max >= 1
    case ReadCommitted(c, head) => c in q.consumers ==> q.consumers[c].readHead <= head < q.noEntries
    case ConsumeCommitted(c, head) => c in q.consumers ==> q.consumers[c].consumeHead <= head <= q.consumers[c].readHead
    case _ => true
  }

  /** In every reachable queue the assertions hold exactly for callers that do. */
  lemma ChecksIff(es: seq<Event>, e: Event)
    requires Run(es).Some?
    ensures Checks(Run(es).value, e) <==> Minds(Run(es).value, e)
  {
    var q, log := Run(es).value, Log(es);
    ReachableQueue(es);
    match e
    case Unsubscribed(c) => LooksLikeHeaderIff(c);
    case HasRead(c, max) =>
      if c in q.consumers && q.consumers[c].readHead < |log| - 1 {
        CountCheckIff(q, log, q.consumers[c].readHead, max);
      }
    case _ =>
  }

  // ---- Read heads ----

  predicate MovesHeadOf(e: Event, c: int) {
    (e.HasRead? || e.ReadCommitted?) && e.c == c
  }

  lemma OthersKeepHead(q: Queue, e: Event, c: int)
    requires MovesHeadOf(e, c) ==> c !in q.consumers
    ensures c in q.consumers && e != Unsubscribed(c) ==>
              c in Step(q, e).consumers && Step(q, e).consumers[c].readHead == q.consumers[c].readHead
    ensures c !in q.consumers && c in Step(q, e).consumers ==> Step(q, e).consumers[c].readHead == -1
    ensures e == Unsubscribed(c) ==> c !in Step(q, e).consumers
  {
  }

  /** Short of unsubscribing, nothing moves a read head back; in particular re-subscribing does not. */
  lemma ReadHeadsNeverRewind(es: seq<Event>, e: Event, c: int)
    requires Run(es + [e]).Some? && e != Unsubscribed(c)
    ensures Run(es).Some? && (c in Run(es).value.consumers ==> c in Run(es + [e]).value.consumers)
    ensures c in Run(es).value.consumers ==>
              Run(es).value.consumers[c].readHead <= Run(es + [e]).value.consumers[c].readHead
    ensures c in Run(es).value.consumers && e == Subscribed(c) ==> Run(es + [e]) == Run(es)
  {
    assert (es + [e])[..|es + [e]| - 1] == es;
    ReachableQueue(es);
    if e.HasRead? && e.c == c && c in Run(es).value.consumers {
      ReadKeepsHead(Run(es).value, Log(es), c, e.max);
    }
  }

  // ---- Consume heads ----

  /** Event k is a consume by c that is accepted, direct or committed. */
  ghost predicate Accepted(es: seq<Event>, k: nat, c: int) {
    && k < |es| && Run(es[..k]).Some? && c in Run(es[..k]).value.consumers
    && match es[k]
       case Consumed(d, head) => d == c && head <= Run(es[..k]).value.consumers[c].readHead
       case ConsumeCommitted(d, _) => d == c
       case _ => false
  }

  /** Nothing since event k counts for c's consume head. */
  ghost predicate Quiet(es: seq<Event>, k: nat, c: int) {
    forall j :: k < j < |es| ==> !Accepted(es, j, c) && es[j] != Unsubscribed(c)
  }

  /** The consume head is that of the last consume accepted since the subscription began. */
  ghost predicate HoldsLastConsume(es: seq<Event>, c: int, head: int) {
    || (exists k: nat :: Accepted(es, k, c) && Quiet(es, k, c) && head == es[k].head)
    || (exists k: nat :: Started(es, k, c) && Quiet(es, k, c) && head == -1)
  }

  /** Event k is a subscription of c when it is not subscribed. */
  ghost predicate Started(es: seq<Event>, k: nat, c: int) {
    k < |es| && es[k] == Subscribed(c) && Run(es[..k]).Some? && c !in Run(es[..k]).value.consumers
  }

  lemma AcceptedLonger(es: seq<Event>, e: Event, k: nat, c: int)
    requires k < |es|
    ensures Accepted(es + [e], k, c) <==> Accepted(es, k, c)
    ensures Started(es + [e], k, c) <==> Started(es, k, c)
  {
    assert (es + [e])[..k] == es[..k];
  }

  lemma QuietLonger(es: seq<Event>, e: Event, k: nat, c: int)
    requires k < |es| && Quiet(es, k, c) && !Accepted(es + [e], |es|, c) && e != Unsubscribed(c)
    ensures Quiet(es + [e], k, c)
  {
    forall j | k < j < |es + [e]|
      ensures !Accepted(es + [e], j, c) && (es + [e])[j] != Unsubscribed(c)
    {
      if j < |es| {
        AcceptedLonger(es, e, j, c);
      }
    }
  }

  lemma LastConsumeStays(es: seq<Event>, e: Event, c: int, head: int)
    requires HoldsLastConsume(es, c, head) && !Accepted(es + [e], |es|, c) && e != Unsubscribed(c)
    ensures HoldsLastConsume(es + [e], c, head)
  {
    if k: nat :| Accepted(es, k, c) && Quiet(es, k, c) && head == es[k].head {
      AcceptedLonger(es, e, k, c);
      QuietLonger(es, e, k, c);
    } else {
      var k: nat :| Started(es, k, c) && Quiet(es, k, c) && head == -1;
      AcceptedLonger(es, e, k, c);
      QuietLonger(es, e, k, c);
    }
  }

  lemma ConsumeStep(es: seq<Event>, e: Event, c: int)
    requires Run(es + [e]).Some? && Run(es).Some? && c in Run(es + [e]).value.consumers
    requires c in Run(es).value.consumers ==> HoldsLastConsume(es, c, Run(es).value.consumers[c].consumeHead)
    ensures HoldsLastConsume(es + [e], c, Run(es + [e]).value.consumers[c].consumeHead)
  {
    var q := Run(es).value;
    assert (es + [e])[..|es|] == es;
    if Accepted(es + [e], |es|, c) {
      assert Quiet(es + [e], |es|, c);
    } else if c in q.consumers {
      assert Run(es + [e]).value.consumers[c].consumeHead == q.consumers[c].consumeHead;
      LastConsumeStays(es, e, c, q.consumers[c].consumeHead);
    } else {
      assert Started(es + [e], |es|, c) && Quiet(es + [e], |es|, c);
    }
  }

  /** In every run, a subscribed consumer's consume head is that of the last consume that was accepted
      since its subscription began, and -1 if there was none. */
  lemma {:induction false} ConsumeHeadIsLast(es: seq<Event>, c: int)
    requires Run(es).Some? && c in Run(es).value.consumers
    ensures HoldsLastConsume(es, c, Run(es).value.consumers[c].consumeHead)
  {
    if es != [] {
      var before, e := es[..|es| - 1], es[|es| - 1];
      assert before + [e] == es;
      if c in Run(before).value.consumers {
        ConsumeHeadIsLast(before, c);
      }
      ConsumeStep(before, e, c);
    }
  }
}
