/** When servers vote for a transaction and what clients make of the votes, exactly. */
module Decisions {
  import opened SortedSeq
  import opened TxnWrites
  import opened WriteSets
  import opened Database
  import opened Transactions
  import opened Quorum
  import opened QuorumSafety
  import opened CommitOrder

  // ---- Votes ----

  /** What validation asks of a queue operation: its queue is there, or is not if it is to be created,
      and a read is up to date. */
  predicate Applies(db: Db, w: Write, versionCmp: Write -> int) {
    && (HasQueue(db, w.tableKey, w.queueId) <==> !w.queryType.CreateQueue?)
    && (w.queryType.ReadQueue? ==> versionCmp(w) == 0)
  }

  ghost predicate AllApply(db: Db, vs: seq<Write>, versionCmp: Write -> int) {
    forall i :: 0 <= i < |vs| && !vs[i].Regular() ==> Applies(db, vs[i], versionCmp)
  }

  /** Transaction u is one that t has to wait for. */
  predicate Holds(txns: Txns, t: int, u: int) {
    u in txns && u != t && txns[u].status.Validated?
  }

  /** A write set answers a search for a path only if its transaction writes the path. */
  lemma PathIssued(queueTables: set<int>, lo: int, ops: seq<Write>, v: Write) returns (j: nat)
    requires Issuable(queueTables, lo, ops) && Admissible(queueTables, lo, v) && v.Regular()
    requires Has(WriteCmp, WriteSetOf(ops), v)
    ensures j < |ops| && SamePath(ops[j], v)
  {
    j := FoundIsIssued(queueTables, lo, ops, v);
    StampedAt(ops, j);
  }

  lemma FoundClashes(queueTables: set<int>, lo: int, a: seq<Write>, b: seq<Write>, m: nat)
    requires Issuable(queueTables, lo, a) && Issuable(queueTables, lo, b)
    requires m < |WriteSetOf(a)| && Values(WriteSetOf(a))[m].Regular()
    requires Has(WriteCmp, WriteSetOf(b), Values(WriteSetOf(a))[m])
    ensures Clash(b, a)
  {
    ValueIsLast(queueTables, lo, a, m);
    var j := PathIssued(queueTables, lo, b, Values(WriteSetOf(a))[m]);
    var k := ValueFromOp(queueTables, lo, a, m);
    StampedAt(a, k);
    assert SamePath(b[j], a[k]);
  }

  /** The VALIDATED transactions are those of the operations `held`, and a clashes with none of them. */
  ghost predicate NoneClashes(queueTables: set<int>, lo: int, txns: Txns, t: int, a: seq<Write>,
                              held: map<int, seq<Write>>) {
    forall u :: Holds(txns, t, u) ==>
      && u in held && Issuable(queueTables, lo, held[u]) && txns[u].writes == WriteSetOf(held[u])
      && !Clash(held[u], a)
  }

  lemma NoConflict(queueTables: set<int>, lo: int, txns: Txns, t: int, a: seq<Write>, held: map<int, seq<Write>>,
                   m: nat, u: int)
    requires Issuable(queueTables, lo, a) && m < |WriteSetOf(a)| && Values(WriteSetOf(a))[m].Regular()
    requires NoneClashes(queueTables, lo, txns, t, a, held) && u in txns
    ensures !ConflictsIn(txns, t, u, Values(WriteSetOf(a))[m])
  {
    if ConflictsIn(txns, t, u, Values(WriteSetOf(a))[m]) {
      assert Holds(txns, t, u);
      FoundClashes(queueTables, lo, a, held[u], m);
    }
  }

  lemma NoClashFine(queueTables: set<int>, lo: int, db: Db, txns: Txns, t: int, a: seq<Write>,
                    held: map<int, seq<Write>>, versionCmp: Write -> int, m: nat)
    requires Issuable(queueTables, lo, a) && m < |WriteSetOf(a)| && NoneClashes(queueTables, lo, txns, t, a, held)
    requires AllApply(db, Values(WriteSetOf(a)), versionCmp)
    ensures WriteVerdict(db, txns, t, Values(WriteSetOf(a))[m], versionCmp).Fine?
  {
    var v := Values(WriteSetOf(a))[m];
    if v.Regular() {
      forall u | u in txns
        ensures !ConflictsIn(txns, t, u, v)
      {
        NoConflict(queueTables, lo, txns, t, a, held, m, u);
      }
    } else {
      assert Applies(db, v, versionCmp);
    }
  }

  /** A server votes for a transaction if and only if its reads are up to date, it clashes with no
      VALIDATED transaction, and its queue operations apply. ACTIVE transactions do not matter. */
  lemma ValidateIff(queueTables: set<int>, lo: int, db: Db, txns: Txns, t: int, a: seq<Write>,
                    held: map<int, seq<Write>>, readsStale: bool, versionCmp: Write -> int)
    requires Issuable(queueTables, lo, a) && t in txns && txns[t].writes == WriteSetOf(a)
    requires forall u :: Holds(txns, t, u) ==>
               u in held && Issuable(queueTables, lo, held[u]) && txns[u].writes == WriteSetOf(held[u])
    ensures ValidateStatus(db, txns, t, readsStale, versionCmp) == COMMIT <==>
              && !readsStale && AllApply(db, Values(WriteSetOf(a)), versionCmp)
              && forall u :: Holds(txns, t, u) ==> !Clash(held[u], a)
  {
    var vs := Values(WriteSetOf(a));
    if ValidateStatus(db, txns, t, readsStale, versionCmp) == COMMIT {
      forall u | Holds(txns, t, u)
        ensures !Clash(held[u], a)
      {
        if Clash(held[u], a) {
          ClashBlocksVote(queueTables, lo, db, txns, u, t, held[u], a, readsStale, versionCmp);
        }
      }
      forall i | 0 <= i < |vs| && !vs[i].Regular()
        ensures Applies(db, vs[i], versionCmp)
      {
        assert WriteVerdict(db, txns, t, vs[i], versionCmp).Fine?;
      }
    } else if !readsStale && AllApply(db, vs, versionCmp) && forall u :: Holds(txns, t, u) ==> !Clash(held[u], a) {
      forall m | 0 <= m < |vs|
        ensures WriteVerdict(db, txns, t, vs[m], versionCmp).Fine?
      {
        NoClashFine(queueTables, lo, db, txns, t, a, held, versionCmp, m);
      }
    }
  }

  /** The operation is on a queue that is not there, and is not one on the queue as such; or it is a
      read whose version compares as one of the two error codes. */
  predicate Unschematic(db: Db, w: Write, versionCmp: Write -> int) {
    if HasQueue(db, w.tableKey, w.queueId) then w.queryType.ReadQueue? && versionCmp(w) in {NO_TABLE, NO_QUEUE}
    else w.PerConsumer() || w.queryType.Enqueue? || w.queryType.SubscribeQueue?
  }

  lemma {:induction false} FirstVerdictIs(db: Db, txns: Txns, t: int, vs: seq<Write>, versionCmp: Write -> int, m: nat)
    requires m < |vs| && !WriteVerdict(db, txns, t, vs[m], versionCmp).Fine?
    requires forall i :: 0 <= i < m ==> WriteVerdict(db, txns, t, vs[i], versionCmp).Fine?
    ensures FirstVerdict(db, txns, t, vs, versionCmp) == WriteVerdict(db, txns, t, vs[m], versionCmp)
  {
    if m > 0 {
      FirstVerdictIs(db, txns, t, vs[1..], versionCmp, m - 1);
    }
  }

  /** A refusal names the schema exactly when the first write that is refused is such an operation. */
  lemma SchemaAbortIff(db: Db, txns: Txns, t: int, versionCmp: Write -> int, m: nat)
    requires t in txns && m < |txns[t].writes|
    requires var vs := Values(txns[t].writes);
             && !WriteVerdict(db, txns, t, vs[m], versionCmp).Fine?
             && forall i :: 0 <= i < m ==> WriteVerdict(db, txns, t, vs[i], versionCmp).Fine?
    ensures var w, status := Values(txns[t].writes)[m], ValidateStatus(db, txns, t, false, versionCmp);
            && status in {ABORT, ABORT_SCHEMA}
            && (status == ABORT_SCHEMA <==> !w.Regular() && Unschematic(db, w, versionCmp))
  {
    FirstVerdictIs(db, txns, t, Values(txns[t].writes), versionCmp, m);
  }

  /** In every run, a server that is asked votes COMMIT if and only if the reads are up to date, no
      transaction it has voted for and not finished writes a path of this one, and its queue operations
      apply to what is stored there. */
  lemma VoteIff(cfg: Config, es: seq<Event>, t: int, s: int, readsStale: bool, versionCmp: Write -> int)
    requires Pending(After(cfg, es), t, s) && NextMsg(After(cfg, es), t, s) == ValidateMsg
    ensures var st := After(cfg, es);
            var n, ops := st.nodes[s], st.clients[t].ops;
            && (forall u :: Holds(n.txns, t, u) ==> u in st.clients)
            && (ValidateStatus(n.db, n.txns, t, readsStale, versionCmp) == COMMIT <==>
                  && !readsStale && AllApply(n.db, Values(WriteSetOf(ops)), versionCmp)
                  && forall u :: Holds(n.txns, t, u) ==> !Clash(st.clients[u].ops, ops))
  {
    var st := After(cfg, es);
    var n := st.nodes[s];
    Reachable(cfg, es);
    ActiveIffNotVoted(cfg, st, t, s);
    assert ClientOk(cfg, st.clients[t]);
    forall u | Holds(n.txns, t, u)
      ensures u in st.clients && Issuable(cfg.queueTables, cfg.lo, st.clients[u].ops)
      ensures n.txns[u].writes == WriteSetOf(st.clients[u].ops)
    {
      ValidatedHasAll(cfg, st, s, u);
    }
    var held := map u | u in st.clients :: st.clients[u].ops;
    ValidateIff(cfg.queueTables, cfg.lo, n.db, n.txns, t, st.clients[t].ops, held, readsStale, versionCmp);
  }

  /** What a server holds when it gets the decision. */
  lemma HoldsWriteSet(cfg: Config, st: System, t: int, s: int)
    requires Inv(cfg, st) && Pending(st, t, s) && t in st.nodes[s].txns && NextMsg(st, t, s) == CommitMsg
    ensures st.nodes[s].txns[t].writes == WriteSetOf(st.clients[t].ops)
  {
    assert ClientOk(cfg, st.clients[t]) && NodeOk(st.clients, st.nodes[s]);
    assert PairOk(st.nodes[s], st.clients[t], t);
    TailMsg(cfg, st.clients[t], Cursor(st.nodes[s], t));
  }

  lemma CommitHandled(st: System, t: int, s: int, readsStale: bool, versionCmp: Write -> int)
    requires Pending(st, t, s) && NextMsg(st, t, s) == CommitMsg && t in st.nodes[s].txns
    ensures var n, st' := st.nodes[s], Handle(st, t, s, readsStale, versionCmp);
            && s in st'.nodes && st'.nodes[s].db == PersistAll(n.db, Values(n.txns[t].writes)).db
            && t !in st'.nodes[s].txns && Persisted(s, t) in st'.when
  {
  }

  lemma OneMore(cfg: Config, es: seq<Event>, e: Event)
    requires Enabled(cfg, After(cfg, es), e)
    ensures After(cfg, es + [e]) == Next(cfg, After(cfg, es), e)
  {
    assert (es + [e])[..|es|] == es;
  }

  /** Server s, in state st, stops at the decision to commit t if and only if persisting the transaction's
      write set does not get past the assertions, and else persists it. */
  ghost predicate StopsOrPersists(cfg: Config, st: System, t: int, s: int, readsStale: bool, versionCmp: Write -> int)
    requires Pending(st, t, s)
  {
    var e, db, vs := Deliver(t, s, readsStale, versionCmp), st.nodes[s].db, Values(WriteSetOf(st.clients[t].ops));
    && (Enabled(cfg, st, Crash(t, s)) <==> !Survives(db, vs))
    && (Enabled(cfg, st, e) <==> Survives(db, vs))
    && (Survives(db, vs) ==>
          var st' := Next(cfg, st, e);
          && s in st'.nodes && st'.nodes[s].db == PersistAll(db, vs).db && t !in st'.nodes[s].txns
          && Persisted(s, t) in st'.when)
  }

  /** In every run, a server that gets the decision to commit a transaction it has not finished does so. */
  lemma CommitStopsIff(cfg: Config, es: seq<Event>, t: int, s: int, readsStale: bool, versionCmp: Write -> int)
    requires Pending(After(cfg, es), t, s) && NextMsg(After(cfg, es), t, s) == CommitMsg
    requires t in After(cfg, es).nodes[s].txns
    ensures StopsOrPersists(cfg, After(cfg, es), t, s, readsStale, versionCmp)
  {
    Reachable(cfg, es);
    HoldsWriteSet(cfg, After(cfg, es), t, s);
    CommitDone(cfg, After(cfg, es), t, s, readsStale, versionCmp);
  }

  lemma CommitDone(cfg: Config, st: System, t: int, s: int, readsStale: bool, versionCmp: Write -> int)
    requires Pending(st, t, s) && NextMsg(st, t, s) == CommitMsg && t in st.nodes[s].txns
    requires st.nodes[s].txns[t].writes == WriteSetOf(st.clients[t].ops)
    ensures StopsOrPersists(cfg, st, t, s, readsStale, versionCmp)
  {
    CommitHandled(st, t, s, readsStale, versionCmp);
  }

  // ---- Decisions ----

  /** Nothing but the client of t has moved. */
  ghost predicate OnlyClient(st: System, st': System, t: int) {
    && st'.nodes == st.nodes && st'.acks == st.acks && st'.clients.Keys == st.clients.Keys
    && forall u :: u in st.clients && u != t ==> st'.clients[u] == st.clients[u]
  }

  /** In every run, a client that decides commits if and only if a majority of the replicas voted for
      its transaction; it goes without a quorum if only a minority replied, and aborts otherwise. */
  lemma DecideIff(cfg: Config, es: seq<Event>, t: int)
    requires InPhase(After(cfg, es), t, Validating)
    ensures var st, st' := After(cfg, es), After(cfg, es + [Decide(t)]);
            var replies := st.clients[t].replies;
            && OnlyClient(st, st', t)
            && (IsCommitted(st', t) <==> MajoritySupports(cfg, replies))
            && (InPhase(st', t, NoQuorum) <==> 2 * |replies| <= cfg.replicationFactor)
            && (InPhase(st', t, Aborted) <==>
                  2 * |replies| > cfg.replicationFactor && !MajoritySupports(cfg, replies))
  {
    DecisionIff(cfg, After(cfg, es).clients[t].replies);
    OneMore(cfg, es, Decide(t));
  }
}
