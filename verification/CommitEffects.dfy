/** What servers store after any run of the commit protocol: at each path, what the transaction persisted
    last there leaves. Servers that voted in time hold what the transaction decided last leaves. */
module CommitEffects {
  import opened SortedSeq
  import opened TxnWrites
  import opened WriteSets
  import opened Database
  import opened Transactions
  import opened IssueOrder
  import opened Quorum
  import opened QuorumSafety
  import opened CommitOrder

  /** The write of a transaction that decides what is at path p of table tb once it is persisted. */
  ghost function Kept(ops: seq<Write>, tb: int, p: seq<int>): Option<Write> {
    LastAffecting(Values(WriteSetOf(ops)), tb, p)
  }

  ghost predicate Writes(st: System, u: int, tb: int, p: seq<int>) {
    u in st.clients && Kept(st.clients[u].ops, tb, p).Some?
  }

  /** Of the transactions server s persisted and that write the path, u is the last. */
  ghost predicate LastWriter(st: System, s: int, tb: int, p: seq<int>, u: int) {
    && Persisted(s, u) in st.when && Writes(st, u, tb, p)
    && forall v :: Persisted(s, v) in st.when && Writes(st, v, tb, p) ==>
      st.when[Persisted(s, v)] <= st.when[Persisted(s, u)]
  }

  /** Server s holds at the path what the last writer left, or what was there before all runs. */
  ghost predicate Stores(cfg: Config, st: System, s: int, tb: int, p: seq<int>) {
    && s in cfg.dbs && s in st.nodes && tb in cfg.dbs[s] && tb in st.nodes[s].db
    && (forall u :: LastWriter(st, s, tb, p, u) ==>
          Row(st.nodes[s].db, tb, p) == Leaves(Kept(st.clients[u].ops, tb, p).value))
    && ((forall u :: Persisted(s, u) in st.when ==> !Writes(st, u, tb, p)) ==>
          Row(st.nodes[s].db, tb, p) == Row(cfg.dbs[s], tb, p))
  }

  // ---- Steps that persist nothing at s ----

  /** What is persisted at s stays, with the transactions as they are. */
  ghost predicate SamePersists(st: System, st': System, s: int) {
    && (forall u :: Persisted(s, u) in st'.when <==> Persisted(s, u) in st.when)
    && (forall u :: Persisted(s, u) in st.when ==>
          && st'.when[Persisted(s, u)] == st.when[Persisted(s, u)]
          && u in st.clients && u in st'.clients && st'.clients[u].ops == st.clients[u].ops)
  }

  lemma QuietStep(cfg: Config, st: System, st': System, s: int, tb: int, p: seq<int>)
    requires Stores(cfg, st, s, tb, p) && SamePersists(st, st', s)
    requires s in st'.nodes && st'.nodes[s].db == st.nodes[s].db
    ensures Stores(cfg, st', s, tb, p)
  {
    forall u | Persisted(s, u) in st.when
      ensures Writes(st', u, tb, p) <==> Writes(st, u, tb, p)
    {
    }
    forall u | LastWriter(st', s, tb, p, u)
      ensures LastWriter(st, s, tb, p, u)
    {
    }
  }

  /** A client does not issue operations after some server persisted its transaction. */
  lemma OpsStay(cfg: Config, st: System, e: Event, s: int, u: int)
    requires Inv(cfg, st) && Enabled(cfg, st, e) && Persisted(s, u) in st.when
    ensures u in st.clients && u in Next(cfg, st, e).clients && Next(cfg, st, e).clients[u].ops == st.clients[u].ops
  {
    assert PersistOk(st, s, u);
    assert ClientOk(cfg, st.clients[u]) && NodeOk(st.clients, st.nodes[s]);
    assert PairOk(st.nodes[s], st.clients[u], u);
  }

  /** Only a decision that arrives writes a persist into the history. */
  lemma WhenStays(cfg: Config, st: System, e: Event, s: int, u: int)
    requires Enabled(cfg, st, e)
    requires !(e.Deliver? && e.s == s && e.t == u && NextMsg(st, u, s) == CommitMsg && u in st.nodes[s].txns)
    ensures Persisted(s, u) in Next(cfg, st, e).when <==> Persisted(s, u) in st.when
    ensures Persisted(s, u) in st.when ==> Next(cfg, st, e).when[Persisted(s, u)] == st.when[Persisted(s, u)]
  {
  }

  predicate PersistsAt(st: System, e: Event, s: int) {
    e.Deliver? && e.s == s && Pending(st, e.t, s) && NextMsg(st, e.t, s) == CommitMsg && e.t in st.nodes[s].txns
  }

  lemma DbStays(cfg: Config, st: System, e: Event, s: int)
    requires Enabled(cfg, st, e) && s in st.nodes && !PersistsAt(st, e, s)
    ensures s in Next(cfg, st, e).nodes && Next(cfg, st, e).nodes[s].db == st.nodes[s].db
  {
    NextNodes(cfg, st, e);
  }

  // ---- Persisting ----

  /** Server s persists t. */
  ghost predicate PersistStep(st: System, st': System, s: int, t: int) {
    && t in st.clients && s in st.nodes && s in st'.nodes && st'.clients == st.clients
    && Persisted(s, t) in st'.when && st'.when[Persisted(s, t)] == st.clock
    && (forall u :: u != t ==> (Persisted(s, u) in st'.when <==> Persisted(s, u) in st.when))
    && (forall u :: u != t && Persisted(s, u) in st.when ==>
          st'.when[Persisted(s, u)] == st.when[Persisted(s, u)] < st.clock)
    && st'.nodes[s].db == PersistAll(st.nodes[s].db, Values(WriteSetOf(st.clients[t].ops))).db
  }

  lemma DeliverPersists(cfg: Config, st: System, e: Event, s: int)
    requires Inv(cfg, st) && Enabled(cfg, st, e) && PersistsAt(st, e, s)
    ensures PersistStep(st, Next(cfg, st, e), s, e.t) && Persisted(s, e.t) !in st.when
  {
    var t := e.t;
    var c, n := st.clients[t], st.nodes[s];
    assert ClientOk(cfg, c) && NodeOk(st.clients, n) && PairOk(n, c, t);
    TailMsg(cfg, c, Cursor(n, t));
    NothingTwice(cfg, st, t, s);
    assert c.ops[..|c.ops|] == c.ops;
  }

  lemma PersistStores(cfg: Config, st: System, st': System, s: int, t: int, tb: int, p: seq<int>)
    requires Stores(cfg, st, s, tb, p) && PersistStep(st, st', s, t) && Persisted(s, t) !in st.when
    ensures Stores(cfg, st', s, tb, p)
  {
    RowAfter(st.nodes[s].db, Values(WriteSetOf(st.clients[t].ops)), tb, p);
    forall u | LastWriter(st', s, tb, p, u)
      ensures Row(st'.nodes[s].db, tb, p) == Leaves(Kept(st'.clients[u].ops, tb, p).value)
    {
      if Writes(st, t, tb, p) {
        assert u == t;
      } else {
        LastWriterBefore(st, st', s, t, tb, p, u);
      }
    }
  }

  lemma LastWriterBefore(st: System, st': System, s: int, t: int, tb: int, p: seq<int>, u: int)
    requires PersistStep(st, st', s, t) && Persisted(s, t) !in st.when && !Writes(st, t, tb, p) &&
             LastWriter(st', s, tb, p, u)
    ensures u != t && LastWriter(st, s, tb, p, u)
  {
  }

  // ---- Runs ----

  lemma NextStores(cfg: Config, st: System, e: Event, s: int, tb: int, p: seq<int>)
    requires Inv(cfg, st) && Enabled(cfg, st, e) && Stores(cfg, st, s, tb, p)
    ensures Stores(cfg, Next(cfg, st, e), s, tb, p)
  {
    var st' := Next(cfg, st, e);
    if PersistsAt(st, e, s) {
      DeliverPersists(cfg, st, e, s);
      PersistStores(cfg, st, st', s, e.t, tb, p);
    } else {
      DbStays(cfg, st, e, s);
      PersistsStay(cfg, st, e, s);
      QuietStep(cfg, st, st', s, tb, p);
    }
  }

  lemma PersistsStay(cfg: Config, st: System, e: Event, s: int)
    requires Inv(cfg, st) && Enabled(cfg, st, e) && !PersistsAt(st, e, s)
    ensures SamePersists(st, Next(cfg, st, e), s)
  {
    forall u
      ensures Persisted(s, u) in Next(cfg, st, e).when <==> Persisted(s, u) in st.when
    {
      WhenStays(cfg, st, e, s, u);
    }
    forall u | Persisted(s, u) in st.when
      ensures Next(cfg, st, e).when[Persisted(s, u)] == st.when[Persisted(s, u)]
      ensures u in st.clients && u in Next(cfg, st, e).clients
      ensures Next(cfg, st, e).clients[u].ops == st.clients[u].ops
    {
      WhenStays(cfg, st, e, s, u);
      OpsStay(cfg, st, e, s, u);
    }
  }

  /** After every run, every server holds at every path what the transaction it persisted last among
      those that write there leaves, in full. */
  lemma {:induction false} EveryRunStores(cfg: Config, es: seq<Event>, s: int, tb: int, p: seq<int>)
    requires s in cfg.dbs && tb in cfg.dbs[s]
    ensures Stores(cfg, After(cfg, es), s, tb, p)
  {
    if es != [] {
      var st := After(cfg, es[..|es| - 1]);
      EveryRunStores(cfg, es[..|es| - 1], s, tb, p);
      Reachable(cfg, es[..|es| - 1]);
      if Enabled(cfg, st, es[|es| - 1]) {
        NextStores(cfg, st, es[|es| - 1], s, tb, p);
      }
    }
  }

  // ---- Replicas agree ----

  /** Server s voted for u by the time of the decision, and has persisted it. */
  predicate InTime(st: System, s: int, u: int) {
    && Voted(s, u) in st.when && Decided(u) in st.when && st.when[Voted(s, u)] < st.when[Decided(u)]
    && Persisted(s, u) in st.when
  }

  ghost predicate CommittedWriter(st: System, u: int, tb: int, p: seq<int>) {
    IsCommitted(st, u) && Writes(st, u, tb, p)
  }

  /** Server s voted for all committed transactions that write the path by the time of their decisions,
      and has persisted them all. */
  ghost predicate UpToDate(st: System, s: int, tb: int, p: seq<int>) {
    forall u :: CommittedWriter(st, u, tb, p) ==> InTime(st, s, u)
  }

  /** Of the committed transactions that write the path, d was decided last, and it conflicts with all
      the others. */
  ghost predicate DecidedLast(st: System, d: int, tb: int, p: seq<int>) {
    && CommittedWriter(st, d, tb, p)
    && forall u :: u != d && CommittedWriter(st, u, tb, p) ==>
         DecidedFirst(st, u, d) && Clash(st.clients[u].ops, st.clients[d].ops)
  }

  lemma LastDecidedIsLastWriter(cfg: Config, st: System, s: int, tb: int, p: seq<int>, d: int)
    requires Inv(cfg, st) && UpToDate(st, s, tb, p) && DecidedLast(st, d, tb, p)
    ensures LastWriter(st, s, tb, p, d)
  {
    assert InTime(st, s, d);
    forall v | Persisted(s, v) in st.when && Writes(st, v, tb, p)
      ensures st.when[Persisted(s, v)] <= st.when[Persisted(s, d)]
    {
      if v != d {
        assert PersistOk(st, s, v) && DecideOk(cfg, st, v);
        assert CommittedWriter(st, v, tb, p) && InTime(st, s, v);
        PromptVoterFollowsDecisions(cfg, st, s, v, d);
        assert VoteOk(st, s, d) && PersistOk(st, s, d);
      }
    }
  }

  /** In every run, a server that is up to date on a path holds there what the committed transaction
      decided last leaves. */
  lemma HoldsLastDecided(cfg: Config, es: seq<Event>, s: int, tb: int, p: seq<int>, d: int)
    requires s in cfg.dbs && tb in cfg.dbs[s]
    requires UpToDate(After(cfg, es), s, tb, p) && DecidedLast(After(cfg, es), d, tb, p)
    ensures var st := After(cfg, es);
            && s in st.nodes && tb in st.nodes[s].db
            && Row(st.nodes[s].db, tb, p) == Leaves(Kept(st.clients[d].ops, tb, p).value)
  {
    Reachable(cfg, es);
    EveryRunStores(cfg, es, s, tb, p);
    LastDecidedIsLastWriter(cfg, After(cfg, es), s, tb, p, d);
  }

  /** So any two such servers agree. */
  lemma ReplicasAgree(cfg: Config, es: seq<Event>, r: int, s: int, tb: int, p: seq<int>, d: int)
    requires r in cfg.dbs && s in cfg.dbs && tb in cfg.dbs[r] && tb in cfg.dbs[s]
    requires UpToDate(After(cfg, es), r, tb, p) && UpToDate(After(cfg, es), s, tb, p)
    requires DecidedLast(After(cfg, es), d, tb, p)
    ensures var st := After(cfg, es);
            && r in st.nodes && tb in st.nodes[r].db && s in st.nodes && tb in st.nodes[s].db
            && Row(st.nodes[r].db, tb, p) == Row(st.nodes[s].db, tb, p)
  {
    HoldsLastDecided(cfg, es, r, tb, p, d);
    HoldsLastDecided(cfg, es, s, tb, p, d);
  }

  /** Transactions that write the path conflict if none of them deletes its row. */
  lemma UpdatesConflict(queueTables: set<int>, lo: int, a: seq<Write>, b: seq<Write>, tb: int, p: seq<int>)
    requires Issuable(queueTables, lo, a) && Issuable(queueTables, lo, b)
    requires Kept(a, tb, p).Some? && Kept(b, tb, p).Some?
    requires forall i :: 0 <= i < |a| ==> !Deletes(a[i], tb, p)
    requires forall i :: 0 <= i < |b| ==> !Deletes(b[i], tb, p)
    ensures Clash(a, b)
  {
    var i := UpdateIssued(queueTables, lo, a, tb, p);
    var j := UpdateIssued(queueTables, lo, b, tb, p);
    assert SamePath(a[i], b[j]);
  }

  lemma UpdateIssued(queueTables: set<int>, lo: int, ops: seq<Write>, tb: int, p: seq<int>) returns (i: nat)
    requires Issuable(queueTables, lo, ops) && Kept(ops, tb, p).Some?
    requires forall i :: 0 <= i < |ops| ==> !Deletes(ops[i], tb, p)
    ensures i < |ops| && Updates(ops[i], tb, p)
  {
    var vs := Values(WriteSetOf(ops));
    LastAffectingIs(vs, tb, p);
    var m: nat :| IsLast(vs, tb, p, m);
    i := ValueFromOp(queueTables, lo, ops, m);
    StampedAt(ops, i);
    assert !Deletes(ops[i], tb, p);
  }

  /** A row delete and an update in the row do not conflict: a server that holds either of them validated
      votes for the other, and the order of persisting decides what is left. */
  lemma RowDeleteDoesNotConflict(db: Db, f: Write -> int)
    requires 7 in db
    ensures var a, b := WriteSetOf([SAMPLE_UPDATE]), WriteSetOf([SAMPLE_DELETE]);
            && ValidateStatus(db, map[1 := Txn(Active, a), 2 := Txn(Validated, b)], 1, false, f) == COMMIT
            && ValidateStatus(db, map[1 := Txn(Validated, a), 2 := Txn(Active, b)], 2, false, f) == COMMIT
    ensures var a, b := [SAMPLE_UPDATE], [SAMPLE_DELETE];
            && 7 in PersistAll(db, a + b).db && 7 in PersistAll(db, b + a).db
            && Row(PersistAll(db, a + b).db, 7, [1, 2]) != Row(PersistAll(db, b + a).db, 7, [1, 2])
  {
    assert KeyPath(SAMPLE_UPDATE) == [1, 2] && KeyPath(SAMPLE_DELETE) == [1];
    VotesBeside(db, SAMPLE_UPDATE, SAMPLE_DELETE, 1, 2, f);
    VotesBeside(db, SAMPLE_DELETE, SAMPLE_UPDATE, 2, 1, f);
    assert map[1 := Txn(Active, WriteSetOf([SAMPLE_UPDATE])), 2 := Txn(Validated, WriteSetOf([SAMPLE_DELETE]))] ==
           map[2 := Txn(Validated, WriteSetOf([SAMPLE_DELETE])), 1 := Txn(Active, WriteSetOf([SAMPLE_UPDATE]))];
    RowAfter(db, [SAMPLE_UPDATE] + [SAMPLE_DELETE], 7, [1, 2]);
    RowAfter(db, [SAMPLE_DELETE] + [SAMPLE_UPDATE], 7, [1, 2]);
  }

  /** One write does not keep another that compares different from being validated. */
  lemma VotesBeside(db: Db, v: Write, w: Write, t: int, u: int, f: Write -> int)
    requires t != u && v.Regular() && w.Regular() && WriteCmp(Stamp(w, 0), Stamp(v, 0)) != 0 &&
             WriteCmp(Stamp(v, 0), Stamp(w, 0)) != 0
    ensures var txns := map[t := Txn(Active, WriteSetOf([v])), u := Txn(Validated, WriteSetOf([w]))];
            ValidateStatus(db, txns, t, false, f) == COMMIT
  {
    var txns := map[t := Txn(Active, WriteSetOf([v])), u := Txn(Validated, WriteSetOf([w]))];
    OneWrite(v);
    OneWrite(w);
    var vs := Values(WriteSetOf([v]));
    forall i | 0 <= i < |vs|
      ensures WriteVerdict(db, txns, t, vs[i], f).Fine?
    {
      assert vs[i] == Stamp(v, 0) && !Has(WriteCmp, WriteSetOf([w]), Stamp(v, 0));
      assert forall x :: x in txns ==> !ConflictsIn(txns, t, x, vs[i]);
    }
  }

  lemma OneWrite(w: Write)
    ensures WriteSetOf([w]) == [Entry(Stamp(w, 0), Stamp(w, 0))]
  {
    assert [w][..0] == [] && WriteSetOf([]) == [];
  }
}
