/** Safety of the commit protocol over all runs. */
module QuorumSafety {
  import opened SortedSeq
  import opened TxnWrites
  import opened WriteSets
  import opened Database
  import opened Transactions
  import opened Quorum

  // ---- Conflicts ----

  /** Two transactions write to the same table and key path. */
  ghost predicate Clash(a: seq<Write>, b: seq<Write>) {
    exists i, j :: 0 <= i < |a| && 0 <= j < |b| && SamePath(a[i], b[j])
  }

  predicate SamePath(a: Write, b: Write) {
    a.Regular() && b.Regular() && a.tableKey == b.tableKey && KeyPath(a) == KeyPath(b)
  }

  lemma ClashSymmetric(a: seq<Write>, b: seq<Write>)
    requires Clash(a, b)
    ensures Clash(b, a)
  {
    var i, j :| 0 <= i < |a| && 0 <= j < |b| && SamePath(a[i], b[j]);
    assert SamePath(b[j], a[i]);
  }

  /** The write set of a transaction answers a search for any path it writes. */
  lemma FindsPath(queueTables: set<int>, lo: int, ops: seq<Write>, q: Write, i: nat)
    requires Issuable(queueTables, lo, ops) && Admissible(queueTables, lo, q)
    requires i < |ops| && SamePath(ops[i], q)
    ensures Has(WriteCmp, WriteSetOf(ops), q)
  {
    StampedAt(ops, i);
    StampAdmissible(queueTables, lo, ops, i, Stamped(ops)[i].localOrder);
    EqualClasses(queueTables, lo, Stamped(ops)[i], q);
    LastSameExists(Stamped(ops), q, i);
    LastWriteWins(queueTables, lo, ops, q);
  }

  /** Some value in the write set is on any path the transaction writes. */
  lemma HoldsPath(queueTables: set<int>, lo: int, ops: seq<Write>, i: nat) returns (m: nat)
    requires Issuable(queueTables, lo, ops) && i < |ops| && ops[i].Regular()
    ensures m < |WriteSetOf(ops)|
    ensures var y := Values(WriteSetOf(ops))[m]; Admissible(queueTables, lo, y) && SamePath(ops[i], y)
  {
    var st := Stamped(ops);
    StampedAt(ops, i);
    StampAdmissible(queueTables, lo, ops, i, st[i].localOrder);
    EqualClasses(queueTables, lo, st[i], st[i]);
    LastSameExists(st, st[i], i);
    var y := LastSame(st, st[i]).value;
    m := LastIsValue(queueTables, lo, ops, st[i], y);
    ValueIsLast(queueTables, lo, ops, m);
    LastSameIs(st, st[i], y);
    EqualClasses(queueTables, lo, y, st[i]);
  }

  /** A server that holds one of two clashing transactions validated does not vote for the other. */
  lemma ClashBlocksVote(queueTables: set<int>, lo: int, db: Db, txns: Txns, t: int, u: int,
                        a: seq<Write>, b: seq<Write>, readsStale: bool, versionCmp: Write -> int)
    requires Issuable(queueTables, lo, a) && Issuable(queueTables, lo, b) && Clash(a, b)
    requires t != u && t in txns && u in txns && txns[t].status.Validated?
    requires txns[t].writes == WriteSetOf(a) && txns[u].writes == WriteSetOf(b)
    ensures ValidateStatus(db, txns, u, readsStale, versionCmp) != COMMIT
  {
    var i, j :| 0 <= i < |a| && 0 <= j < |b| && SamePath(a[i], b[j]);
    var m := HoldsPath(queueTables, lo, b, j);
    var y := Values(WriteSetOf(b))[m];
    FindsPath(queueTables, lo, a, y, i);
    assert ConflictsIn(txns, u, t, y);
    assert WriteVerdict(db, txns, u, y, versionCmp) == Invalid;
  }

  // ---- Servers follow their clients ----

  ghost predicate Structure(cfg: Config, st: System) {
    && st.nodes.Keys == cfg.dbs.Keys
    && (forall t :: t in st.clients ==> ClientOk(cfg, st.clients[t]))
    && (forall s :: s in st.nodes ==> NodeOk(st.clients, st.nodes[s]))
  }

  ghost predicate NodeOk(clients: map<int, Client>, n: Node) {
    forall t :: if t in clients then PairOk(n, clients[t], t) else t !in n.txns && Cursor(n, t) == 0
  }

  /** A client that has sent more. */
  ghost predicate Grows(c: Client, c': Client) {
    || (c'.ops == c.ops && c.tail <= c'.tail && c.rounds <= c'.rounds &&
      (c'.rounds == c.rounds || |c.tail| == c.rounds))
    || (c.tail == [] && c'.tail == [] && c.rounds == c'.rounds == 0 && c.ops <= c'.ops)
  }

  lemma PairGrows(n: Node, c: Client, c': Client, t: int)
    requires PairOk(n, c, t) && Grows(c, c')
    ensures PairOk(n, c', t)
  {
    var k := Cursor(n, t);
    if 1 <= k <= 1 + |c.ops| {
      assert c.ops[..k - 1] == c'.ops[..k - 1];
    }
  }

  /** A message of t moves t's cursor by one and leaves what the server holds of u alone. */
  lemma OthersStay(n: Node, t: int, u: int, m: Msg, readsStale: bool, versionCmp: Write -> int)
    requires t != u
    ensures var n' := NodeAfter(n, t, m, readsStale, versionCmp);
            && Cursor(n', t) == Cursor(n, t) + 1 && Cursor(n', u) == Cursor(n, u)
            && (u in n'.txns <==> u in n.txns) && (u in n.txns ==> n'.txns[u] == n.txns[u])
  {
  }

  lemma WriteSetNext(ops: seq<Write>, k: nat)
    requires 1 <= k <= |ops|
    ensures WriteSetOf(ops[..k]) == Add(WriteSetOf(ops[..k - 1]), ops[k - 1])
  {
    assert ops[..k][..k - 1] == ops[..k - 1] && ops[..k][k - 1] == ops[k - 1];
  }

  lemma OpAdded(n: Node, t: int, op: Write, ws: WriteSet, readsStale: bool, versionCmp: Write -> int)
    requires t in n.txns && n.txns[t] == Txn(Active, ws)
    ensures var n' := NodeAfter(n, t, OpMsg(op), readsStale, versionCmp);
            Cursor(n', t) == Cursor(n, t) + 1 && t in n'.txns && n'.txns[t] == Txn(Active, Add(ws, op))
  {
  }

  lemma PairStepOp(n: Node, c: Client, t: int, readsStale: bool, versionCmp: Write -> int)
    requires PairOk(n, c, t) && Cursor(n, t) <= |c.ops|
    ensures PairOk(NodeAfter(n, t, MsgAt(c, Cursor(n, t)), readsStale, versionCmp), c, t)
  {
    var k := Cursor(n, t);
    if k == 0 {
      assert c.ops[..0] == [];
    } else {
      WriteSetNext(c.ops, k);
      OpAdded(n, t, c.ops[k - 1], WriteSetOf(c.ops[..k - 1]), readsStale, versionCmp);
    }
  }

  lemma PairStepTail(cfg: Config, n: Node, c: Client, t: int, readsStale: bool, versionCmp: Write -> int)
    requires ClientOk(cfg, c) && PairOk(n, c, t) && |c.ops| < Cursor(n, t) < Sent(c)
    ensures PairOk(NodeAfter(n, t, MsgAt(c, Cursor(n, t)), readsStale, versionCmp), c, t)
  {
    assert c.ops[..|c.ops|] == c.ops;
  }

  lemma PairStep(cfg: Config, n: Node, c: Client, t: int, readsStale: bool, versionCmp: Write -> int)
    requires ClientOk(cfg, c) && PairOk(n, c, t) && Cursor(n, t) < Sent(c)
    ensures PairOk(NodeAfter(n, t, MsgAt(c, Cursor(n, t)), readsStale, versionCmp), c, t)
  {
    if Cursor(n, t) <= |c.ops| {
      PairStepOp(n, c, t, readsStale, versionCmp);
    } else {
      PairStepTail(cfg, n, c, t, readsStale, versionCmp);
    }
  }

  lemma StructureSetClient(cfg: Config, st: System, t: int, c: Client)
    requires Structure(cfg, st) && ClientOk(cfg, c) && (t in st.clients ==> Grows(st.clients[t], c))
    ensures Structure(cfg, SetClient(st, t, c))
  {
    forall s | s in st.nodes
      ensures NodeOk(st.clients[t := c], st.nodes[s])
    {
      assert NodeOk(st.clients, st.nodes[s]);
      if t in st.clients {
        PairGrows(st.nodes[s], st.clients[t], c, t);
      }
    }
  }

  /** Server s takes the next message of t: only what it holds of t changes. */
  ghost predicate ServerStep(st: System, st': System, t: int, s: int) {
    && t in st.clients && s in st.nodes && s in st'.nodes
    && st'.clients == st.clients && st'.nodes == st.nodes[s := st'.nodes[s]]
    && var n, n' := st.nodes[s], st'.nodes[s];
    && Cursor(n, t) < Sent(st.clients[t]) && Cursor(n', t) == Cursor(n, t) + 1
    && (forall u :: u != t ==> Same(n, n', u))
  }

  ghost predicate Same(n: Node, n': Node, u: int) {
    && Cursor(n', u) == Cursor(n, u)
    && (u in n'.txns <==> u in n.txns) && (u in n.txns ==> n'.txns[u] == n.txns[u])
  }

  lemma HandleIsServerStep(st: System, t: int, s: int, readsStale: bool, versionCmp: Write -> int)
    requires Pending(st, t, s)
    ensures ServerStep(st, Handle(st, t, s, readsStale, versionCmp), t, s)
  {
    var n := st.nodes[s];
    var m := MsgAt(st.clients[t], Cursor(n, t));
    forall u | u != t
      ensures Same(n, NodeAfter(n, t, m, readsStale, versionCmp), u)
    {
      OthersStay(n, t, u, m, readsStale, versionCmp);
    }
    OthersStay(n, t, t + 1, m, readsStale, versionCmp);
  }

  lemma PairSame(n: Node, n': Node, c: Client, u: int)
    requires PairOk(n, c, u) && Same(n, n', u)
    ensures PairOk(n', c, u)
  {
  }

  lemma ServerStepNode(clients: map<int, Client>, n: Node, n': Node, t: int)
    requires NodeOk(clients, n) && t in clients && PairOk(n', clients[t], t)
    requires forall u :: u != t ==> Same(n, n', u)
    ensures NodeOk(clients, n')
  {
    forall u | u != t
      ensures if u in clients then PairOk(n', clients[u], u) else u !in n'.txns && Cursor(n', u) == 0
    {
      assert Same(n, n', u);
      if u in clients {
        PairSame(n, n', clients[u], u);
      }
    }
  }

  lemma StructureHandle(cfg: Config, st: System, t: int, s: int, readsStale: bool, versionCmp: Write -> int)
    requires Structure(cfg, st)
    requires Pending(st, t, s)
    ensures Structure(cfg, Handle(st, t, s, readsStale, versionCmp))
  {
    var st' := Handle(st, t, s, readsStale, versionCmp);
    HandleIsServerStep(st, t, s, readsStale, versionCmp);
    PairStep(cfg, st.nodes[s], st.clients[t], t, readsStale, versionCmp);
    ServerStepNode(st.clients, st.nodes[s], st'.nodes[s], t);
  }

  // ---- What votes, persists and decisions leave behind ----

  ghost predicate VoteOk(st: System, s: int, t: int) {
    && s in st.nodes && t in st.clients && Voted(s, t) in st.when
    && var c, n := st.clients[t], st.nodes[s];
    && c.rounds >= 1 && Cursor(n, t) >= 2 + |c.ops|
    && (Cursor(n, t) <= Undecided(c) ==> t in n.txns && n.txns[t].status.Validated?)
    && (Cursor(n, t) > Undecided(c) && c.phase.Committed? ==>
          Persisted(s, t) in st.when && st.when[Voted(s, t)] < st.when[Persisted(s, t)])
  }

  ghost predicate PersistOk(st: System, s: int, t: int) {
    && s in st.nodes && t in st.clients && Persisted(s, t) in st.when
    && Cursor(st.nodes[s], t) > Undecided(st.clients[t])
    && Decided(t) in st.when && st.when[Decided(t)] < st.when[Persisted(s, t)]
  }

  ghost predicate DecideOk(cfg: Config, st: System, t: int) {
    && t in st.clients && Decided(t) in st.when
    && st.clients[t].phase.Committed?
    && |Supporters(st.clients[t].replies)| >= QuorumSize(cfg)
    && (forall s :: s in Supporters(st.clients[t].replies) ==>
          Voted(s, t) in st.when && st.when[Voted(s, t)] < st.when[Decided(t)])
  }

  /** If s voted for t and then for the clashing u, it was done with t before it voted for u. */
  ghost predicate OrderOk(st: System, s: int, t: int, u: int) {
    && s in st.nodes && t in st.clients && u in st.clients && Voted(s, t) in st.when && Voted(s, u) in st.when
    && (st.when[Voted(s, t)] < st.when[Voted(s, u)] && Clash(st.clients[t].ops, st.clients[u].ops) ==>
          && Cursor(st.nodes[s], t) > Undecided(st.clients[t])
          && (st.clients[t].phase.Committed? ==>
                Persisted(s, t) in st.when && st.when[Persisted(s, t)] < st.when[Voted(s, u)]))
  }

  ghost predicate RepliesOk(st: System, t: int) {
    && t in st.clients
    && (forall s :: s in st.clients[t].replies ==> s in st.nodes)
    && (forall s :: s in Supporters(st.clients[t].replies) ==> Voted(s, t) in st.when)
    && (st.clients[t].phase.Committed? ==> Decided(t) in st.when)
  }

  ghost predicate AckOk(st: System, a: Ack) {
    a.s in st.nodes && (a.status == COMMIT ==> Voted(a.s, a.t) in st.when)
  }

  /** A server that holds t validated voted for it. */
  ghost predicate ValidatedOk(st: System, s: int, t: int) {
    s in st.nodes && t in st.nodes[s].txns && st.nodes[s].txns[t].status.Validated? ==> Voted(s, t) in st.when
  }

  ghost predicate Clocked(st: System) {
    && (forall o :: o in st.when ==> st.when[o] < st.clock)
    && (forall o, o' :: o in st.when && o' in st.when && st.when[o] == st.when[o'] ==> o == o')
  }

  ghost predicate History(cfg: Config, st: System) {
    && (forall s, t :: Voted(s, t) in st.when ==> VoteOk(st, s, t))
    && (forall s, t :: Persisted(s, t) in st.when ==> PersistOk(st, s, t))
    && (forall t :: Decided(t) in st.when ==> DecideOk(cfg, st, t))
    && (forall s, t, u :: Voted(s, t) in st.when && Voted(s, u) in st.when ==> OrderOk(st, s, t, u))
    && (forall t :: t in st.clients ==> RepliesOk(st, t))
    && (forall a :: a in st.acks ==> AckOk(st, a))
    && (forall s, t :: ValidatedOk(st, s, t))
  }

  /** A step of the client of t: nothing changes at the servers, and t's client sends more. */
  ghost predicate ClientStep(st: System, st': System, t: int) {
    && st'.nodes == st.nodes
    && st.clients.Keys <= st'.clients.Keys
    && (forall u :: u in st.clients && u != t ==> st'.clients[u] == st.clients[u])
    && (forall o :: o in st.when ==> o in st'.when && st'.when[o] == st.when[o])
    && (t in st.clients ==>
          && Grows(st.clients[t], st'.clients[t])
          && (st.clients[t].phase.Committed? ==>
                st'.clients[t].phase.Committed? && st'.clients[t].replies == st.clients[t].replies)
          && (st'.clients[t].phase.Committed? ==>
            st.clients[t].phase.Committed? || |st.clients[t].tail| == st.clients[t].rounds))
  }

  lemma ClientStepVote(cfg: Config, st: System, st': System, t: int, s: int, u: int)
    requires Structure(cfg, st) && VoteOk(st, s, u) && ClientStep(st, st', t)
    ensures VoteOk(st', s, u)
  {
    assert NodeOk(st.clients, st.nodes[s]) && PairOk(st.nodes[s], st.clients[u], u);
  }

  lemma ClientStepPersist(cfg: Config, st: System, st': System, t: int, s: int, u: int)
    requires Structure(cfg, st) && PersistOk(st, s, u) && ClientStep(st, st', t)
    ensures PersistOk(st', s, u)
  {
    assert NodeOk(st.clients, st.nodes[s]) && PairOk(st.nodes[s], st.clients[u], u);
  }

  lemma ClientStepDecide(cfg: Config, st: System, st': System, t: int, u: int)
    requires DecideOk(cfg, st, u) && ClientStep(st, st', t)
    ensures DecideOk(cfg, st', u)
  {
  }

  lemma ClientStepOrder(cfg: Config, st: System, st': System, t: int, s: int, u: int, v: int)
    requires Structure(cfg, st) && VoteOk(st, s, u) && VoteOk(st, s, v) && OrderOk(st, s, u, v) &&
             ClientStep(st, st', t)
    ensures OrderOk(st', s, u, v)
  {
    assert NodeOk(st.clients, st.nodes[s]) && PairOk(st.nodes[s], st.clients[u], u);
    assert st'.clients[u].ops == st.clients[u].ops && st'.clients[v].ops == st.clients[v].ops;
  }

  // ---- Server steps ----

  /** What a server step writes into the history. */
  ghost predicate ServerRecords(st: System, st': System, t: int, s: int)
    requires ServerStep(st, st', t, s)
  {
    && (forall o :: o in st.when ==> o in st'.when && st'.when[o] == st.when[o])
    && (forall o :: o in st'.when && o !in st.when ==> st'.when[o] == st.clock && o in {Voted(s, t), Persisted(s, t)})
    && var c, n, n' := st.clients[t], st.nodes[s], st'.nodes[s];
    && var m := MsgAt(c, Cursor(n, t));
    && (Voted(s, t) in st'.when && Voted(s, t) !in st.when ==>
          m == ValidateMsg && t in n'.txns && n'.txns[t].status.Validated?)
    && (Persisted(s, t) in st'.when && Persisted(s, t) !in st.when ==> m == CommitMsg && t in n.txns)
    && (m == CommitMsg && t in n.txns ==> Persisted(s, t) in st'.when)
    && (t in n'.txns && n'.txns[t].status.Validated? ==>
      (t in n.txns && n.txns[t].status.Validated?) || Voted(s, t) in st'.when)
  }

  /** The server held no validated transaction that clashes with t. */
  ghost predicate Unopposed(st: System, t: int, s: int)
    requires t in st.clients && s in st.nodes
  {
    forall u | u in st.clients && u != t && u in st.nodes[s].txns ::
      st.nodes[s].txns[u] == Txn(Validated, WriteSetOf(st.clients[u].ops)) ==>
        !Clash(st.clients[u].ops, st.clients[t].ops)
  }

  lemma HandleRecords(st: System, t: int, s: int, readsStale: bool, versionCmp: Write -> int)
    requires Pending(st, t, s)
    requires Voted(s, t) !in st.when || NextMsg(st, t, s) != ValidateMsg
    requires Persisted(s, t) !in st.when || t !in st.nodes[s].txns
    ensures var st' := Handle(st, t, s, readsStale, versionCmp);
            ServerStep(st, st', t, s) && ServerRecords(st, st', t, s)
  {
    HandleIsServerStep(st, t, s, readsStale, versionCmp);
  }

  /** The message at the cursor, for a client that sticks to the protocol. */
  lemma TailMsg(cfg: Config, c: Client, k: nat)
    requires ClientOk(cfg, c) && k < Sent(c)
    ensures MsgAt(c, k) == ValidateMsg <==> 1 + |c.ops| <= k < Undecided(c)
    ensures MsgAt(c, k) == CommitMsg <==> k >= Undecided(c) && c.phase.Committed?
  {
    if k >= 1 + |c.ops| {
      assert c.tail[k - 1 - |c.ops|] == MsgAt(c, k);
    }
  }

  lemma OtherVoteKept(st: System, st': System, t: int, s: int, r: int, u: int)
    requires VoteOk(st, r, u) && ServerStep(st, st', t, s) && ServerRecords(st, st', t, s) && !(r == s && u == t)
    ensures VoteOk(st', r, u)
  {
    if r == s {
      assert Same(st.nodes[s], st'.nodes[s], u);
    }
  }

  /** After its vote for t, the server's next message of t can only be the decision. */
  lemma OwnVoteKept(cfg: Config, st: System, st': System, t: int, s: int)
    requires VoteOk(st, s, t) && Clocked(st) && ServerStep(st, st', t, s) && ServerRecords(st, st', t, s)
    requires ClientOk(cfg, st.clients[t]) && PairOk(st.nodes[s], st.clients[t], t)
    requires !Trips(st.nodes[s], t, MsgAt(st.clients[t], Cursor(st.nodes[s], t)))
    requires Persisted(s, t) in st.when ==> PersistOk(st, s, t)
    ensures VoteOk(st', s, t)
  {
    TailMsg(cfg, st.clients[t], Cursor(st.nodes[s], t));
  }

  lemma NewVoteOk(cfg: Config, st: System, st': System, t: int, s: int)
    requires ServerStep(st, st', t, s) && ServerRecords(st, st', t, s) && ClientOk(cfg, st.clients[t])
    requires Voted(s, t) in st'.when && Voted(s, t) !in st.when
    ensures VoteOk(st', s, t)
  {
    TailMsg(cfg, st.clients[t], Cursor(st.nodes[s], t));
  }

  lemma ServerStepVote(cfg: Config, st: System, st': System, t: int, s: int, r: int, u: int)
    requires Structure(cfg, st) && History(cfg, st) && Clocked(st)
    requires ServerStep(st, st', t, s) && ServerRecords(st, st', t, s)
    requires !Trips(st.nodes[s], t, MsgAt(st.clients[t], Cursor(st.nodes[s], t)))
    requires Voted(r, u) in st'.when
    ensures VoteOk(st', r, u)
  {
    assert Voted(r, u) in st.when ==> VoteOk(st, r, u);
    if !(r == s && u == t) {
      OtherVoteKept(st, st', t, s, r, u);
    } else if Voted(s, t) in st.when {
      assert NodeOk(st.clients, st.nodes[s]);
      OwnVoteKept(cfg, st, st', t, s);
    } else {
      NewVoteOk(cfg, st, st', t, s);
    }
  }

  lemma ServerStepPersist(cfg: Config, st: System, st': System, t: int, s: int, r: int, u: int)
    requires Structure(cfg, st) && History(cfg, st) && Clocked(st)
    requires ServerStep(st, st', t, s) && ServerRecords(st, st', t, s)
    requires Persisted(r, u) in st'.when
    ensures PersistOk(st', r, u)
  {
    if Persisted(r, u) in st.when {
      assert PersistOk(st, r, u);
      assert r == s && u != t ==> Same(st.nodes[s], st'.nodes[s], u);
    } else {
      assert ClientOk(cfg, st.clients[t]) && RepliesOk(st, t);
      TailMsg(cfg, st.clients[t], Cursor(st.nodes[s], t));
    }
  }

  lemma ServerStepOrder(cfg: Config, st: System, st': System, t: int, s: int, r: int, u: int, v: int)
    requires Structure(cfg, st) && History(cfg, st) && Clocked(st)
    requires ServerStep(st, st', t, s) && ServerRecords(st, st', t, s)
    requires !Trips(st.nodes[s], t, MsgAt(st.clients[t], Cursor(st.nodes[s], t)))
    requires Voted(s, t) in st'.when && Voted(s, t) !in st.when ==> Unopposed(st, t, s)
    requires Voted(r, u) in st'.when && Voted(r, v) in st'.when
    ensures OrderOk(st', r, u, v)
  {
    ServerStepVote(cfg, st, st', t, s, r, u);
    ServerStepVote(cfg, st, st', t, s, r, v);
    if Voted(r, u) in st.when && Voted(r, v) in st.when {
      assert OrderOk(st, r, u, v);
      if r == s && u != t {
        assert Same(st.nodes[s], st'.nodes[s], u);
      }
    } else if Voted(r, u) in st.when {
      assert r == s && v == t;
      assert VoteOk(st, s, u);
      assert NodeOk(st.clients, st.nodes[s]) && PairOk(st.nodes[s], st.clients[u], u);
      assert Same(st.nodes[s], st'.nodes[s], u);
    }
  }

  lemma VoteUnopposed(cfg: Config, st: System, t: int, s: int, readsStale: bool, versionCmp: Write -> int)
    requires Structure(cfg, st) && t in st.clients && s in st.nodes
    requires t in st.nodes[s].txns && st.nodes[s].txns[t].writes == WriteSetOf(st.clients[t].ops)
    requires ValidateStatus(st.nodes[s].db, st.nodes[s].txns, t, readsStale, versionCmp) == COMMIT
    ensures Unopposed(st, t, s)
  {
    var n := st.nodes[s];
    forall u | u in st.clients && u != t && u in n.txns
      ensures n.txns[u] == Txn(Validated, WriteSetOf(st.clients[u].ops)) ==>
              !Clash(st.clients[u].ops, st.clients[t].ops)
    {
      var a, b := st.clients[u].ops, st.clients[t].ops;
      if n.txns[u] == Txn(Validated, WriteSetOf(a)) && Clash(a, b) {
        ClashBlocksVote(cfg.queueTables, cfg.lo, n.db, n.txns, u, t, a, b, readsStale, versionCmp);
        assert false;
      }
    }
  }

  /** A server never holds more than the client sent: nothing is recorded twice. */
  lemma NothingTwice(cfg: Config, st: System, t: int, s: int)
    requires Structure(cfg, st) && History(cfg, st)
    requires Pending(st, t, s) && !Trips(st.nodes[s], t, NextMsg(st, t, s))
    ensures Voted(s, t) !in st.when || NextMsg(st, t, s) != ValidateMsg
    ensures Persisted(s, t) !in st.when || t !in st.nodes[s].txns
  {
    assert ClientOk(cfg, st.clients[t]) && NodeOk(st.clients, st.nodes[s]);
    TailMsg(cfg, st.clients[t], Cursor(st.nodes[s], t));
    assert Voted(s, t) in st.when ==> VoteOk(st, s, t);
    assert Persisted(s, t) in st.when ==> PersistOk(st, s, t);
  }

  ghost predicate Inv(cfg: Config, st: System) {
    Structure(cfg, st) && History(cfg, st) && Clocked(st)
  }

  lemma HandleAcks(cfg: Config, st: System, t: int, s: int, readsStale: bool, versionCmp: Write -> int)
    requires History(cfg, st)
    requires Pending(st, t, s)
    ensures var st' := Handle(st, t, s, readsStale, versionCmp);
            forall a :: a in st'.acks ==> AckOk(st', a)
  {
    var st' := Handle(st, t, s, readsStale, versionCmp);
    forall a | a in st'.acks
      ensures AckOk(st', a)
    {
      if a in st.acks {
        assert AckOk(st, a);
      }
    }
  }

  lemma HandleClocked(st: System, t: int, s: int, readsStale: bool, versionCmp: Write -> int)
    requires Clocked(st)
    requires Pending(st, t, s)
    requires Voted(s, t) !in st.when || NextMsg(st, t, s) != ValidateMsg
    requires Persisted(s, t) !in st.when || t !in st.nodes[s].txns
    ensures Clocked(Handle(st, t, s, readsStale, versionCmp))
  {
  }

  /** When a vote for t is recorded, nothing the server held opposed it. */
  lemma NewVoteUnopposed(cfg: Config, st: System, t: int, s: int, readsStale: bool, versionCmp: Write -> int)
    requires Structure(cfg, st)
    requires Pending(st, t, s)
    requires Voted(s, t) in Handle(st, t, s, readsStale, versionCmp).when && Voted(s, t) !in st.when
    ensures Unopposed(st, t, s)
  {
    var c, n := st.clients[t], st.nodes[s];
    assert ClientOk(cfg, c) && NodeOk(st.clients, n);
    TailMsg(cfg, c, Cursor(n, t));
    assert PairOk(n, c, t) && c.ops[..|c.ops|] == c.ops;
    VoteUnopposed(cfg, st, t, s, readsStale, versionCmp);
  }

  lemma ServerStepValidated(st: System, st': System, t: int, s: int, r: int, u: int)
    requires ServerStep(st, st', t, s) && ServerRecords(st, st', t, s) && ValidatedOk(st, r, u)
    ensures ValidatedOk(st', r, u)
  {
    if r == s && u != t {
      assert Same(st.nodes[s], st'.nodes[s], u);
    }
  }

  lemma ServerStepHistory(cfg: Config, st: System, st': System, t: int, s: int)
    requires Inv(cfg, st) && ServerStep(st, st', t, s) && ServerRecords(st, st', t, s)
    requires !Trips(st.nodes[s], t, MsgAt(st.clients[t], Cursor(st.nodes[s], t)))
    requires Voted(s, t) in st'.when && Voted(s, t) !in st.when ==> Unopposed(st, t, s)
    requires forall a :: a in st'.acks ==> AckOk(st', a)
    ensures History(cfg, st')
  {
    forall r, u | Voted(r, u) in st'.when ensures VoteOk(st', r, u) { ServerStepVote(cfg, st, st', t, s, r, u); }
    forall r, u | Persisted(r, u) in st'.when
      ensures PersistOk(st', r, u)
    {
      ServerStepPersist(cfg, st, st', t, s, r, u);
    }
    forall r, u, v | Voted(r, u) in st'.when && Voted(r, v) in st'.when
      ensures OrderOk(st', r, u, v)
    {
      ServerStepOrder(cfg, st, st', t, s, r, u, v);
    }
    forall u | Decided(u) in st'.when ensures DecideOk(cfg, st', u) { assert DecideOk(cfg, st, u); }
    forall u | u in st'.clients ensures RepliesOk(st', u) { assert RepliesOk(st, u); }
    forall r, u ensures ValidatedOk(st', r, u) { ServerStepValidated(st, st', t, s, r, u); }
  }

  lemma HandleKeeps(cfg: Config, st: System, t: int, s: int, readsStale: bool, versionCmp: Write -> int)
    requires Inv(cfg, st)
    requires Pending(st, t, s) && !Trips(st.nodes[s], t, NextMsg(st, t, s))
    ensures Inv(cfg, Handle(st, t, s, readsStale, versionCmp))
  {
    var st' := Handle(st, t, s, readsStale, versionCmp);
    NothingTwice(cfg, st, t, s);
    HandleRecords(st, t, s, readsStale, versionCmp);
    HandleClocked(st, t, s, readsStale, versionCmp);
    HandleAcks(cfg, st, t, s, readsStale, versionCmp);
    StructureHandle(cfg, st, t, s, readsStale, versionCmp);
    if Voted(s, t) in st'.when && Voted(s, t) !in st.when {
      NewVoteUnopposed(cfg, st, t, s, readsStale, versionCmp);
    }
    ServerStepHistory(cfg, st, st', t, s);
  }

  // ---- Client steps ----

  lemma ClientStepVotes(cfg: Config, st: System, st': System, t: int)
    requires Inv(cfg, st) && ClientStep(st, st', t)
    requires forall o :: o in st'.when && o !in st.when ==> o == Decided(t)
    ensures forall r, u :: Voted(r, u) in st'.when ==> VoteOk(st', r, u)
    ensures forall r, u, v :: Voted(r, u) in st'.when && Voted(r, v) in st'.when ==> OrderOk(st', r, u, v)
  {
    forall r, u | Voted(r, u) in st'.when ensures VoteOk(st', r, u) { ClientStepVote(cfg, st, st', t, r, u); }
    forall r, u, v | Voted(r, u) in st'.when && Voted(r, v) in st'.when
      ensures OrderOk(st', r, u, v)
    {
      ClientStepOrder(cfg, st, st', t, r, u, v);
    }
  }

  lemma ClientStepHistory(cfg: Config, st: System, st': System, t: int)
    requires Inv(cfg, st) && ClientStep(st, st', t) && t in st'.clients
    requires st'.clients.Keys == st.clients.Keys + {t}
    requires RepliesOk(st', t) && st'.acks <= st.acks
    requires forall o :: o in st'.when && o !in st.when ==> o == Decided(t)
    requires Decided(t) in st'.when && Decided(t) !in st.when ==> DecideOk(cfg, st', t)
    ensures History(cfg, st')
  {
    ClientStepVotes(cfg, st, st', t);
    forall r, u | Persisted(r, u) in st'.when ensures PersistOk(st', r, u) { ClientStepPersist(cfg, st, st', t, r, u); }
    forall u | Decided(u) in st'.when
      ensures DecideOk(cfg, st', u)
    {
      if Decided(u) in st.when {
        ClientStepDecide(cfg, st, st', t, u);
      }
    }
    ClientStepRest(cfg, st, st', t);
  }

  lemma ClientStepRest(cfg: Config, st: System, st': System, t: int)
    requires History(cfg, st) && ClientStep(st, st', t) && t in st'.clients
    requires st'.clients.Keys == st.clients.Keys + {t} && RepliesOk(st', t) && st'.acks <= st.acks
    ensures forall u :: u in st'.clients ==> RepliesOk(st', u)
    ensures forall a :: a in st'.acks ==> AckOk(st', a)
    ensures forall r, u :: ValidatedOk(st', r, u)
  {
    forall u | u in st'.clients ensures RepliesOk(st', u) { assert u != t ==> RepliesOk(st, u); }
    forall a | a in st'.acks ensures AckOk(st', a) { assert AckOk(st, a); }
    forall r, u ensures ValidatedOk(st', r, u) { assert ValidatedOk(st, r, u); }
  }

  /** A client that sends more without deciding to commit keeps the invariant. */
  lemma SetClientKeeps(cfg: Config, st: System, t: int, c: Client, acks: set<Ack>)
    requires Inv(cfg, st) && ClientOk(cfg, c) && acks <= st.acks
    requires t in st.clients ==> Grows(st.clients[t], c)
    requires t in st.clients && st.clients[t].phase.Committed? ==>
             c.phase.Committed? && c.replies == st.clients[t].replies
    requires c.phase.Committed? ==> t in st.clients && st.clients[t].phase.Committed?
    requires forall s :: s in c.replies ==> s in st.nodes
    requires forall s :: s in Supporters(c.replies) ==> Voted(s, t) in st.when
    ensures Inv(cfg, SetClient(st, t, c).(acks := acks))
  {
    var st' := SetClient(st, t, c).(acks := acks);
    StructureSetClient(cfg, st, t, c);
    assert t in st.clients ==> RepliesOk(st, t);
    ClientStepHistory(cfg, st, st', t);
  }

  /** Deciding to commit: the votes counted were cast before. */
  lemma CommitDecideOk(cfg: Config, st: System, t: int, c: Client)
    requires Inv(cfg, st) && InPhase(st, t, Validating) && VoteOutcome(cfg, st.clients[t].replies) == COMMIT
    requires c == Say(st.clients[t], CommitMsg).(phase := Committed)
    ensures var st' := Record(SetClient(st, t, c), Decided(t));
            && Decided(t) !in st.when && Clocked(st') && DecideOk(cfg, st', t) && RepliesOk(st', t)
            && ClientOk(cfg, c) && ClientStep(st, st', t)
  {
    assert ClientOk(cfg, st.clients[t]) && RepliesOk(st, t);
    assert Decided(t) in st.when ==> DecideOk(cfg, st, t);
  }

  /** What a commit decision sets in the system. */
  ghost predicate DecidedBy(cfg: Config, st: System, st': System, t: int, c: Client) {
    && st'.nodes == st.nodes && st'.clients == st.clients[t := c] && st'.acks == st.acks
    && st'.when.Keys == st.when.Keys + {Decided(t)} && Clocked(st') && DecideOk(cfg, st', t) && RepliesOk(st', t)
    && ClientOk(cfg, c) && ClientStep(st, st', t)
  }

  lemma DecidedKeeps(cfg: Config, st: System, st': System, t: int, c: Client)
    requires Inv(cfg, st) && t in st.clients && DecidedBy(cfg, st, st', t, c)
    ensures Inv(cfg, st')
  {
    StructureSetClient(cfg, st, t, c);
    ClientStepHistory(cfg, st, st', t);
  }

  lemma CommitKeeps(cfg: Config, st: System, t: int)
    requires Inv(cfg, st) && InPhase(st, t, Validating) && VoteOutcome(cfg, st.clients[t].replies) == COMMIT
    ensures Inv(cfg, Next(cfg, st, Decide(t)))
  {
    var c := Say(st.clients[t], CommitMsg).(phase := Committed);
    CommitDecideOk(cfg, st, t, c);
    DecidedKeeps(cfg, st, Record(SetClient(st, t, c), Decided(t)), t, c);
  }

  lemma DecideKeeps(cfg: Config, st: System, t: int)
    requires Inv(cfg, st) && InPhase(st, t, Validating)
    ensures Inv(cfg, Next(cfg, st, Decide(t)))
  {
    var c := st.clients[t];
    assert ClientOk(cfg, c) && RepliesOk(st, t);
    var outcome := VoteOutcome(cfg, c.replies);
    if outcome == COMMIT {
      CommitKeeps(cfg, st, t);
    } else if outcome == ABORT {
      SetClientKeeps(cfg, st, t, Say(c, AbortMsg).(phase := Aborted), st.acks);
    } else {
      SetClientKeeps(cfg, st, t, c.(phase := NoQuorum), st.acks);
    }
  }

  lemma ReceiveKeeps(cfg: Config, st: System, t: int, s: int, status: int)
    requires Inv(cfg, st) && Enabled(cfg, st, Receive(t, s, status))
    ensures Inv(cfg, Next(cfg, st, Receive(t, s, status)))
  {
    var c := st.clients[t];
    var c' := c.(replies := c.replies[s := status]);
    assert ClientOk(cfg, c) && RepliesOk(st, t) && AckOk(st, Ack(t, s, c.rounds, status));
    assert forall r :: r in Supporters(c'.replies) ==> r == s || r in Supporters(c.replies);
    SetClientKeeps(cfg, st, t, c', st.acks - {Ack(t, s, c.rounds, status)});
  }

  lemma SendKeeps(cfg: Config, st: System, t: int, c: Client)
    requires Inv(cfg, st) && t in st.clients && c.replies == st.clients[t].replies
    requires ClientOk(cfg, c) && Grows(st.clients[t], c) && (c.phase.Committed? <==> st.clients[t].phase.Committed?)
    ensures Inv(cfg, SetClient(st, t, c))
  {
    assert RepliesOk(st, t);
    SetClientKeeps(cfg, st, t, c, st.acks);
  }

  /** A new round starts without replies. */
  lemma AskKeeps(cfg: Config, st: System, t: int)
    requires Inv(cfg, st) && (InPhase(st, t, Open) || InPhase(st, t, NoQuorum))
    ensures Inv(cfg, SetClient(st, t, AskRound(st.clients[t])))
  {
    assert ClientOk(cfg, st.clients[t]);
    assert Supporters(map[]) == {};
    SetClientKeeps(cfg, st, t, AskRound(st.clients[t]), st.acks);
  }

  lemma StopStructure(cfg: Config, st: System, s: int)
    requires Structure(cfg, st) && s in st.nodes
    ensures Structure(cfg, Stop(st, s))
  {
    var n := st.nodes[s];
    forall t
      ensures if t in st.clients then PairOk(n.(down := true), st.clients[t], t)
              else t !in n.txns && Cursor(n.(down := true), t) == 0
    {
      assert NodeOk(st.clients, n);
    }
  }

  lemma StopRecords(cfg: Config, st: System, s: int, r: int, t: int, u: int)
    requires s in st.nodes
    ensures VoteOk(st, r, t) ==> VoteOk(Stop(st, s), r, t)
    ensures PersistOk(st, r, t) ==> PersistOk(Stop(st, s), r, t)
    ensures OrderOk(st, r, t, u) ==> OrderOk(Stop(st, s), r, t, u)
    ensures DecideOk(cfg, st, t) ==> DecideOk(cfg, Stop(st, s), t)
    ensures ValidatedOk(st, r, t) ==> ValidatedOk(Stop(st, s), r, t)
  {
  }

  /** A server that stops keeps what it holds. */
  lemma StopKeeps(cfg: Config, st: System, s: int)
    requires Inv(cfg, st) && s in st.nodes
    ensures Inv(cfg, Stop(st, s))
  {
    var st' := Stop(st, s);
    StopStructure(cfg, st, s);
    forall r, t | Voted(r, t) in st'.when ensures VoteOk(st', r, t) { StopRecords(cfg, st, s, r, t, t); }
    forall r, t | Persisted(r, t) in st'.when ensures PersistOk(st', r, t) { StopRecords(cfg, st, s, r, t, t); }
    forall r, t, u | Voted(r, t) in st'.when && Voted(r, u) in st'.when
      ensures OrderOk(st', r, t, u)
    {
      StopRecords(cfg, st, s, r, t, u);
    }
    forall t | Decided(t) in st'.when ensures DecideOk(cfg, st', t) { StopRecords(cfg, st, s, s, t, t); }
    forall t | t in st'.clients ensures RepliesOk(st', t) { assert RepliesOk(st, t); }
    forall a | a in st'.acks ensures AckOk(st', a) { assert AckOk(st, a); }
    forall r, t ensures ValidatedOk(st', r, t) { StopRecords(cfg, st, s, r, t, t); }
  }

  lemma TalkKeeps(cfg: Config, st: System, e: Event)
    requires Inv(cfg, st) && Enabled(cfg, st, e) && (e.Issue? || e.Resend? || e.GiveUp?)
    ensures Inv(cfg, Next(cfg, st, e))
  {
    var c := st.clients[e.t];
    assert ClientOk(cfg, c);
    match e
    case Issue(t, op) => SendKeeps(cfg, st, t, c.(ops := c.ops + [op]));
    case Resend(t) => SendKeeps(cfg, st, t, Say(c, CommitMsg));
    case GiveUp(t) => SendKeeps(cfg, st, t, Say(c, AbortMsg).(phase := Aborted));
  }

  lemma NextKeeps(cfg: Config, st: System, e: Event)
    requires Inv(cfg, st) && Enabled(cfg, st, e)
    ensures Inv(cfg, Next(cfg, st, e))
  {
    match e
    case BeginTxn(t) => SetClientKeeps(cfg, st, t, Client(Open, [], 0, [], map[]), st.acks);
    case StartCommit(t) => AskKeeps(cfg, st, t);
    case AskAgain(t) => AskKeeps(cfg, st, t);
    case Crash(t, s) => StopKeeps(cfg, st, s);
    case Deliver(t, s, readsStale, versionCmp) => HandleKeeps(cfg, st, t, s, readsStale, versionCmp);
    case Receive(t, s, status) => ReceiveKeeps(cfg, st, t, s, status);
    case Decide(t) => DecideKeeps(cfg, st, t);
    case _ => TalkKeeps(cfg, st, e);
  }

  lemma {:induction false} Reachable(cfg: Config, es: seq<Event>)
    ensures Inv(cfg, After(cfg, es))
  {
    if es != [] {
      Reachable(cfg, es[..|es| - 1]);
      var st := After(cfg, es[..|es| - 1]);
      if Enabled(cfg, st, es[|es| - 1]) {
        NextKeeps(cfg, st, es[|es| - 1]);
      }
    }
  }
}
