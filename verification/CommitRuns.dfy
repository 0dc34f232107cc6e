/** Runs of the commit protocol, to show what the theorems are about: two transactions on the same
    path do both commit, a server that is slow to vote persists them the other way round, and a
    client that asks for validation a second time stops a server. */
module CommitRuns {
  import opened SortedSeq
  import opened TxnWrites
  import opened WriteSets
  import opened Database
  import opened Transactions
  import opened Quorum
  import opened QuorumSafety
  import opened CommitOrder

  ghost predicate Reached(cfg: Config, st: System) {
    exists es :: After(cfg, es) == st
  }

  lemma ReachedNext(cfg: Config, st: System, e: Event)
    requires Reached(cfg, st) && Enabled(cfg, st, e)
    ensures Reached(cfg, Next(cfg, st, e))
  {
    var es :| After(cfg, es) == st;
    assert (es + [e])[..|es + [e]| - 1] == es;
    assert After(cfg, es + [e]) == Next(cfg, st, e);
  }

  lemma ReachedInv(cfg: Config, st: System)
    requires Reached(cfg, st)
    ensures Inv(cfg, st)
  {
    var es :| After(cfg, es) == st;
    Reachable(cfg, es);
  }

  /** History only grows. */
  ghost predicate Later(st: System, st': System) {
    && st.clock <= st'.clock
    && forall o :: o in st.when ==> o in st'.when && st'.when[o] == st.when[o]
  }

  lemma LaterTwice(a: System, b: System, c: System)
    requires Later(a, b) && Later(b, c)
    ensures Later(a, c)
  {
  }

  /** Only server s has moved on. */
  ghost predicate OnlyAt(st: System, st': System, s: int) {
    && Later(st, st') && st.acks <= st'.acks && st'.clients == st.clients
    && s in st.nodes && s in st'.nodes && st'.nodes == st.nodes[s := st'.nodes[s]]
  }

  /** Apart from t, the server has seen no more of any transaction. */
  ghost predicate NothingElse(n: Node, n': Node, t: int) {
    forall u :: u != t ==> Cursor(n', u) == Cursor(n, u)
  }

  /** The server holds nothing but t. */
  ghost predicate Alone(st: System, s: int, t: int) {
    s in st.nodes && !st.nodes[s].down && forall u :: u in st.nodes[s].txns ==> u == t
  }

  ghost predicate Free(st: System, s: int) {
    s in st.nodes && !st.nodes[s].down && st.nodes[s].txns == map[]
  }

  // ---- Steps of one server ----

  lemma HandleNext(cfg: Config, st: System, s: int, t: int, f: Write -> int) returns (st': System)
    requires Reached(cfg, st) && Alone(st, s, t) && Pending(st, t, s) && !Trips(st.nodes[s], t, NextMsg(st, t, s))
    ensures st' == Handle(st, t, s, false, f) && Reached(cfg, st') && OnlyAt(st, st', s) && Alone(st', s, t)
    ensures Cursor(st'.nodes[s], t) == Cursor(st.nodes[s], t) + 1 && NothingElse(st.nodes[s], st'.nodes[s], t)
    ensures ServerStep(st, st', t, s) && ServerRecords(st, st', t, s)
  {
    st' := Handle(st, t, s, false, f);
    ReachedNext(cfg, st, Deliver(t, s, false, f));
    ReachedInv(cfg, st);
    NothingTwice(cfg, st, t, s);
    HandleRecords(st, t, s, false, f);
    forall u | u in st'.nodes[s].txns
      ensures u == t
    {
      assert u != t ==> Same(st.nodes[s], st'.nodes[s], u);
    }
    forall u | u != t
      ensures Cursor(st'.nodes[s], u) == Cursor(st.nodes[s], u)
    {
      assert Same(st.nodes[s], st'.nodes[s], u);
    }
  }

  /** With no other transaction around, a regular write is fine. */
  lemma VotesForIt(db: Db, txns: Txns, t: int, op: Write, f: Write -> int)
    requires op.Regular() && t in txns && txns[t].writes == WriteSetOf([op]) && forall u :: u in txns ==> u == t
    ensures ValidateStatus(db, txns, t, false, f) == COMMIT
  {
    var vs := Values(txns[t].writes);
    assert [op][..0] == [] && WriteSetOf([op]) == Add([], op);
    forall i | 0 <= i < |vs|
      ensures WriteVerdict(db, txns, t, vs[i], f).Fine?
    {
      assert vs[i] == Stamp(op, 0);
    }
  }

  ghost predicate Asked(st: System, t: int, op: Write) {
    && t in st.clients && op.queryType.Update? && st.clients[t].ops == [op]
    && st.clients[t].tail != [] && st.clients[t].tail[0] == ValidateMsg
  }

  /** A server that has all of a transaction and nothing else votes for it. */
  lemma VoteNow(cfg: Config, st: System, s: int, t: int, op: Write, f: Write -> int) returns (st': System)
    requires Reached(cfg, st) && Asked(st, t, op) && Alone(st, s, t) && Cursor(st.nodes[s], t) == 2
    ensures Reached(cfg, st') && OnlyAt(st, st', s) && Alone(st', s, t) && Cursor(st'.nodes[s], t) == 3
    ensures Ack(t, s, 1, COMMIT) in st'.acks && Voted(s, t) in st'.when && st'.when[Voted(s, t)] >= st.clock
    ensures NothingElse(st.nodes[s], st'.nodes[s], t)
  {
    HoldsAll(cfg, st, s, t, op);
    VotesForIt(st.nodes[s].db, st.nodes[s].txns, t, op, f);
    NotVoted(cfg, st, s, t);
    st' := HandleNext(cfg, st, s, t, f);
  }

  /** A server that holds nothing handles a transaction up to its vote. */
  lemma Vote(cfg: Config, st: System, s: int, t: int, op: Write, f: Write -> int) returns (st': System)
    requires Reached(cfg, st) && Asked(st, t, op) && Free(st, s) && Cursor(st.nodes[s], t) == 0
    ensures Reached(cfg, st') && OnlyAt(st, st', s) && Alone(st', s, t) && Cursor(st'.nodes[s], t) == 3
    ensures Ack(t, s, 1, COMMIT) in st'.acks && Voted(s, t) in st'.when && st'.when[Voted(s, t)] >= st.clock
    ensures NothingElse(st.nodes[s], st'.nodes[s], t)
  {
    var a := HandleNext(cfg, st, s, t, f);
    var b := HandleNext(cfg, a, s, t, f);
    LaterTwice(st, a, b);
    st' := VoteNow(cfg, b, s, t, op, f);
    LaterTwice(st, b, st');
  }

  lemma HoldsAll(cfg: Config, st: System, s: int, t: int, op: Write)
    requires Reached(cfg, st) && Asked(st, t, op) && s in st.nodes && Cursor(st.nodes[s], t) == 2
    ensures t in st.nodes[s].txns && st.nodes[s].txns[t].writes == WriteSetOf([op])
    ensures MsgAt(st.clients[t], 2) == ValidateMsg && st.nodes[s].txns[t].status.Active?
  {
    ReachedInv(cfg, st);
    assert NodeOk(st.clients, st.nodes[s]) && PairOk(st.nodes[s], st.clients[t], t);
    assert [op][..1] == [op];
  }

  /** Persisting one update cannot fail. */
  lemma UpdateSurvives(db: Db, op: Write)
    requires op.queryType.Update?
    ensures Survives(db, Values(WriteSetOf([op])))
  {
    assert [op][..0] == [] && WriteSetOf([op]) == Add([], op);
    var vs := Values(WriteSetOf([op]));
    assert |vs| == 1 && vs[0] == Stamp(op, 0) && vs[..0] == [];
  }

  lemma NotVoted(cfg: Config, st: System, s: int, t: int)
    requires Reached(cfg, st) && t in st.clients && s in st.nodes && Cursor(st.nodes[s], t) == 1 + |st.clients[t].ops|
    ensures Voted(s, t) !in st.when
  {
    ReachedInv(cfg, st);
    assert Voted(s, t) in st.when ==> VoteOk(st, s, t);
  }

  lemma DecisionNext(cfg: Config, st: System, s: int, t: int, op: Write)
    requires Reached(cfg, st) && Asked(st, t, op) && IsCommitted(st, t) && st.clients[t].rounds == 1
    requires Alone(st, s, t) && Cursor(st.nodes[s], t) == 3
    ensures Pending(st, t, s) && NextMsg(st, t, s) == CommitMsg && t in st.nodes[s].txns
    ensures !Trips(st.nodes[s], t, NextMsg(st, t, s))
  {
    ReachedInv(cfg, st);
    assert ClientOk(cfg, st.clients[t]) && NodeOk(st.clients, st.nodes[s]) && PairOk(st.nodes[s], st.clients[t], t);
    UpdateSurvives(st.nodes[s].db, op);
  }

  lemma DoneWith(cfg: Config, st: System, s: int, t: int)
    requires Reached(cfg, st) && t in st.clients && s in st.nodes && Cursor(st.nodes[s], t) > Undecided(st.clients[t])
    ensures t !in st.nodes[s].txns
  {
    ReachedInv(cfg, st);
    assert NodeOk(st.clients, st.nodes[s]) && PairOk(st.nodes[s], st.clients[t], t);
  }

  /** A server that voted persists when the decision arrives, and then holds nothing. */
  lemma Persist(cfg: Config, st: System, s: int, t: int, op: Write, f: Write -> int) returns (st': System)
    requires Reached(cfg, st) && Asked(st, t, op) && IsCommitted(st, t) && st.clients[t].rounds == 1
    requires Alone(st, s, t) && Cursor(st.nodes[s], t) == 3
    ensures Reached(cfg, st') && OnlyAt(st, st', s) && Free(st', s) && Persisted(s, t) in st'.when
    ensures NothingElse(st.nodes[s], st'.nodes[s], t)
  {
    DecisionNext(cfg, st, s, t, op);
    st' := HandleNext(cfg, st, s, t, f);
    DoneWith(cfg, st', s, t);
    assert forall u :: u !in st'.nodes[s].txns;
  }

  // ---- Steps of one client ----

  function Waiting(op: Write, replies: map<int, int>): Client {
    Client(Validating, [op], 1, [ValidateMsg], replies)
  }

  /** Only the client of t has moved on. */
  ghost predicate OnlyBy(st: System, st': System, t: int, c: Client) {
    Later(st, st') && st'.nodes == st.nodes && st'.clients == st.clients[t := c]
  }

  lemma Begin(cfg: Config, st: System, t: int, op: Write) returns (st': System)
    requires Reached(cfg, st) && t !in st.clients
    requires Issuable(cfg.queueTables, cfg.lo, []) && Issuable(cfg.queueTables, cfg.lo, [op])
    ensures Reached(cfg, st') && OnlyBy(st, st', t, Client(Open, [op], 0, [], map[]))
  {
    var a := SetClient(st, t, Client(Open, [], 0, [], map[]));
    assert a == Next(cfg, st, BeginTxn(t));
    ReachedNext(cfg, st, BeginTxn(t));
    assert [] + [op] == [op];
    st' := SetClient(a, t, Client(Open, [op], 0, [], map[]));
    assert st' == Next(cfg, a, Issue(t, op));
    ReachedNext(cfg, a, Issue(t, op));
  }

  lemma Ask(cfg: Config, st: System, t: int, op: Write) returns (st': System)
    requires Reached(cfg, st) && t !in st.clients
    requires Issuable(cfg.queueTables, cfg.lo, []) && Issuable(cfg.queueTables, cfg.lo, [op])
    ensures Reached(cfg, st') && OnlyBy(st, st', t, Waiting(op, map[]))
  {
    var a := Begin(cfg, st, t, op);
    assert [] + [ValidateMsg] == [ValidateMsg];
    st' := SetClient(a, t, Waiting(op, map[]));
    assert st' == Next(cfg, a, StartCommit(t));
    ReachedNext(cfg, a, StartCommit(t));
  }

  lemma Count(cfg: Config, st: System, t: int, s: int, op: Write, replies: map<int, int>) returns (st': System)
    requires Reached(cfg, st) && t in st.clients && st.clients[t] == Waiting(op, replies) &&
             Ack(t, s, 1, COMMIT) in st.acks
    ensures Reached(cfg, st') && OnlyBy(st, st', t, Waiting(op, replies[s := COMMIT]))
    ensures st'.acks == st.acks - {Ack(t, s, 1, COMMIT)}
  {
    st' := Next(cfg, st, Receive(t, s, COMMIT));
    ReachedNext(cfg, st, Receive(t, s, COMMIT));
  }

  function Done(op: Write, replies: map<int, int>): Client {
    Client(Committed, [op], 1, [ValidateMsg, CommitMsg], replies)
  }

  lemma Choose(cfg: Config, st: System, t: int, op: Write, r: int, s: int) returns (st': System)
    requires Reached(cfg, st) && cfg.replicationFactor == 3 && r != s
    requires t in st.clients && st.clients[t] == Waiting(op, map[r := COMMIT, s := COMMIT])
    ensures Reached(cfg, st') && OnlyBy(st, st', t, Done(op, map[r := COMMIT, s := COMMIT]))
    ensures Decided(t) in st'.when && st'.when[Decided(t)] >= st.clock
  {
    var replies := map[r := COMMIT, s := COMMIT];
    assert Supporters(replies) == {r, s} && |replies| == |replies.Keys| && replies.Keys == {r, s};
    assert [ValidateMsg] + [CommitMsg] == [ValidateMsg, CommitMsg];
    ReachedInv(cfg, st);
    assert Decided(t) in st.when ==> DecideOk(cfg, st, t);
    st' := Next(cfg, st, Decide(t));
    ReachedNext(cfg, st, Decide(t));
  }

  // ---- One transaction commits at two servers ----

  /** The server is free and has not seen t. */
  ghost predicate Ready(st: System, s: int, t: int) {
    Free(st, s) && Cursor(st.nodes[s], t) == 0
  }

  /** Servers r and s have moved on, and only with t. */
  ghost predicate AtBoth(st: System, st': System, r: int, s: int, t: int) {
    && r in st.nodes && s in st.nodes && r in st'.nodes && s in st'.nodes
    && st'.nodes == st.nodes[r := st'.nodes[r]][s := st'.nodes[s]]
    && NothingElse(st.nodes[r], st'.nodes[r], t) && NothingElse(st.nodes[s], st'.nodes[s], t)
  }

  lemma VoteTwice(cfg: Config, st: System, t: int, op: Write, r: int, s: int, f: Write -> int) returns (st': System)
    requires Reached(cfg, st) && op.queryType.Update? && r != s && Ready(st, r, t) && Ready(st, s, t)
    requires t in st.clients && st.clients[t] == Waiting(op, map[])
    ensures Reached(cfg, st') && Later(st, st') && st'.clients == st.clients
    ensures AtBoth(st, st', r, s, t)
    ensures Alone(st', r, t) && Alone(st', s, t) && Cursor(st'.nodes[r], t) == 3 && Cursor(st'.nodes[s], t) == 3
    ensures Ack(t, r, 1, COMMIT) in st'.acks && Ack(t, s, 1, COMMIT) in st'.acks
  {
    var a := Vote(cfg, st, r, t, op, f);
    st' := Vote(cfg, a, s, t, op, f);
    LaterTwice(st, a, st');
  }

  lemma CountTwice(cfg: Config, st: System, t: int, op: Write, r: int, s: int) returns (st': System)
    requires Reached(cfg, st) && cfg.replicationFactor == 3 && r != s
    requires t in st.clients && st.clients[t] == Waiting(op, map[])
    requires Ack(t, r, 1, COMMIT) in st.acks && Ack(t, s, 1, COMMIT) in st.acks
    ensures Reached(cfg, st') && OnlyBy(st, st', t, Done(op, map[r := COMMIT, s := COMMIT]))
    ensures Decided(t) in st'.when && st'.when[Decided(t)] >= st.clock
  {
    var a := Count(cfg, st, t, r, op, map[]);
    var b := Count(cfg, a, t, s, op, map[r := COMMIT]);
    assert map[r := COMMIT][s := COMMIT] == map[r := COMMIT, s := COMMIT];
    LaterTwice(st, a, b);
    st' := Choose(cfg, b, t, op, r, s);
    LaterTwice(st, b, st');
  }

  lemma PersistTwice(cfg: Config, st: System, t: int, op: Write, r: int, s: int, f: Write -> int) returns (st': System)
    requires Reached(cfg, st) && Asked(st, t, op) && IsCommitted(st, t) && st.clients[t].rounds == 1 && r != s
    requires Alone(st, r, t) && Alone(st, s, t) && Cursor(st.nodes[r], t) == 3 && Cursor(st.nodes[s], t) == 3
    ensures Reached(cfg, st') && Later(st, st') && st'.clients == st.clients
    ensures AtBoth(st, st', r, s, t)
    ensures Free(st', r) && Free(st', s)
  {
    var a := Persist(cfg, st, r, t, op, f);
    st' := Persist(cfg, a, s, t, op, f);
    LaterTwice(st, a, st');
  }

  lemma CommitAtTwo(cfg: Config, st: System, t: int, op: Write, r: int, s: int, f: Write -> int) returns (st': System)
    requires Reached(cfg, st) && cfg.replicationFactor == 3 && op.queryType.Update? && r != s && Ready(st, r, t) &&
             Ready(st, s, t)
    requires t in st.clients && st.clients[t] == Waiting(op, map[])
    ensures Reached(cfg, st') && Later(st, st') &&
            st'.clients == st.clients[t := Done(op, map[r := COMMIT, s := COMMIT])]
    ensures AtBoth(st, st', r, s, t)
    ensures Free(st', r) && Free(st', s)
    ensures Decided(t) in st'.when && st'.when[Decided(t)] >= st.clock
  {
    var a := VoteTwice(cfg, st, t, op, r, s, f);
    var b := CountTwice(cfg, a, t, op, r, s);
    LaterTwice(st, a, b);
    st' := PersistTwice(cfg, b, t, op, r, s, f);
    LaterTwice(st, b, st');
  }

  lemma FirstThen(cfg: Config, a: System, b: System, t: int, u: int)
    requires Reached(cfg, a) && Decided(t) in a.when && Later(a, b) && Decided(u) in b.when &&
             b.when[Decided(u)] >= a.clock
    ensures DecidedFirst(b, t, u)
  {
    ReachedInv(cfg, a);
  }

  /** Two transactions on the same path commit one after the other at two of three servers. */
  lemma BothCommit(cfg: Config, t: int, u: int, op: Write, r: int, s: int, q: int, f: Write -> int) returns (st: System)
    requires cfg.dbs.Keys == {r, s, q} && r != s && s != q && r != q && cfg.replicationFactor == 3 && t != u
    requires Issuable(cfg.queueTables, cfg.lo, []) && Issuable(cfg.queueTables, cfg.lo, [op]) && op.queryType.Update?
    ensures Reached(cfg, st) && DecidedFirst(st, t, u) && Asked(st, t, op) && Asked(st, u, op)
    ensures IsCommitted(st, t) && IsCommitted(st, u) && st.clients[t].rounds == 1 && st.clients[u].rounds == 1
    ensures Ready(st, q, t) && Ready(st, q, u)
  {
    var init := After(cfg, []);
    var a := Ask(cfg, init, t, op);
    var b := Ask(cfg, a, u, op);
    var c := CommitAtTwo(cfg, b, t, op, r, s, f);
    st := CommitAtTwo(cfg, c, u, op, r, s, f);
    FirstThen(cfg, c, st, t, u);
  }

  /** A server can persist two clashing committed transactions against the order of the decisions:
      here q gets to both only after they are decided, and to the later one first. */
  lemma LateVoterReverses(cfg: Config, t: int, u: int, op: Write, r: int, s: int, q: int, f: Write -> int)
    returns (es: seq<Event>)
    requires cfg.dbs.Keys == {r, s, q} && r != s && s != q && r != q && cfg.replicationFactor == 3 && t != u
    requires Issuable(cfg.queueTables, cfg.lo, []) && Issuable(cfg.queueTables, cfg.lo, [op]) && op.queryType.Update?
    ensures var st := After(cfg, es);
            && IsCommitted(st, t) && IsCommitted(st, u) && Clash(st.clients[t].ops, st.clients[u].ops)
            && DecidedFirst(st, t, u) && PersistedFirst(st, q, u, t)
  {
    var a := BothCommit(cfg, t, u, op, r, s, q, f);
    var b := Vote(cfg, a, q, u, op, f);
    var c := Persist(cfg, b, q, u, op, f);
    var d := Vote(cfg, c, q, t, op, f);
    LaterTwice(a, b, c);
    LaterTwice(a, c, d);
    ReachedInv(cfg, c);
    es :| After(cfg, es) == d;
    assert SamePath([op][0], [op][0]);
  }

  // ---- Asking again ----

  /** With fewer votes than a quorum, the client may ask for another round. */
  lemma AskTwice(cfg: Config, st: System, t: int, op: Write) returns (st': System)
    requires Reached(cfg, st) && t in st.clients && st.clients[t] == Waiting(op, map[])
    ensures Reached(cfg, st') && OnlyBy(st, st', t, Client(Validating, [op], 2, [ValidateMsg, ValidateMsg], map[]))
  {
    var a := SetClient(st, t, Waiting(op, map[]).(phase := NoQuorum));
    assert a == Next(cfg, st, Decide(t));
    ReachedNext(cfg, st, Decide(t));
    assert [ValidateMsg] + [ValidateMsg] == [ValidateMsg, ValidateMsg];
    st' := SetClient(a, t, AskRound(a.clients[t]));
    assert st' == Next(cfg, a, AskAgain(t));
    ReachedNext(cfg, a, AskAgain(t));
  }

  /** A server that voted for a transaction stops when the client, whom the vote has not reached,
      asks again. */
  lemma SecondRoundStops(cfg: Config, t: int, op: Write, s: int, f: Write -> int) returns (es: seq<Event>)
    requires s in cfg.dbs && Issuable(cfg.queueTables, cfg.lo, []) && Issuable(cfg.queueTables, cfg.lo, [op])
    requires op.queryType.Update?
    ensures var st := After(cfg, es);
            Enabled(cfg, st, Crash(t, s)) && NextMsg(st, t, s) == ValidateMsg &&
              Next(cfg, st, Crash(t, s)).nodes[s].down
  {
    var a := Ask(cfg, After(cfg, []), t, op);
    var b := Vote(cfg, a, s, t, op, f);
    var c := AskTwice(cfg, b, t, op);
    es :| After(cfg, es) == c;
    ValidationFindsActive(cfg, es, t, s);
  }
}
