/** What the commit protocol guarantees in every run. */
module CommitOrder {
  import opened Order
  import opened SortedSeq
  import opened TxnWrites
  import opened WriteSets
  import opened Transactions
  import opened Quorum
  import opened QuorumSafety

  // ---- Quorums meet ----

  lemma QuorumsMeet(cfg: Config, a: set<int>, b: set<int>) returns (s: int)
    requires |cfg.dbs| <= cfg.replicationFactor && a <= cfg.dbs.Keys && b <= cfg.dbs.Keys
    requires |a| >= QuorumSize(cfg) && |b| >= QuorumSize(cfg)
    ensures s in a && s in b
  {
    var both, all := a * b, cfg.dbs.Keys;
    assert all * (a + b) == a + b && |all| == |all - (a + b)| + |all * (a + b)|;
    assert |a + b| == |a| + |b| - |both|;
    assert (forall r :: r !in both) ==> both == {};
    s :| s in both;
  }

  // ---- Conflict order ----

  predicate IsCommitted(st: System, t: int) {
    t in st.clients && st.clients[t].phase == Committed
  }

  /** Server s persisted t before it voted for u. */
  predicate PersistedFirst(st: System, s: int, t: int, u: int) {
    && Persisted(s, t) in st.when && Voted(s, u) in st.when
    && st.when[Persisted(s, t)] < st.when[Voted(s, u)]
  }

  predicate DecidedFirst(st: System, t: int, u: int) {
    && Decided(t) in st.when && Decided(u) in st.when
    && st.when[Decided(t)] < st.when[Decided(u)]
  }

  predicate Supported(st: System, s: int, t: int) {
    t in st.clients && s in Supporters(st.clients[t].replies)
  }

  /** Committed transactions t and u conflict, and a server whose votes both clients counted persisted t first. */
  ghost predicate Conflict(st: System, t: int, u: int) {
    && t != u && IsCommitted(st, t) && IsCommitted(st, u) && Clash(st.clients[t].ops, st.clients[u].ops)
    && exists s :: Supported(st, s, t) && Supported(st, s, u) && PersistedFirst(st, s, t, u)
  }

  /** On a server that voted for both, the earlier vote settles the order. */
  lemma EarlierVotePersistsFirst(cfg: Config, st: System, s: int, t: int, u: int)
    requires Inv(cfg, st) && t != u && IsCommitted(st, t) && IsCommitted(st, u)
    requires Clash(st.clients[t].ops, st.clients[u].ops)
    requires Voted(s, t) in st.when && Voted(s, u) in st.when && st.when[Voted(s, t)] < st.when[Voted(s, u)]
    ensures PersistedFirst(st, s, t, u) && Decided(t) in st.when && st.when[Decided(t)] < st.when[Persisted(s, t)]
  {
    assert OrderOk(st, s, t, u);
    assert PersistOk(st, s, t);
  }

  /** Any server that voted for the first decided of two clashing transactions by the time of that
      decision, and voted for the other as well, persisted them in decision order. */
  lemma PromptVoterFollowsDecisions(cfg: Config, st: System, s: int, t: int, u: int)
    requires Inv(cfg, st) && t != u && IsCommitted(st, t) && IsCommitted(st, u)
    requires Clash(st.clients[t].ops, st.clients[u].ops) && DecidedFirst(st, t, u)
    requires Voted(s, t) in st.when && Voted(s, u) in st.when && st.when[Voted(s, t)] < st.when[Decided(t)]
    ensures PersistedFirst(st, s, t, u) && !PersistedFirst(st, s, u, t)
    ensures st.when[Decided(t)] < st.when[Persisted(s, t)]
  {
    ClashSymmetric(st.clients[t].ops, st.clients[u].ops);
    if st.when[Voted(s, u)] < st.when[Voted(s, t)] {
      EarlierVotePersistsFirst(cfg, st, s, u, t);
      assert false;
    }
    assert Voted(s, t) != Voted(s, u);
    EarlierVotePersistsFirst(cfg, st, s, t, u);
    assert VoteOk(st, s, u);
    assert Persisted(s, u) in st.when ==> PersistOk(st, s, u);
  }

  /** On a server that voted for both, persist order is vote order. A server whose vote comes after
      the decision can therefore persist two clashing transactions against the decision order. */
  lemma PersistOrderIsVoteOrder(cfg: Config, es: seq<Event>, s: int, t: int, u: int)
    requires var st := After(cfg, es);
             && t != u && IsCommitted(st, t) && IsCommitted(st, u) && Clash(st.clients[t].ops, st.clients[u].ops)
             && Voted(s, t) in st.when && Voted(s, u) in st.when
    ensures var st := After(cfg, es);
            PersistedFirst(st, s, t, u) <==> st.when[Voted(s, t)] < st.when[Voted(s, u)]
  {
    var st := After(cfg, es);
    Reachable(cfg, es);
    if st.when[Voted(s, t)] < st.when[Voted(s, u)] {
      EarlierVotePersistsFirst(cfg, st, s, t, u);
    }
    assert VoteOk(st, s, t);
    assert Persisted(s, t) in st.when ==> PersistOk(st, s, t);
  }

  lemma ConflictFollowsDecision(cfg: Config, st: System, t: int, u: int)
    requires Inv(cfg, st) && Conflict(st, t, u)
    ensures DecidedFirst(st, t, u)
  {
    var s :| Supported(st, s, t) && Supported(st, s, u) && PersistedFirst(st, s, t, u);
    assert RepliesOk(st, t) && RepliesOk(st, u);
    assert DecideOk(cfg, st, t) && DecideOk(cfg, st, u) && PersistOk(st, s, t);
  }

  lemma SupporterAgrees(cfg: Config, st: System, s: int, t: int, u: int)
    requires Inv(cfg, st) && t != u && IsCommitted(st, t) && IsCommitted(st, u)
    requires Clash(st.clients[t].ops, st.clients[u].ops) && Supported(st, s, t) && Supported(st, s, u)
    ensures DecidedFirst(st, t, u) ==> PersistedFirst(st, s, t, u) && !PersistedFirst(st, s, u, t)
    ensures DecidedFirst(st, t, u) ==>
              st.when[Decided(t)] < st.when[Persisted(s, t)] < st.when[Voted(s, u)] < st.when[Decided(u)]
  {
    assert RepliesOk(st, t) && RepliesOk(st, u);
    assert DecideOk(cfg, st, t) && DecideOk(cfg, st, u);
    if DecidedFirst(st, t, u) {
      PromptVoterFollowsDecisions(cfg, st, s, t, u);
    }
  }

  lemma DecisionOrdersConflict(cfg: Config, st: System, s: int, t: int, u: int)
    requires Inv(cfg, st) && t != u && IsCommitted(st, t) && IsCommitted(st, u)
    requires Clash(st.clients[t].ops, st.clients[u].ops) && Supported(st, s, t) && Supported(st, s, u)
    ensures Conflict(st, t, u) <==> DecidedFirst(st, t, u)
  {
    SupporterAgrees(cfg, st, s, t, u);
    if Conflict(st, t, u) {
      ConflictFollowsDecision(cfg, st, t, u);
    }
  }

  /** Two committed transactions that write the same path are ordered by a server both counted, and
      that order is the order in which their clients decided. Every such server agrees on it. */
  lemma ConflictOrderIsDecisionOrder(cfg: Config, es: seq<Event>, t: int, u: int)
    requires |cfg.dbs| <= cfg.replicationFactor
    requires var st := After(cfg, es);
             t != u && IsCommitted(st, t) && IsCommitted(st, u) && Clash(st.clients[t].ops, st.clients[u].ops)
    ensures var st := After(cfg, es);
            && (Conflict(st, t, u) <==> DecidedFirst(st, t, u))
            && (Conflict(st, u, t) <==> DecidedFirst(st, u, t))
            && (DecidedFirst(st, t, u) <==> !DecidedFirst(st, u, t))
    ensures var st := After(cfg, es);
            forall s :: Supported(st, s, t) && Supported(st, s, u) ==>
              (PersistedFirst(st, s, t, u) <==> DecidedFirst(st, t, u))
  {
    var st := After(cfg, es);
    Reachable(cfg, es);
    OrderOfCommitted(cfg, st, t, u);
    forall s | Supported(st, s, t) && Supported(st, s, u)
      ensures PersistedFirst(st, s, t, u) <==> DecidedFirst(st, t, u)
    {
      ClashSymmetric(st.clients[t].ops, st.clients[u].ops);
      SupporterAgrees(cfg, st, s, t, u);
      SupporterAgrees(cfg, st, s, u, t);
    }
  }

  lemma SupportersAreServers(cfg: Config, st: System, t: int)
    requires Inv(cfg, st) && t in st.clients
    ensures Supporters(st.clients[t].replies) <= cfg.dbs.Keys
  {
    assert RepliesOk(st, t);
    assert forall s :: s in Supporters(st.clients[t].replies) ==> s in st.nodes.Keys;
  }

  lemma OrderOfCommitted(cfg: Config, st: System, t: int, u: int)
    requires Inv(cfg, st) && |cfg.dbs| <= cfg.replicationFactor
    requires t != u && IsCommitted(st, t) && IsCommitted(st, u) && Clash(st.clients[t].ops, st.clients[u].ops)
    ensures Conflict(st, t, u) <==> DecidedFirst(st, t, u)
    ensures Conflict(st, u, t) <==> DecidedFirst(st, u, t)
    ensures DecidedFirst(st, t, u) <==> !DecidedFirst(st, u, t)
  {
    assert RepliesOk(st, t) && RepliesOk(st, u);
    assert DecideOk(cfg, st, t) && DecideOk(cfg, st, u) && Decided(t) != Decided(u);
    SupportersAreServers(cfg, st, t);
    SupportersAreServers(cfg, st, u);
    var s := QuorumsMeet(cfg, Supporters(st.clients[t].replies), Supporters(st.clients[u].replies));
    ClashSymmetric(st.clients[t].ops, st.clients[u].ops);
    DecisionOrdersConflict(cfg, st, s, t, u);
    DecisionOrdersConflict(cfg, st, s, u, t);
  }

  ghost predicate ConflictPath(st: System, p: seq<int>) {
    forall i :: 1 <= i < |p| ==> Conflict(st, p[i - 1], p[i])
  }

  lemma {:induction false} PathFollowsDecisions(cfg: Config, st: System, p: seq<int>, n: nat)
    requires Inv(cfg, st) && ConflictPath(st, p) && 1 <= n < |p|
    ensures DecidedFirst(st, p[0], p[n])
  {
    ConflictFollowsDecision(cfg, st, p[n - 1], p[n]);
    if n > 1 {
      PathFollowsDecisions(cfg, st, p, n - 1);
    }
  }

  /** In every run the conflict order over committed transactions has no cycle. */
  lemma NoConflictCycle(cfg: Config, es: seq<Event>, p: seq<int>)
    requires |p| >= 2 && ConflictPath(After(cfg, es), p)
    ensures p[0] != p[|p| - 1]
  {
    Reachable(cfg, es);
    PathFollowsDecisions(cfg, After(cfg, es), p, |p| - 1);
  }

  // ---- Server states ----

  /** Server s holds t with its complete write set, ACTIVE unless it voted for t. */
  ghost predicate FindsActiveIffNotVoted(cfg: Config, st: System, t: int, s: int) {
    && s in st.nodes && t in st.nodes[s].txns && t in st.clients
    && st.nodes[s].txns[t].writes == WriteSetOf(st.clients[t].ops)
    && (st.nodes[s].txns[t].status.Active? <==> Voted(s, t) !in st.when)
    && (Enabled(cfg, st, Crash(t, s)) <==> Voted(s, t) in st.when)
  }

  lemma ActiveIffNotVoted(cfg: Config, st: System, t: int, s: int)
    requires Inv(cfg, st) && Pending(st, t, s) && NextMsg(st, t, s) == ValidateMsg
    ensures FindsActiveIffNotVoted(cfg, st, t, s)
  {
    assert ClientOk(cfg, st.clients[t]) && ValidatedOk(st, s, t);
    assert Voted(s, t) in st.when ==> VoteOk(st, s, t);
    TailMsg(cfg, st.clients[t], Cursor(st.nodes[s], t));
    HoldsAllOf(cfg, st, t, s);
  }

  /** A server that is asked holds the complete write set. */
  lemma HoldsAllOf(cfg: Config, st: System, t: int, s: int)
    requires Structure(cfg, st) && Pending(st, t, s) && NextMsg(st, t, s) == ValidateMsg
    ensures t in st.nodes[s].txns && st.nodes[s].txns[t].writes == WriteSetOf(st.clients[t].ops)
  {
    var c := st.clients[t];
    assert ClientOk(cfg, c) && NodeOk(st.clients, st.nodes[s]);
    assert PairOk(st.nodes[s], c, t);
    TailMsg(cfg, c, Cursor(st.nodes[s], t));
    assert c.ops[..|c.ops|] == c.ops;
  }

  /** A server asked to validate a transaction holds it with its complete write set. It finds it
      ACTIVE exactly when it has not voted for it before, and stops otherwise. */
  lemma ValidationFindsActive(cfg: Config, es: seq<Event>, t: int, s: int)
    requires Pending(After(cfg, es), t, s) && NextMsg(After(cfg, es), t, s) == ValidateMsg
    ensures FindsActiveIffNotVoted(cfg, After(cfg, es), t, s)
  {
    Reachable(cfg, es);
    ActiveIffNotVoted(cfg, After(cfg, es), t, s);
  }

  /** A client that asks once never finds a server that voted before: only a later round can stop one. */
  lemma FirstRoundFindsActive(cfg: Config, es: seq<Event>, t: int, s: int)
    requires Pending(After(cfg, es), t, s) && NextMsg(After(cfg, es), t, s) == ValidateMsg
    requires Cursor(After(cfg, es).nodes[s], t) == 1 + |After(cfg, es).clients[t].ops|
    ensures t in After(cfg, es).nodes[s].txns && After(cfg, es).nodes[s].txns[t].status.Active?
  {
    var st := After(cfg, es);
    Reachable(cfg, es);
    assert Voted(s, t) in st.when ==> VoteOk(st, s, t);
    ValidationFindsActive(cfg, es, t, s);
  }

  /** No regular write of one set compares equal to one of the other. */
  predicate NoCommon(a: WriteSet, b: WriteSet) {
    forall i, j :: 0 <= i < |a| && 0 <= j < |b| && a[i].value.Regular() && b[j].value.Regular() ==>
      WriteCmp(a[i].value, b[j].value) != 0
  }

  ghost predicate Disjoint(n: Node) {
    forall t, u ::
      t in n.txns && u in n.txns && t != u && n.txns[t].status.Validated? && n.txns[u].status.Validated? ==>
      NoCommon(n.txns[t].writes, n.txns[u].writes)
  }

  lemma NotFoundNoCommon(queueTables: set<int>, lo: int, a: seq<Write>, b: seq<Write>)
    requires Issuable(queueTables, lo, a) && Issuable(queueTables, lo, b)
    requires forall i :: 0 <= i < |WriteSetOf(a)| && WriteSetOf(a)[i].value.Regular() ==>
               !Has(WriteCmp, WriteSetOf(b), WriteSetOf(a)[i].value)
    ensures NoCommon(WriteSetOf(a), WriteSetOf(b)) && NoCommon(WriteSetOf(b), WriteSetOf(a))
  {
    var x, y, dom := WriteSetOf(a), WriteSetOf(b), Dom(queueTables, lo);
    WriteSetPaired(queueTables, lo, a);
    WriteSetPaired(queueTables, lo, b);
    WriteSetOrdered(queueTables, lo, b);
    forall i, j | 0 <= i < |x| && 0 <= j < |y| && x[i].value.Regular()
      ensures WriteCmp(x[i].value, y[j].value) != 0 && WriteCmp(y[j].value, x[i].value) != 0
    {
      HasIffStored(WriteCmp, dom, y, x[i].value);
      EqualActsAlike(WriteCmp, dom, y[j].key, y[j].value, x[i].value);
    }
  }

  lemma ValidateKeepsDisjoint(cfg: Config, st: System, t: int, s: int, readsStale: bool, versionCmp: Write -> int)
    requires Structure(cfg, st) && t in st.clients && s in st.nodes && Disjoint(st.nodes[s])
    requires t in st.nodes[s].txns && st.nodes[s].txns[t].writes == WriteSetOf(st.clients[t].ops)
    ensures Disjoint(NodeAfter(st.nodes[s], t, ValidateMsg, readsStale, versionCmp))
  {
    var n := st.nodes[s];
    var n' := NodeAfter(n, t, ValidateMsg, readsStale, versionCmp);
    assert NodeOk(st.clients, n);
    if ValidateStatus(n.db, n.txns, t, readsStale, versionCmp) == COMMIT {
      forall u | u in n.txns && u != t && n.txns[u].status.Validated?
        ensures NoCommon(n.txns[u].writes, n.txns[t].writes) && NoCommon(n.txns[t].writes, n.txns[u].writes)
      {
        ValidatedHasAll(cfg, st, s, u);
        var x := WriteSetOf(st.clients[t].ops);
        forall i | 0 <= i < |x| && x[i].value.Regular()
          ensures !Has(WriteCmp, n.txns[u].writes, x[i].value)
        {
          assert WriteVerdict(n.db, n.txns, t, Values(x)[i], versionCmp).Fine?;
          assert !ConflictsIn(n.txns, t, u, x[i].value);
        }
        NotFoundNoCommon(cfg.queueTables, cfg.lo, st.clients[t].ops, st.clients[u].ops);
      }
    }
  }

  /** A validated transaction is one whose client has sent everything but the decision. */
  lemma ValidatedHasAll(cfg: Config, st: System, s: int, u: int)
    requires Structure(cfg, st) && s in st.nodes && u in st.nodes[s].txns && st.nodes[s].txns[u].status.Validated?
    ensures u in st.clients && Issuable(cfg.queueTables, cfg.lo, st.clients[u].ops)
    ensures 2 + |st.clients[u].ops| <= Cursor(st.nodes[s], u) <= Undecided(st.clients[u])
    ensures st.nodes[s].txns[u].writes == WriteSetOf(st.clients[u].ops)
  {
    assert NodeOk(st.clients, st.nodes[s]);
    assert ClientOk(cfg, st.clients[u]);
  }

  lemma HandleKeepsDisjoint(cfg: Config, st: System, t: int, s: int, readsStale: bool, versionCmp: Write -> int)
    requires Structure(cfg, st) && Pending(st, t, s) && Disjoint(st.nodes[s])
    ensures Disjoint(NodeAfter(st.nodes[s], t, NextMsg(st, t, s), readsStale, versionCmp))
  {
    var c, n := st.clients[t], st.nodes[s];
    assert ClientOk(cfg, c) && NodeOk(st.clients, n);
    TailMsg(cfg, c, Cursor(n, t));
    assert c.ops[..|c.ops|] == c.ops;
    var m := MsgAt(c, Cursor(n, t));
    if m == ValidateMsg {
      ValidateKeepsDisjoint(cfg, st, t, s, readsStale, versionCmp);
    } else if t in n.txns && n.txns[t].status.Validated? {
      ValidatedHasAll(cfg, st, s, t);
    }
  }

  lemma NextNodes(cfg: Config, st: System, e: Event)
    requires Enabled(cfg, st, e)
    ensures !e.Deliver? && !e.Crash? ==> Next(cfg, st, e).nodes == st.nodes
    ensures e.Crash? ==> Next(cfg, st, e).nodes == st.nodes[e.s := st.nodes[e.s].(down := true)]
    ensures e.Deliver? ==>
              Next(cfg, st, e).nodes ==
                st.nodes[e.s := NodeAfter(st.nodes[e.s], e.t, NextMsg(st, e.t, e.s), e.readsStale, e.versionCmp)]
  {
  }

  lemma NextKeepsDisjoint(cfg: Config, st: System, e: Event, s: int)
    requires Inv(cfg, st) && Enabled(cfg, st, e) && s in st.nodes && Disjoint(st.nodes[s])
    ensures s in Next(cfg, st, e).nodes && Disjoint(Next(cfg, st, e).nodes[s])
  {
    NextNodes(cfg, st, e);
    if e.Deliver? && e.s == s {
      HandleKeepsDisjoint(cfg, st, e.t, s, e.readsStale, e.versionCmp);
    } else {
      assert Next(cfg, st, e).nodes[s].txns == st.nodes[s].txns;
    }
  }

  /** In every reachable state, no server holds two validated transactions whose regular writes
      compare equal. */
  lemma {:induction false} ValidatedDisjoint(cfg: Config, es: seq<Event>, s: int)
    requires s in cfg.dbs
    ensures s in After(cfg, es).nodes && Disjoint(After(cfg, es).nodes[s])
  {
    if es != [] {
      var st := After(cfg, es[..|es| - 1]);
      Reachable(cfg, es[..|es| - 1]);
      ValidatedDisjoint(cfg, es[..|es| - 1], s);
      if Enabled(cfg, st, es[|es| - 1]) {
        NextKeepsDisjoint(cfg, st, es[|es| - 1], s);
      }
    }
  }
}
