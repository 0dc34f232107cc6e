/** The rounds of validation: no vote is lost, made up, or counted in a later round. */
module Rounds {
  import opened TxnWrites
  import opened Transactions
  import opened Quorum
  import opened QuorumSafety
  import opened CommitOrder

  /** A vote of server s in the last round of t is on its way. */
  ghost predicate OnItsWay(st: System, t: int, s: int)
    requires t in st.clients
  {
    exists status :: Ack(t, s, st.clients[t].rounds, status) in st.acks
  }

  /** Every vote is the answer to some request that its server has handled. */
  predicate Dated(st: System, a: Ack) {
    && a.t in st.clients && a.s in st.nodes && 1 <= a.round <= st.clients[a.t].rounds
    && 1 + |st.clients[a.t].ops| + a.round <= Cursor(st.nodes[a.s], a.t)
  }

  predicate AllDated(st: System) {
    forall a :: a in st.acks ==> Dated(st, a)
  }

  /** As long as t is undecided, server s has answered the last request if and only if its vote is
      counted or on its way. */
  ghost predicate Accounted(st: System, t: int, s: int)
    requires t in st.clients && s in st.nodes
  {
    var c := st.clients[t];
    c.phase.Validating? || c.phase.NoQuorum? ==>
      (Cursor(st.nodes[s], t) == Undecided(c) <==> s in c.replies || OnItsWay(st, t, s))
  }

  ghost predicate Answers(st: System) {
    AllDated(st) && forall t, s :: t in st.clients && s in st.nodes ==> Accounted(st, t, s)
  }

  // ---- Clients ----

  /** A step of the client of t that neither asks nor counts. */
  predicate Quiet(st: System, st': System, t: int) {
    && st'.nodes == st.nodes && st'.acks == st.acks
    && t in st'.clients && st'.clients == st.clients[t := st'.clients[t]]
    && var c := st'.clients[t];
    if t in st.clients then
      && c.rounds == st.clients[t].rounds && (c.ops == st.clients[t].ops || c.rounds == 0)
      && c.replies == st.clients[t].replies
      && (c.phase.NoQuorum? ==> st.clients[t].phase.Validating?) && !c.phase.Validating?
    else c.phase.Open?
  }

  lemma QuietShape(cfg: Config, st: System, e: Event)
    requires Enabled(cfg, st, e) && (e.t in st.clients ==> TailOk(st.clients[e.t]))
    requires e.BeginTxn? || e.Issue? || e.Decide? || e.Resend? || e.GiveUp?
    ensures Quiet(st, Next(cfg, st, e), e.t)
  {
  }

  lemma QuietClient(cfg: Config, st: System, t: int, st': System)
    requires Inv(cfg, st) && Answers(st) && Quiet(st, st', t)
    ensures Answers(st')
  {
    var c := st'.clients[t];
    forall a | a in st'.acks
      ensures Dated(st', a)
    {
      assert Dated(st, a);
    }
    forall u, s | u in st'.clients && s in st'.nodes
      ensures Accounted(st', u, s)
    {
      if u in st.clients {
        assert Accounted(st, u, s);
        assert u != t || (t in st.clients && c.rounds == st.clients[t].rounds) ==>
                 (OnItsWay(st', u, s) <==> OnItsWay(st, u, s));
      }
    }
  }

  lemma AskAnswers(cfg: Config, st: System, t: int, st': System)
    requires Inv(cfg, st) && Answers(st) && t in st.clients && |st.clients[t].tail| == st.clients[t].rounds
    requires st' == SetClient(st, t, AskRound(st.clients[t]))
    ensures Answers(st')
  {
    forall a | a in st'.acks
      ensures Dated(st', a)
    {
      assert Dated(st, a);
    }
    forall u, s | u in st'.clients && s in st'.nodes
      ensures Accounted(st', u, s)
    {
      assert Accounted(st, u, s);
      if u == t {
        assert NodeOk(st.clients, st.nodes[s]) && PairOk(st.nodes[s], st.clients[t], t);
        assert forall status :: Ack(t, s, st'.clients[t].rounds, status) in st.acks ==>
            Dated(st, Ack(t, s, st'.clients[t].rounds, status));
      } else {
        assert OnItsWay(st', u, s) <==> OnItsWay(st, u, s);
      }
    }
  }

  lemma CountAnswers(cfg: Config, st: System, t: int, r: int, status: int)
    requires Inv(cfg, st) && Answers(st) && Enabled(cfg, st, Receive(t, r, status))
    ensures Answers(Next(cfg, st, Receive(t, r, status)))
  {
    var st' := Next(cfg, st, Receive(t, r, status));
    forall a | a in st'.acks
      ensures Dated(st', a)
    {
      assert Dated(st, a);
    }
    forall u, s | u in st'.clients && s in st'.nodes
      ensures Accounted(st', u, s)
    {
      assert Accounted(st, u, s);
      if u == t && s == r {
        assert OnItsWay(st, t, r);
      } else {
        StillOnItsWay(st, st', u, s, Ack(t, r, st.clients[t].rounds, status));
      }
    }
  }

  lemma StillOnItsWay(st: System, st': System, u: int, s: int, a: Ack)
    requires u in st.clients && u in st'.clients && st'.clients[u].rounds == st.clients[u].rounds
    requires st'.acks == st.acks - {a} && (a.t != u || a.s != s)
    ensures OnItsWay(st', u, s) <==> OnItsWay(st, u, s)
  {
    if status :| Ack(u, s, st.clients[u].rounds, status) in st.acks {
      assert Ack(u, s, st'.clients[u].rounds, status) in st'.acks;
    }
  }

  // ---- Servers ----

  lemma HandleAnswers(cfg: Config, st: System, t: int, s: int, readsStale: bool, versionCmp: Write -> int)
    requires Inv(cfg, st) && Answers(st) && Pending(st, t, s)
    ensures Answers(Handle(st, t, s, readsStale, versionCmp))
  {
    var st' := Handle(st, t, s, readsStale, versionCmp);
    HandleIsServerStep(st, t, s, readsStale, versionCmp);
    HandleDated(cfg, st, t, s, readsStale, versionCmp);
    forall u, r | u in st'.clients && r in st'.nodes
      ensures Accounted(st', u, r)
    {
      assert Accounted(st, u, r);
      if u == t && r == s {
        HandleAccounted(cfg, st, t, s, readsStale, versionCmp);
      } else {
        OtherAccounted(st, t, s, readsStale, versionCmp, u, r);
      }
    }
  }

  lemma OtherAccounted(st: System, t: int, s: int, readsStale: bool, versionCmp: Write -> int, u: int, r: int)
    requires Pending(st, t, s) && u in st.clients && r in st.nodes && Accounted(st, u, r) && (u != t || r != s)
    ensures var st' := Handle(st, t, s, readsStale, versionCmp);
            u in st'.clients && r in st'.nodes && Accounted(st', u, r)
  {
    var st' := Handle(st, t, s, readsStale, versionCmp);
    HandleIsServerStep(st, t, s, readsStale, versionCmp);
    assert OnItsWay(st', u, r) <==> OnItsWay(st, u, r);
    assert r == s ==> Same(st.nodes[s], st'.nodes[s], u);
  }

  lemma StopAnswers(st: System, s: int)
    requires Answers(st) && s in st.nodes
    ensures Answers(Stop(st, s))
  {
    var st' := Stop(st, s);
    forall a | a in st'.acks
      ensures Dated(st', a)
    {
      assert Dated(st, a);
    }
    forall u, r | u in st'.clients && r in st'.nodes
      ensures Accounted(st', u, r)
    {
      assert Accounted(st, u, r) && (OnItsWay(st', u, r) <==> OnItsWay(st, u, r));
    }
  }

  lemma HandleDated(cfg: Config, st: System, t: int, s: int, readsStale: bool, versionCmp: Write -> int)
    requires Inv(cfg, st) && Answers(st) && Pending(st, t, s)
    ensures AllDated(Handle(st, t, s, readsStale, versionCmp))
  {
    var st' := Handle(st, t, s, readsStale, versionCmp);
    HandleIsServerStep(st, t, s, readsStale, versionCmp);
    assert ClientOk(cfg, st.clients[t]);
    TailMsg(cfg, st.clients[t], Cursor(st.nodes[s], t));
    forall a | a in st'.acks
      ensures Dated(st', a)
    {
      if a in st.acks {
        assert Dated(st, a);
        assert a.s == s && a.t != t ==> Same(st.nodes[s], st'.nodes[s], a.t);
      }
    }
  }

  /** A server that handles a request sends its vote in that round, and else none. */
  ghost predicate Sends(st: System, st': System, t: int, s: int, status: int)
    requires Pending(st, t, s)
  {
    st'.acks == st.acks + if NextMsg(st, t, s) == ValidateMsg then
      {Ack(t, s, Cursor(st.nodes[s], t) - |st.clients[t].ops|, status)} else {}
  }

  lemma SendsVote(st: System, t: int, s: int, readsStale: bool, versionCmp: Write -> int) returns (status: int)
    requires Pending(st, t, s)
    ensures Sends(st, Handle(st, t, s, readsStale, versionCmp), t, s, status)
  {
    status := ValidateStatus(st.nodes[s].db, st.nodes[s].txns, t, readsStale, versionCmp);
  }

  lemma SentAccounted(cfg: Config, st: System, st': System, t: int, s: int, status: int)
    requires Pending(st, t, s) && Sends(st, st', t, s, status) && ServerStep(st, st', t, s)
    requires Accounted(st, t, s) && ClientOk(cfg, st.clients[t])
    ensures Accounted(st', t, s)
  {
    var c, k := st.clients[t], Cursor(st.nodes[s], t);
    TailMsg(cfg, c, k);
    if k + 1 == Undecided(c) && NextMsg(st, t, s) == ValidateMsg {
      assert Ack(t, s, c.rounds, status) in st'.acks;
    }
  }

  lemma HandleAccounted(cfg: Config, st: System, t: int, s: int, readsStale: bool, versionCmp: Write -> int)
    requires Inv(cfg, st) && Answers(st) && Pending(st, t, s)
    ensures var st' := Handle(st, t, s, readsStale, versionCmp);
            t in st'.clients && s in st'.nodes && Accounted(st', t, s)
  {
    var st' := Handle(st, t, s, readsStale, versionCmp);
    var status := SendsVote(st, t, s, readsStale, versionCmp);
    HandleIsServerStep(st, t, s, readsStale, versionCmp);
    assert Accounted(st, t, s) && ClientOk(cfg, st.clients[t]);
    SentAccounted(cfg, st, st', t, s, status);
  }

  // ---- Runs ----

  lemma NextAnswers(cfg: Config, st: System, e: Event)
    requires Inv(cfg, st) && Answers(st) && Enabled(cfg, st, e)
    ensures Answers(Next(cfg, st, e))
  {
    match e
    case Deliver(t, s, readsStale, versionCmp) => HandleAnswers(cfg, st, t, s, readsStale, versionCmp);
    case Crash(t, s) => StopAnswers(st, s);
    case Receive(t, s, status) => CountAnswers(cfg, st, t, s, status);
    case StartCommit(t) => AskStep(cfg, st, e);
    case AskAgain(t) => AskStep(cfg, st, e);
    case _ => QuietStep(cfg, st, e);
  }

  lemma AskStep(cfg: Config, st: System, e: Event)
    requires Inv(cfg, st) && Answers(st) && Enabled(cfg, st, e) && (e.StartCommit? || e.AskAgain?)
    ensures Answers(Next(cfg, st, e))
  {
    assert ClientOk(cfg, st.clients[e.t]);
    AskAnswers(cfg, st, e.t, Next(cfg, st, e));
  }

  lemma QuietStep(cfg: Config, st: System, e: Event)
    requires Inv(cfg, st) && Answers(st) && Enabled(cfg, st, e)
    requires e.BeginTxn? || e.Issue? || e.Decide? || e.Resend? || e.GiveUp?
    ensures Answers(Next(cfg, st, e))
  {
    assert e.t in st.clients ==> ClientOk(cfg, st.clients[e.t]);
    QuietShape(cfg, st, e);
    QuietClient(cfg, st, e.t, Next(cfg, st, e));
  }

  lemma {:induction false} AnswersAlways(cfg: Config, es: seq<Event>)
    ensures Answers(After(cfg, es))
  {
    if es != [] {
      AnswersAlways(cfg, es[..|es| - 1]);
      Reachable(cfg, es[..|es| - 1]);
      var st, e := After(cfg, es[..|es| - 1]), es[|es| - 1];
      if Enabled(cfg, st, e) {
        NextAnswers(cfg, st, e);
      }
    }
  }

  // ---- Servers that stopped ----

  lemma StoppedStep(cfg: Config, st: System, e: Event, s: int)
    requires Enabled(cfg, st, e) && s in st.nodes && st.nodes[s].down
    ensures s in Next(cfg, st, e).nodes && Next(cfg, st, e).nodes[s] == st.nodes[s]
  {
    NextNodes(cfg, st, e);
  }

  /** A server that has stopped handles nothing ever after, and stores what it stored. */
  lemma {:induction false} StoppedForGood(cfg: Config, es: seq<Event>, more: seq<Event>, s: int)
    requires s in After(cfg, es).nodes && After(cfg, es).nodes[s].down
    ensures s in After(cfg, es + more).nodes && After(cfg, es + more).nodes[s] == After(cfg, es).nodes[s]
    decreases |more|
  {
    if more == [] {
      assert es + more == es;
    } else {
      var before, e := more[..|more| - 1], more[|more| - 1];
      StoppedForGood(cfg, es, before, s);
      assert (es + more)[..|es + more| - 1] == es + before;
      if Enabled(cfg, After(cfg, es + before), e) {
        StoppedStep(cfg, After(cfg, es + before), e, s);
      }
    }
  }

  // ---- Votes ----

  /** In every run, while a client waits for votes, a server has answered its last request if and only
      if its vote is counted or on its way. So no vote of an earlier round is counted, and none of this
      one is lost. */
  lemma VotesAccounted(cfg: Config, es: seq<Event>, t: int, s: int)
    requires InPhase(After(cfg, es), t, Validating) && s in After(cfg, es).nodes
    ensures var st := After(cfg, es);
            Cursor(st.nodes[s], t) == Undecided(st.clients[t]) <==>
              s in st.clients[t].replies || OnItsWay(st, t, s)
  {
    AnswersAlways(cfg, es);
    assert Accounted(After(cfg, es), t, s);
  }
}
