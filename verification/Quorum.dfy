/** The commit protocol between clients and replicated servers. A client broadcasts the messages of
    its transaction to every server over reliable first-in-first-out connections, counts the votes
    that come back, and decides; servers handle one message at a time, in any interleaving, and may
    stop handling messages altogether. A server stops for good at a failed assertion. Votes may be
    delayed for ever, and a client without enough of them may ask again. */
module Quorum {
  import opened SortedSeq
  import opened TxnWrites
  import opened WriteSets
  import opened Database
  import opened Transactions

  // ---- State ----

  datatype Msg = BeginMsg | OpMsg(op: Write) | ValidateMsg | CommitMsg | AbortMsg

  datatype Phase = Open | Validating | NoQuorum | Committed | Aborted

  /** A client sends Begin, then its operations, then the messages in `tail`, which starts with one
      request for each round of validation. The replies are those to the last round. */
  datatype Client = Client(phase: Phase, ops: seq<Write>, rounds: nat, tail: seq<Msg>, replies: map<int, int>)

  /** A server, with the number of messages it has handled of each transaction. */
  datatype Node = Node(db: Db, txns: Txns, cursor: map<int, nat>, down: bool)

  /** What happened, for the order theorem: commit votes and persists on servers; commit decisions of clients. */
  datatype Obs = Voted(s: int, t: int) | Persisted(s: int, t: int) | Decided(t: int)

  datatype Ack = Ack(t: int, s: int, round: int, status: int)

  datatype System = System(
    nodes: map<int, Node>,
    clients: map<int, Client>,
    acks: set<Ack>,
    when: map<Obs, nat>,
    clock: nat)

  datatype Config = Config(dbs: map<int, Db>, replicationFactor: nat, queueTables: set<int>, lo: int)

  function QuorumSize(cfg: Config): nat {
    cfg.replicationFactor / 2 + 1
  }

  function Init(cfg: Config): System {
    System(map s | s in cfg.dbs :: Node(cfg.dbs[s], map[], map[], false), map[], {}, map[], 0)
  }

  /** The k-th message of a client. */
  function MsgAt(c: Client, k: nat): Msg
    requires k < Sent(c)
  {
    if k == 0 then BeginMsg else if k <= |c.ops| then OpMsg(c.ops[k - 1]) else c.tail[k - 1 - |c.ops|]
  }

  function Sent(c: Client): nat {
    1 + |c.ops| + |c.tail|
  }

  /** The number of messages up to the last request for validation. */
  function Undecided(c: Client): nat {
    1 + |c.ops| + c.rounds
  }

  function Cursor(n: Node, t: int): nat {
    if t in n.cursor then n.cursor[t] else 0
  }

  // ---- The client's decision ----

  const NO_QUORUM_ERR := -1

  function Supporters(replies: map<int, int>): set<int> {
    set s | s in replies && replies[s] == COMMIT
  }

  /** _remote_validate_txn: the outcome given the replies that arrived in time. */
  function VoteOutcome(cfg: Config, replies: map<int, int>): int {
    if |replies| < QuorumSize(cfg) then NO_QUORUM_ERR
    else if |Supporters(replies)| < QuorumSize(cfg) then ABORT
    else COMMIT
  }

  ghost predicate AllCommit(a: set<int>, replies: map<int, int>) {
    forall s :: s in a ==> s in replies && replies[s] == COMMIT
  }

  /** More than half of the replicas voted to commit, whatever the others did. */
  ghost predicate MajoritySupports(cfg: Config, replies: map<int, int>) {
    exists a :: AllCommit(a, replies) && 2 * |a| > cfg.replicationFactor
  }

  lemma SubsetSmaller(a: set<int>, b: set<int>)
    requires a <= b
    ensures |a| <= |b|
  {
    assert |b - a| == |b| - |a * b| && a * b == a;
  }

  /** The decision is to commit exactly when a majority voted for it, and a dissenting minority does
      not matter; there is none when a minority replied. */
  lemma DecisionIff(cfg: Config, replies: map<int, int>)
    ensures VoteOutcome(cfg, replies) == COMMIT <==> MajoritySupports(cfg, replies)
    ensures VoteOutcome(cfg, replies) == NO_QUORUM_ERR <==> 2 * |replies| <= cfg.replicationFactor
    ensures VoteOutcome(cfg, replies) in {COMMIT, ABORT, NO_QUORUM_ERR}
  {
    var yes := Supporters(replies);
    assert AllCommit(yes, replies);
    SubsetSmaller(yes, replies.Keys);
    if a :| AllCommit(a, replies) && 2 * |a| > cfg.replicationFactor {
      assert forall s :: s in a ==> s in yes;
      SubsetSmaller(a, yes);
    }
  }

  /** Statuses are the replies in some order of arrival, one per server. */
  ghost predicate Arrival(statuses: seq<int>, order: seq<int>, replies: map<int, int>) {
    && |statuses| == |order| == |replies|
    && (forall i, j :: 0 <= i < j < |order| ==> order[i] != order[j])
    && (forall i :: 0 <= i < |order| ==> order[i] in replies && replies[order[i]] == statuses[i])
  }

  function Tally(statuses: seq<int>): nat {
    if statuses == [] then 0
    else Tally(statuses[..|statuses| - 1]) + if statuses[|statuses| - 1] == COMMIT then 1 else 0
  }

  lemma ArrivalPrefix(statuses: seq<int>, order: seq<int>, replies: map<int, int>)
    requires Arrival(statuses, order, replies) && statuses != []
    ensures var n := |order| - 1; Arrival(statuses[..n], order[..n], replies - {order[n]})
  {
    var s := order[|order| - 1];
    assert (replies - {s}).Keys == replies.Keys - {s};
  }

  lemma {:induction false} TallyIsSupport(statuses: seq<int>, order: seq<int>, replies: map<int, int>)
    requires Arrival(statuses, order, replies)
    ensures |Supporters(replies)| == Tally(statuses)
  {
    if statuses == [] {
      assert replies.Keys == {};
      assert Supporters(replies) == {};
    } else {
      var n := |order| - 1;
      var rest := replies - {order[n]};
      ArrivalPrefix(statuses, order, replies);
      TallyIsSupport(statuses[..n], order[..n], rest);
      assert Supporters(replies) == Supporters(rest) + if statuses[n] == COMMIT then {order[n]} else {};
    }
  }

  /** The counting loop of _remote_validate_txn: the decision depends on who voted what and not on
      the order of arrival; a schema abort among the votes is reported as minority status. */
  method TallyVotes(cfg: Config, statuses: seq<int>, ghost order: seq<int>, ghost replies: map<int, int>)
    returns (outcome: int, minority: int)
    requires Arrival(statuses, order, replies)
    ensures outcome == VoteOutcome(cfg, replies)
    ensures outcome == COMMIT <==> MajoritySupports(cfg, replies)
    ensures outcome == NO_QUORUM_ERR <==> 2 * |replies| <= cfg.replicationFactor
    ensures minority == if |replies| >= QuorumSize(cfg) && ABORT_SCHEMA in statuses then ABORT_SCHEMA else 0
  {
    TallyIsSupport(statuses, order, replies);
    DecisionIff(cfg, replies);
    minority := 0;
    if |statuses| < QuorumSize(cfg) {
      return NO_QUORUM_ERR, minority;
    }
    var ok, i := 0, 0;
    while i < |statuses|
      invariant 0 <= i <= |statuses|
      invariant ok == Tally(statuses[..i])
      invariant minority == if ABORT_SCHEMA in statuses[..i] then ABORT_SCHEMA else 0
    {
      assert statuses[..i + 1][..i] == statuses[..i];
      if statuses[i] == COMMIT {
        ok := ok + 1;
      } else if statuses[i] == ABORT_SCHEMA {
        minority := statuses[i];
      }
      i := i + 1;
    }
    assert statuses[..i] == statuses;
    outcome := if ok < QuorumSize(cfg) then ABORT else COMMIT;
  }

  // ---- Steps ----

  datatype Event =
    | BeginTxn(t: int)
    | Issue(t: int, op: Write)
    | StartCommit(t: int)
    | Deliver(t: int, s: int, readsStale: bool, versionCmp: Write -> int)
    | Crash(t: int, s: int)
    | Receive(t: int, s: int, status: int)
    | Decide(t: int)
    | AskAgain(t: int)
    | Resend(t: int)
    | GiveUp(t: int)

  predicate InPhase(st: System, t: int, p: Phase) {
    t in st.clients && st.clients[t].phase == p
  }

  /** Server s is up and has a message of transaction t to handle. */
  predicate Pending(st: System, t: int, s: int) {
    && t in st.clients && s in st.nodes && !st.nodes[s].down
    && Cursor(st.nodes[s], t) < Sent(st.clients[t])
  }

  function NextMsg(st: System, t: int, s: int): Msg
    requires Pending(st, t, s)
  {
    MsgAt(st.clients[t], Cursor(st.nodes[s], t))
  }

  /** Handling a message fails an assertion: that a transaction to be validated is ACTIVE, or one of
      those on the way of a persist. */
  predicate Trips(n: Node, t: int, m: Msg) {
    t in n.txns &&
      match m
      case ValidateMsg => n.txns[t].status.Validated?
      case CommitMsg => !Survives(n.db, Values(n.txns[t].writes))
      case _ => false
  }

  ghost predicate Enabled(cfg: Config, st: System, e: Event) {
    match e
    case BeginTxn(t) => t !in st.clients && Issuable(cfg.queueTables, cfg.lo, [])
    case Issue(t, op) => InPhase(st, t, Open) && Issuable(cfg.queueTables, cfg.lo, st.clients[t].ops + [op])
    case StartCommit(t) => InPhase(st, t, Open)
    case Deliver(t, s, _, _) => Pending(st, t, s) && !Trips(st.nodes[s], t, NextMsg(st, t, s))
    case Crash(t, s) => Pending(st, t, s) && Trips(st.nodes[s], t, NextMsg(st, t, s))
    case Receive(t, s, status) => InPhase(st, t, Validating) && Ack(t, s, st.clients[t].rounds, status) in st.acks
    case Decide(t) => InPhase(st, t, Validating)
    case AskAgain(t) => InPhase(st, t, NoQuorum)
    case Resend(t) => InPhase(st, t, Committed)
    case GiveUp(t) => InPhase(st, t, Open) || InPhase(st, t, NoQuorum)
  }

  function Record(st: System, o: Obs): System {
    st.(when := st.when[o := st.clock], clock := st.clock + 1)
  }

  function SetClient(st: System, t: int, c: Client): System {
    st.(clients := st.clients[t := c])
  }

  function Stop(st: System, s: int): System
    requires s in st.nodes
  {
    st.(nodes := st.nodes[s := st.nodes[s].(down := true)])
  }

  function Say(c: Client, m: Msg): Client {
    c.(tail := c.tail + [m])
  }

  /** A new round of validation; replies to earlier rounds no longer count. */
  function AskRound(c: Client): Client {
    Say(c, ValidateMsg).(phase := Validating, rounds := c.rounds + 1, replies := map[])
  }

  /** What a server makes of a message of transaction t. */
  ghost function NodeAfter(n: Node, t: int, m: Msg, readsStale: bool, versionCmp: Write -> int): Node {
    var n' := n.(cursor := n.cursor[t := Cursor(n, t) + 1]);
    match m
    case BeginMsg => n'.(txns := AfterBegin(n.txns, t))
    case OpMsg(op) => n'.(txns := AfterOp(n.txns, t, op))
    case ValidateMsg => n'.(txns := AfterValidate(n.db, n.txns, t, readsStale, versionCmp))
    case CommitMsg =>
      if t in n.txns then n'.(db := PersistAll(n.db, Values(n.txns[t].writes)).db, txns := n.txns - {t}) else n'
    case AbortMsg => n'.(txns := n.txns - {t})
  }

  /** Server s handles the next message of transaction t and, for a validation, sends its vote. */
  ghost function Handle(st: System, t: int, s: int, readsStale: bool, versionCmp: Write -> int): System
    requires Pending(st, t, s)
  {
    var n, m := st.nodes[s], NextMsg(st, t, s);
    var st' := st.(nodes := st.nodes[s := NodeAfter(n, t, m, readsStale, versionCmp)]);
    if m == ValidateMsg then
      var status := ValidateStatus(n.db, n.txns, t, readsStale, versionCmp);
      var st'' := st'.(acks := st.acks + {Ack(t, s, Cursor(n, t) - |st.clients[t].ops|, status)});
      if status == COMMIT then Record(st'', Voted(s, t)) else st''
    else if m == CommitMsg && t in n.txns then
      Record(st', Persisted(s, t))
    else st'
  }

  ghost function Next(cfg: Config, st: System, e: Event): System
    requires Enabled(cfg, st, e)
  {
    match e
    case BeginTxn(t) => SetClient(st, t, Client(Open, [], 0, [], map[]))
    case Issue(t, op) => SetClient(st, t, st.clients[t].(ops := st.clients[t].ops + [op]))
    case StartCommit(t) => SetClient(st, t, AskRound(st.clients[t]))
    case Deliver(t, s, readsStale, versionCmp) => Handle(st, t, s, readsStale, versionCmp)
    case Crash(t, s) => Stop(st, s)
    case Receive(t, s, status) =>
      var c := st.clients[t];
      SetClient(st, t, c.(replies := c.replies[s := status])).(acks := st.acks - {Ack(t, s, c.rounds, status)})
    case Decide(t) =>
      var c := st.clients[t];
      var outcome := VoteOutcome(cfg, c.replies);
      if outcome == COMMIT then Record(SetClient(st, t, Say(c, CommitMsg).(phase := Committed)), Decided(t))
      else if outcome == ABORT then SetClient(st, t, Say(c, AbortMsg).(phase := Aborted))
      else SetClient(st, t, c.(phase := NoQuorum))
    case AskAgain(t) => SetClient(st, t, AskRound(st.clients[t]))
    case Resend(t) => SetClient(st, t, Say(st.clients[t], CommitMsg))
    case GiveUp(t) => SetClient(st, t, Say(st.clients[t], AbortMsg).(phase := Aborted))
  }

  /** The state after a run; events that are not enabled do not happen. */
  ghost function After(cfg: Config, es: seq<Event>): System {
    if es == [] then Init(cfg)
    else
      var st, e := After(cfg, es[..|es| - 1]), es[|es| - 1];
      if Enabled(cfg, st, e) then Next(cfg, st, e) else st
  }

  // ---- Invariants ----

  /** One request per round, and then nothing, the decision to commit once or more, or one abort. */
  ghost predicate TailOk(c: Client) {
    && (forall i :: 0 <= i < |c.tail| ==>
          c.tail[i] == if i < c.rounds then ValidateMsg else if c.phase.Committed? then CommitMsg else AbortMsg)
    && match c.phase
       case Open => c.tail == [] && c.rounds == 0
       case Validating => |c.tail| == c.rounds >= 1
       case NoQuorum => |c.tail| == c.rounds >= 1
       case Committed => |c.tail| > c.rounds >= 1
       case Aborted => |c.tail| == c.rounds + 1
  }

  ghost predicate ClientOk(cfg: Config, c: Client) {
    TailOk(c) && Issuable(cfg.queueTables, cfg.lo, c.ops)
  }

  /** Server and client agree on transaction t: what the server holds is determined by how many of
      the client's messages it has handled, apart from the outcome of validation. */
  ghost predicate PairOk(n: Node, c: Client, t: int) {
    var k := Cursor(n, t);
    && k <= Sent(c)
    && (k == 0 ==> t !in n.txns)
    && (1 <= k <= 1 + |c.ops| ==> t in n.txns && n.txns[t] == Txn(Active, WriteSetOf(c.ops[..k - 1])))
    && (2 + |c.ops| <= k <= Undecided(c) ==> t in n.txns && n.txns[t].writes == WriteSetOf(c.ops))
    && (k > Undecided(c) ==> t !in n.txns)
  }
}
