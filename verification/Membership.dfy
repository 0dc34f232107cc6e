/** One round of agreeing on a new membership view: a server proposes its view to its live peers and
    folds their answers, in whatever order they come, into the fate of the proposal. */
module Memberships {
  import opened SortedSeq

  const PROPOSAL_STATUS_ACTIVE := 1
  const PROPOSAL_STATUS_ACCEPTED := 2
  const PROPOSAL_STATUS_AMMENDED := 3
  const PROPOSAL_STATUS_REJECTED := 4

  const NO_PROPOSAL := -2
  const STALE_NONCE := -1

  const NODE_LIVE := 0

  datatype Peer = Peer(id: int, status: int, sockfd: int)

  predicate IsAnswer(status: int) {
    PROPOSAL_STATUS_ACCEPTED <= status <= PROPOSAL_STATUS_REJECTED
  }

  // ---- What a round amounts to ----

  predicate SomeAnswered(replies: map<int, int>, status: int) {
    exists p :: p in replies && replies[p] == status
  }

  /** Rejected if anyone rejected, else amended if anyone amended, else accepted once all peers that
      were asked have answered. */
  function Fate(asked: set<int>, replies: map<int, int>): int {
    if SomeAnswered(replies, PROPOSAL_STATUS_REJECTED) then PROPOSAL_STATUS_REJECTED
    else if SomeAnswered(replies, PROPOSAL_STATUS_AMMENDED) then PROPOSAL_STATUS_AMMENDED
    else if replies != map[] && asked <= replies.Keys then PROPOSAL_STATUS_ACCEPTED
    else PROPOSAL_STATUS_ACTIVE
  }

  /** The peers whose amendments go into the merged view. */
  function Amenders(replies: map<int, int>): set<int> {
    set p | p in replies && replies[p] == PROPOSAL_STATUS_AMMENDED
  }

  /** The status after one more answer, given how many are still missing. */
  function StatusAfter(status: int, missing: int, ack: int): int {
    if ack == PROPOSAL_STATUS_ACCEPTED then
      if missing == 0 && status == PROPOSAL_STATUS_ACTIVE then PROPOSAL_STATUS_ACCEPTED else status
    else if ack == PROPOSAL_STATUS_AMMENDED then
      if status == PROPOSAL_STATUS_REJECTED then status else PROPOSAL_STATUS_AMMENDED
    else PROPOSAL_STATUS_REJECTED
  }

  ghost predicate Proper(asked: set<int>, replies: map<int, int>) {
    replies.Keys <= asked && forall p :: p in replies ==> IsAnswer(replies[p])
  }

  lemma AnswersLeft(asked: set<int>, replies: map<int, int>)
    requires replies.Keys <= asked
    ensures |replies| <= |asked| && (asked <= replies.Keys <==> |replies| == |asked|)
  {
    var rest := asked - replies.Keys;
    assert asked * replies.Keys == replies.Keys;
    assert |rest| == |asked| - |replies.Keys|;
    assert |rest| == 0 ==> rest == {};
  }

  lemma AnsweredAfter(replies: map<int, int>, from: int, ack: int, s: int)
    requires from !in replies
    ensures SomeAnswered(replies[from := ack], s) <==> SomeAnswered(replies, s) || s == ack
  {
    var replies' := replies[from := ack];
    assert replies'[from] == ack;
    if p :| p in replies && replies[p] == s {
      assert replies'[p] == s;
    }
  }

  /** Updating the status answer by answer gives the fate of the round, in whatever order they come. */
  lemma FateAfter(asked: set<int>, replies: map<int, int>, from: int, ack: int)
    requires Proper(asked, replies) && from in asked && from !in replies && IsAnswer(ack)
    ensures var replies' := replies[from := ack];
            && Proper(asked, replies') && |replies'| == |replies| + 1 <= |asked|
            && Fate(asked, replies') == StatusAfter(Fate(asked, replies), |asked| - |replies'|, ack)
            && Amenders(replies') == Amenders(replies) + (if ack == PROPOSAL_STATUS_AMMENDED then {from} else {})
  {
    var replies' := replies[from := ack];
    AnswersLeft(asked, replies');
    AnsweredAfter(replies, from, ack, PROPOSAL_STATUS_REJECTED);
    AnsweredAfter(replies, from, ack, PROPOSAL_STATUS_AMMENDED);
    assert !(asked <= replies.Keys);
  }

  // ---- Whole rounds ----

  datatype Response = Response(from: int, nonce: int, ack: int)

  datatype Round = Round(nonce: int, status: int, acks: int, merged: set<int>)

  function Receive(r: Round, m: Response): Round {
    if m.nonce != r.nonce then r
    else
      Round(r.nonce, StatusAfter(r.status, r.acks - 1, m.ack), r.acks - 1,
            if m.ack == PROPOSAL_STATUS_AMMENDED then r.merged + {m.from} else r.merged)
  }

  function ReceiveAll(r: Round, ms: seq<Response>): Round {
    if ms == [] then r else Receive(ReceiveAll(r, ms[..|ms| - 1]), ms[|ms| - 1])
  }

  /** The answers to one proposal among all responses that arrive. */
  function Collected(nonce: int, ms: seq<Response>): map<int, int> {
    if ms == [] then map[]
    else
      var before, m := Collected(nonce, ms[..|ms| - 1]), ms[|ms| - 1];
      if m.nonce == nonce then before[m.from := m.ack] else before
  }

  /** Peers that were asked answer at most once; responses to other proposals may be anything. */
  ghost predicate AnsweredOnce(asked: set<int>, nonce: int, ms: seq<Response>) {
    forall i :: 0 <= i < |ms| && ms[i].nonce == nonce ==>
      ms[i].from in asked && IsAnswer(ms[i].ack) && ms[i].from !in Collected(nonce, ms[..i])
  }

  /** What a round leaves depends on who answered what, and not on the order: the counter is the
      number of missing answers, the status is the fate of the proposal, and stale responses count
      for nothing. */
  lemma {:induction false} RoundOutcome(asked: set<int>, nonce: int, ms: seq<Response>)
    requires AnsweredOnce(asked, nonce, ms)
    ensures Proper(asked, Collected(nonce, ms))
    ensures var c := Collected(nonce, ms);
            ReceiveAll(Round(nonce, PROPOSAL_STATUS_ACTIVE, |asked|, {}), ms)
              == Round(nonce, Fate(asked, c), |asked| - |c|, Amenders(c))
  {
    if ms != [] {
      var before, m := ms[..|ms| - 1], ms[|ms| - 1];
      assert forall i :: 0 <= i < |before| ==> before[..i] == ms[..i];
      RoundOutcome(asked, nonce, before);
      if m.nonce == nonce {
        FateAfter(asked, Collected(nonce, before), m.from, m.ack);
      }
    }
  }

  /** At any time in a round: rejected once anyone rejected, amended once anyone amended and nobody
      rejected, accepted if and only if everybody answered and accepted, and active else. */
  lemma StatusIff(asked: set<int>, nonce: int, ms: seq<Response>)
    requires AnsweredOnce(asked, nonce, ms)
    ensures var c, r := Collected(nonce, ms), ReceiveAll(Round(nonce, PROPOSAL_STATUS_ACTIVE, |asked|, {}), ms);
            && (r.acks == 0 <==> c.Keys == asked)
            && (r.status == PROPOSAL_STATUS_REJECTED <==> SomeAnswered(c, PROPOSAL_STATUS_REJECTED))
            && (r.status == PROPOSAL_STATUS_AMMENDED <==>
                  SomeAnswered(c, PROPOSAL_STATUS_AMMENDED) && !SomeAnswered(c, PROPOSAL_STATUS_REJECTED))
            && (r.status == PROPOSAL_STATUS_ACCEPTED <==>
                  c != map[] && r.acks == 0 && forall p :: p in asked ==> c[p] == PROPOSAL_STATUS_ACCEPTED)
            && PROPOSAL_STATUS_ACTIVE <= r.status <= PROPOSAL_STATUS_REJECTED
  {
    RoundOutcome(asked, nonce, ms);
    AnswersLeft(asked, Collected(nonce, ms));
  }

  /** Once everybody has answered, the round is decided. */
  lemma AllAnswered(asked: set<int>, nonce: int, ms: seq<Response>)
    requires AnsweredOnce(asked, nonce, ms) && asked != {}
    requires ReceiveAll(Round(nonce, PROPOSAL_STATUS_ACTIVE, |asked|, {}), ms).acks == 0
    ensures var c, r := Collected(nonce, ms), ReceiveAll(Round(nonce, PROPOSAL_STATUS_ACTIVE, |asked|, {}), ms);
            r.status == if SomeAnswered(c, PROPOSAL_STATUS_REJECTED) then PROPOSAL_STATUS_REJECTED
                        else if SomeAnswered(c, PROPOSAL_STATUS_AMMENDED) then PROPOSAL_STATUS_AMMENDED
                        else PROPOSAL_STATUS_ACCEPTED
  {
    RoundOutcome(asked, nonce, ms);
    AnswersLeft(asked, Collected(nonce, ms));
  }

  // ---- The proposer ----

  /** A peer that is asked to agree to a proposal. */
  predicate Asks(peer: Peer, myId: int) {
    peer.status == NODE_LIVE && peer.sockfd > 0 && peer.id != myId
  }

  /** The ids of the first n peers that are asked. */
  ghost function AskedIds(peers: seq<Peer>, myId: int, n: nat): set<int>
    requires n <= |peers|
  {
    set i | 0 <= i < n && Asks(peers[i], myId) :: peers[i].id
  }

  ghost predicate DistinctIds(peers: seq<Peer>) {
    forall i, j :: 0 <= i < j < |peers| ==> peers[i].id != peers[j].id
  }

  lemma AskedNext(peers: seq<Peer>, myId: int, n: nat)
    requires n < |peers| && DistinctIds(peers)
    ensures AskedIds(peers, myId, n + 1) == AskedIds(peers, myId, n) + if Asks(peers[n], myId) then {peers[n].id}
            else {}
    ensures peers[n].id !in AskedIds(peers, myId, n)
  {
  }

  method CountAsked(peers: seq<Peer>, myId: int) returns (acks: nat)
    requires DistinctIds(peers)
    ensures acks == |AskedIds(peers, myId, |peers|)|
  {
    acks := 0;
    for i := 0 to |peers|
      invariant acks == |AskedIds(peers, myId, i)|
    {
      AskedNext(peers, myId, i);
      if Asks(peers[i], myId) {
        acks := acks + 1;
      }
    }
  }

  class Proposer {
    var outstanding: bool
    var nonce: int
    var status: int
    var acks: int
    var merged: set<int>
    ghost var asked: set<int>
    ghost var replies: map<int, int>

    ghost predicate Valid()
      reads this
    {
      outstanding ==>
        && Proper(asked, replies)
        && acks == |asked| - |replies|
        && status == Fate(asked, replies)
        && merged == Amenders(replies)
    }

    ghost function State(): Round
      reads this
    {
      Round(nonce, status, acks, merged)
    }

    constructor ()
      ensures Valid() && !outstanding
    {
      outstanding, nonce, status, acks, merged := false, 0, 0, 0, {};
      asked, replies := {}, map[];
    }

    /** propose_local_membership: starts over, whatever was outstanding, and asks every live and
        connected peer but the proposer itself. */
    method Propose(peers: seq<Peer>, myId: int, freshNonce: int)
      requires DistinctIds(peers)
      modifies this
      ensures Valid() && outstanding && nonce == freshNonce && status == PROPOSAL_STATUS_ACTIVE && replies == map[]
      ensures asked == AskedIds(peers, myId, |peers|)
      ensures forall i :: 0 <= i < |peers| ==>
                (peers[i].id in asked <==> peers[i].status == NODE_LIVE && peers[i].sockfd > 0 && peers[i].id != myId)
    {
      outstanding, nonce, status, merged := true, freshNonce, PROPOSAL_STATUS_ACTIVE, {};
      acks := CountAsked(peers, myId);
      asked, replies := AskedIds(peers, myId, |peers|), map[];
    }

    /** handle_agreement_response_message. Each asked peer answers a proposal at most once. */
    method HandleResponse(from: int, responseNonce: int, ackStatus: int) returns (r: int, view: Option<set<int>>)
      requires Valid() && IsAnswer(ackStatus)
      requires outstanding && nonce == responseNonce ==> from in asked && from !in replies
      modifies this
      ensures Valid() && outstanding == old(outstanding) && nonce == old(nonce) && asked == old(asked)
      ensures !old(outstanding) || nonce != responseNonce ==>
                && r == (if !old(outstanding) then NO_PROPOSAL else STALE_NONCE) && view == None
                && replies == old(replies) && status == old(status) && acks == old(acks) && merged == old(merged)
      ensures old(outstanding) && nonce == responseNonce ==> replies == old(replies)[from := ackStatus] && r == status
      ensures old(outstanding) ==> State() == Receive(old(State()), Response(from, responseNonce, ackStatus))
      ensures view.Some? ==> view.value == Amenders(replies)
      ensures old(outstanding) && nonce == responseNonce ==>
                (view.Some? <==> acks == 0 && (ackStatus == PROPOSAL_STATUS_ACCEPTED || r == PROPOSAL_STATUS_AMMENDED))
      ensures old(outstanding) && nonce == responseNonce && acks == 0 && r != PROPOSAL_STATUS_REJECTED ==> view.Some?
    {
      view := None;
      if !outstanding {
        return NO_PROPOSAL, view;
      }
      if nonce != responseNonce {
        return STALE_NONCE, view;
      }
      FateAfter(asked, replies, from, ackStatus);
      acks := acks - 1;
      assert acks >= 0;
      replies := replies[from := ackStatus];
      if ackStatus == PROPOSAL_STATUS_ACCEPTED {
        if acks == 0 {
          if status == PROPOSAL_STATUS_ACTIVE {
            status := PROPOSAL_STATUS_ACCEPTED;
          }
          view := Some(merged);
        }
      } else if ackStatus == PROPOSAL_STATUS_AMMENDED {
        merged := merged + {from};
        if status != PROPOSAL_STATUS_REJECTED {
          status := PROPOSAL_STATUS_AMMENDED;
        }
        if status == PROPOSAL_STATUS_AMMENDED && acks == 0 {
          view := Some(merged);
        }
      } else {
        assert ackStatus == PROPOSAL_STATUS_REJECTED;
        status := PROPOSAL_STATUS_REJECTED;
      }
      assert (status == PROPOSAL_STATUS_AMMENDED || status == PROPOSAL_STATUS_ACCEPTED) && acks == 0 ==> view.Some?;
      r := status;
    }
  }
}
