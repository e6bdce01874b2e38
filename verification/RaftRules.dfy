/** What each RAFT handler answers and does, in both directions, said of node states alone: when a
    vote is granted, when an append request succeeds, when a candidate wins. */
module RaftRules {
  import opened Raft
  import opened RaftElection
  import RaftLog

  function Max(a: nat, b: nat): nat { if a >= b then a else b }
  function Min(a: nat, b: nat): nat { if a <= b then a else b }

  /** The term of the last entry, 0 for an empty log (slot 0 holds none). */
  ghost function EndTerm(s: Node): nat
    requires s.log != []
  {
    if |s.log| == 1 then 0 else s.log[|s.log| - 1].term
  }

  /** A vote request of a node's own or a later term is granted if and only if the vote is free in
      that term or has gone to the same node, and the candidate's log is no earlier. */
  lemma VoteRule(s: Node, from: nat, term: u64, lastLogIndex: nat, lastLogTerm: u64)
    requires WellFormed(s)
    ensures var o := Receive(s, VoteRequest(from, term, lastLogIndex, lastLogTerm));
            var free := term > s.term || (term == s.term && (s.votedFor == -1 || s.votedFor == ToInt32(from)));
            var behind := lastLogTerm > EndTerm(s) || (lastLogTerm == EndTerm(s) && lastLogIndex >= |s.log| - 1);
            && o.sent == [Packet(from, VoteResponse(s.id, Max(s.term, term), free && behind))]
            && o.node == s.(term := Max(s.term, term),
                            role := if term > s.term then Follower else s.role,
                            votes := if term > s.term then 0 else s.votes,
                            votedFor := if free && behind then ToInt32(from) else if term > s.term then -1 else s.votedFor)
  {
  }

  /** In a run, a member whose vote is free and whose log is no later answers with its vote. */
  lemma FreeVoteIsGranted(w: World, p: Packet, w': World)
    requires Next(w, Deliver(p), w') && p.msg.VoteRequest?
    requires var s := w.nodes[p.to];
             && (p.msg.term > s.term || (p.msg.term == s.term && s.votedFor == -1))
             && (p.msg.lastLogTerm > EndTerm(s) || (p.msg.lastLogTerm == EndTerm(s) && p.msg.lastLogIndex >= |s.log| - 1))
    ensures Packet(p.msg.from, VoteResponse(w.nodes[p.to].id, p.msg.term, true)) in w'.net
    ensures w'.nodes[p.to].votedFor == ToInt32(p.msg.from) && w'.nodes[p.to].term == p.msg.term
  {
    hide Receive;
    VoteRule(w.nodes[p.to], p.msg.from, p.msg.term, p.msg.lastLogIndex, p.msg.lastLogTerm);
  }

  /** A vote counts for the candidate of its term only, and makes it leader if and only if it
      completes a majority of the members. */
  lemma CountRule(s: Node, from: nat, term: u64, granted: bool)
    requires WellFormed(s) && s.votes < U32 - 1
    ensures var s' := Receive(s, VoteResponse(from, term, granted)).node;
            var counts := s.role == Candidate && term == s.term && granted;
            && Receive(s, VoteResponse(from, term, granted)).sent == []
            && (s.role != Leader ==> (s'.role == Leader <==> counts && 2 * (s.votes + 1) > |s.peers|))
            && (counts ==> s'.votes == s.votes + 1 && s'.term == s.term && s'.votedFor == s.votedFor)
            && (term > s.term ==> s' == s.(term := term, role := Follower, votedFor := -1, votes := 0))
            && (term <= s.term && !counts ==> s' == s)
  {
  }

  /** A new leader expects nothing of its peers, and starts its term with an empty entry if its
      log has room. */
  lemma LeaderRule(s: Node)
    requires WellFormed(s)
    ensures var l := BecomeLeader(s);
            && l.role == Leader && l.leaderId == s.id && l.term == s.term && l.commit == s.commit && l.applied == s.applied
            && l.votedFor == s.votedFor && l.votes == s.votes && l.id == s.id
            && |l.peers| == |s.peers|
            && (forall i :: 0 <= i < |s.peers| ==> l.peers[i].id == s.peers[i].id && l.peers[i].nextIndex == |s.log| && l.peers[i].matchIndex == 0)
            && l.log == s.log + (if |s.log| < 1024 then [Entry(|s.log|, s.term, 0, 0, None)] else [])
  {
  }

  /** An append request succeeds if and only if its term is current and the entry before the new
      ones is there with the stated term. */
  lemma AppendRule(s: Node, from: nat, term: u64, prevLogIndex: u64, prevLogTerm: u64, leaderCommit: nat, entryCount: nat)
    requires WellFormed(s)
    ensures var o := Receive(s, AppendRequest(from, term, prevLogIndex, prevLogTerm, leaderCommit, entryCount));
            var matches := prevLogIndex == 0 || (prevLogIndex < |s.log| && s.log[prevLogIndex].term == prevLogTerm);
            var success := term >= s.term && matches;
            var down := term > s.term || (term == s.term && s.role == Candidate);
            && o.sent == [Packet(from, AppendResponse(s.id, Max(s.term, term), success, if success then (prevLogIndex + entryCount) % U64 else 0))]
            && o.node == s.(term := Max(s.term, term),
                            role := if down then Follower else s.role,
                            votedFor := if down then -1 else s.votedFor,
                            votes := if down then 0 else s.votes,
                            leaderId := if term >= s.term then from else s.leaderId,
                            commit := if success then Max(s.commit, Min(leaderCommit, |s.log| - 1)) else s.commit)
  {
  }

  /** What a leader does with the answer: on success it notes how far the peer has got (the commit
      index is the subject of RaftLog.CommitRule), on refusal it backs up by one, not below 1. */
  lemma AppendAnswerRule(s: Node, from: nat, term: u64, success: bool, matchIndex: u64, i: nat)
    requires WellFormed(s) && s.role == Leader && term <= s.term
    requires i < |s.peers| && s.peers[i].id == from && forall j :: 0 <= j < i ==> s.peers[j].id != from
    ensures var s' := Receive(s, AppendResponse(from, term, success, matchIndex)).node;
            && |s'.peers| == |s.peers| && (forall j :: 0 <= j < |s.peers| && j != i ==> s'.peers[j] == s.peers[j])
            && s'.peers[i] == (if success then Peer(from, (matchIndex + 1) % U64, matchIndex)
                               else s.peers[i].(nextIndex := if s.peers[i].nextIndex > 1 then s.peers[i].nextIndex - 1 else s.peers[i].nextIndex))
            && s' == s.(peers := s'.peers, commit := s'.commit) && (!success ==> s'.commit == s.commit)
  {
    hide ScanFrom;
    assert FindPeer(s.peers, from) == i;
  }

  /** Any other answer changes nothing, unless it carries a later term. */
  lemma StrayAnswerRule(s: Node, from: nat, term: u64, success: bool, matchIndex: u64)
    requires WellFormed(s) && (s.role != Leader || forall j :: 0 <= j < |s.peers| ==> s.peers[j].id != from)
    ensures var s' := Receive(s, AppendResponse(from, term, success, matchIndex)).node;
            s' == if term > s.term then s.(term := term, role := Follower, votedFor := -1, votes := 0) else s
  {
    hide ScanFrom;
  }

  lemma {:induction false} BroadcastIs(peers: seq<Peer>, self: nat, msg: Message, p: Packet)
    ensures p in Broadcast(peers, self, msg) <==> p.msg == msg && p.to != self && exists i :: 0 <= i < |peers| && peers[i].id == p.to
  {
    if peers != [] {
      BroadcastIs(peers[..|peers| - 1], self, msg, p);
    }
  }

  /** A node whose election timer runs out stands for the next term, votes for itself and asks
      every other member, with its own last position. */
  lemma CampaignRule(s: Node, p: Packet)
    requires WellFormed(s) && s.role != Leader
    ensures var o := Tick(s, true);
            && o.node == s.(applied := s.commit, role := Candidate, term := (s.term + 1) % U64, votedFor := ToInt32(s.id), votes := 1)
            && (p in o.sent <==> && p.msg == VoteRequest(s.id, (s.term + 1) % U64, |s.log| - 1, EndTerm(s))
                                 && p.to != s.id && exists i :: 0 <= i < |s.peers| && s.peers[i].id == p.to)
  {
    hide Broadcast;
    var c := BecomeCandidate(s.(applied := s.commit)).node;
    BroadcastIs(s.peers, s.id, VoteRequest(s.id, c.term, LastIndex(c), LastLogTerm(c)), p);
  }

  ghost function HeartbeatFor(s: Node, peer: Peer): Packet
    requires s.log != []
  {
    var prev := if peer.nextIndex == 0 then U64 - 1 else peer.nextIndex - 1;
    Packet(peer.id, AppendRequest(s.id, s.term, prev, if prev < |s.log| then s.log[prev].term else 0, s.commit, 0))
  }

  lemma {:induction false} HeartbeatsAre(s: Node, peers: seq<Peer>, p: Packet)
    requires s.log != []
    ensures p in Heartbeats(s, peers) <==> exists i :: 0 <= i < |peers| && peers[i].id != s.id && p == HeartbeatFor(s, peers[i])
  {
    if peers != [] {
      var k := |peers| - 1;
      HeartbeatsAre(s, peers[..k], p);
      assert peers[k] == peers[|peers| - 1];
      assert HeartbeatTo(s, peers[k]) == HeartbeatFor(s, peers[k]);
      if i :| 0 <= i < |peers| && peers[i].id != s.id && p == HeartbeatFor(s, peers[i]) {
        assert i < k ==> peers[..k][i] == peers[i];
      }
    }
  }

  /** A leader's timer sends every other member the position before its next entry, with the term
      found there, and the commit index; no state changes but last_applied. */
  lemma HeartbeatRule(s: Node, p: Packet)
    requires WellFormed(s) && s.role == Leader
    ensures Tick(s, true).node == s.(applied := s.commit)
    ensures p in Tick(s, true).sent <==> exists i :: 0 <= i < |s.peers| && s.peers[i].id != s.id && p == HeartbeatFor(s, s.peers[i])
  {
    hide Heartbeats;
    HeartbeatsAre(s.(applied := s.commit), s.peers, p);
    forall i | 0 <= i < |s.peers| ensures HeartbeatFor(s.(applied := s.commit), s.peers[i]) == HeartbeatFor(s, s.peers[i]) {
    }
  }

  /** A client request is taken by a leader whose log has room, and by no other node. */
  lemma SubmitRule(s: Node, kind: nat, data: seq<bv8>, allocOk: bool)
    requires WellFormed(s)
    ensures var (s', ok) := Submit(s, kind, data, allocOk);
            && s' == s.(log := s'.log)
            && (ok <==> s.role == Leader && |s.log| < 1024 && (data == [] || allocOk))
            && s'.log == s.log + (if s.role == Leader && |s.log| < 1024
                                  then [Entry(|s.log|, s.term, kind, |data|, if data != [] && allocOk then Some(data) else None)] else [])
  {
  }

  /** The cast of a node id to a signed 32-bit value keeps it modulo 2^32. */
  lemma CastRule(x: nat)
    ensures -0x8000_0000 <= ToInt32(x) < 0x8000_0000 && (x - ToInt32(x)) % U32 == 0
  {
  }
}
