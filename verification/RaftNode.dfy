/** The code of src/storage/distributed.c as it stands: fields updated in place, loops
    over the node and log arrays. Each method is proved to compute the transition of
    the same name in Raft.dfy. A sent message is returned instead of handed to the
    send_message callback; time enters as the flag that a timer has run out. */
module RaftNode {
  import opened Raft
  import RaftLog

  class RaftContext {
    const nodeId: nat
    var state: Role
    var currentTerm: u64
    var votedFor: int
    const log: array<Entry>
    var lastIndex: nat
    var commitIndex: nat
    var lastApplied: nat
    var leaderId: nat
    const nodes: array<Peer>
    var nodeCount: nat
    var votesReceived: nat

    ghost predicate Shape()
      reads this
    {
      && log.Length == LOG_SIZE && nodes.Length == MAX_NODES
      && lastIndex < LOG_SIZE && nodeCount <= MAX_NODES
    }

    ghost function View(): Node
      requires Shape()
      reads this, log, nodes
    {
      Node(nodeId, state, currentTerm, votedFor, log[..lastIndex + 1], commitIndex, lastApplied,
           leaderId, votesReceived, nodes[..nodeCount])
    }

    ghost predicate Valid()
      reads this, log, nodes
    {
      Shape() && WellFormed(View())
    }

    /** raft_init followed by one raft_add_node per member. */
    constructor (id: nat, members: seq<nat>)
      requires |members| <= MAX_NODES
      ensures Valid() && fresh(log) && fresh(nodes)
      ensures View() == InitialNode(id, members)
      ensures state == Follower && currentTerm == 0 && votedFor == -1 && votesReceived == 0
      ensures lastIndex == 0 && commitIndex == 0 && lastApplied == 0 && nodeCount == |members|
      ensures forall i :: 0 <= i < |members| ==> nodes[i] == Peer(members[i], 1, 0)
    {
      nodeId, state, currentTerm, votedFor := id, Follower, 0, -1;
      lastIndex, commitIndex, lastApplied, leaderId := 0, 0, 0, 0;
      votesReceived, nodeCount := 0, |members|;
      log := new Entry[LOG_SIZE](_ => ZERO_ENTRY);
      nodes := new Peer[MAX_NODES](_ => Peer(0, 0, 0));
      new;
      for i := 0 to |members|
        modifies nodes
        invariant log[..1] == [ZERO_ENTRY]
        invariant forall j :: 0 <= j < i ==> nodes[j] == Peer(members[j], 1, 0)
      {
        nodes[i] := Peer(members[i], 1, 0);
      }
    }

    /** The term of the last entry, 0 for an empty log. */
    ghost function EndTerm(): nat
      requires Shape()
      reads this, log, nodes
    {
      if lastIndex == 0 then 0 else log[lastIndex].term
    }

    method LastTerm() returns (term: u64)
      requires Valid()
      ensures term == LastLogTerm(View())
    {
      term := if lastIndex == 0 then 0 else log[lastIndex].term;
    }

    method AppendLogEntry(kind: nat, data: seq<bv8>, allocOk: bool) returns (ok: bool)
      requires Valid()
      modifies `lastIndex, log
      ensures Valid()
      ensures (View(), ok) == AppendEntry(old(View()), kind, data, allocOk)
    {
      if lastIndex >= LOG_SIZE - 1 {
        return false;
      }
      lastIndex := lastIndex + 1;
      if |data| > 0 {
        log[lastIndex] := Entry(lastIndex, currentTerm, kind, |data|, if allocOk then Some(data) else None);
        ok := allocOk;
      } else {
        log[lastIndex] := Entry(lastIndex, currentTerm, kind, |data|, None);
        ok := true;
      }
      assert log[..lastIndex + 1] == old(log[..lastIndex + 1]) + [log[lastIndex]];
    }

    method BecomeFollower(term: u64)
      requires Valid()
      modifies `state, `currentTerm, `votedFor, `votesReceived
      ensures Valid()
      ensures View() == Raft.BecomeFollower(old(View()), term)
    {
      state := Follower;
      currentTerm := term;
      votedFor := -1;
      votesReceived := 0;
    }

    method BecomeCandidate() returns (sent: seq<Packet>)
      requires Valid()
      modifies `state, `currentTerm, `votedFor, `votesReceived
      ensures Valid()
      ensures Outcome(View(), sent) == Raft.BecomeCandidate(old(View()))
    {
      state := Candidate;
      currentTerm := (currentTerm + 1) % U64;
      votedFor := ToInt32(nodeId);
      votesReceived := 1;
      var lastTerm := LastTerm();
      var request := VoteRequest(nodeId, currentTerm, lastIndex, lastTerm);
      sent := [];
      for i := 0 to nodeCount
        invariant sent == Broadcast(nodes[..i], nodeId, request)
      {
        assert nodes[..i + 1][..i] == nodes[..i];
        if nodes[i].id != nodeId {
          sent := sent + [Packet(nodes[i].id, request)];
        }
      }
    }

    method BecomeLeader()
      requires Valid()
      modifies `state, `leaderId, `lastIndex, log, nodes
      ensures Valid()
      ensures View() == Raft.BecomeLeader(old(View()))
    {
      state := Leader;
      leaderId := nodeId;
      for i := 0 to nodeCount
        modifies nodes
        invariant forall j :: 0 <= j < i ==> nodes[j] == Peer(old(nodes[j].id), lastIndex + 1, 0)
        invariant forall j :: i <= j < nodeCount ==> nodes[j] == old(nodes[j])
      {
        nodes[i] := Peer(nodes[i].id, lastIndex + 1, 0);
      }
      assert nodes[..nodeCount] == ResetPeers(old(nodes[..nodeCount]), lastIndex + 1);
      assert log[..lastIndex + 1] == old(log[..lastIndex + 1]);
      var _ := AppendLogEntry(NOOP, [], true);
    }

    method HandleVoteRequest(from: nat, term: u64, lastLogIndex: nat, lastLogTerm: u64) returns (sent: seq<Packet>)
      requires Valid()
      modifies `state, `currentTerm, `votedFor, `votesReceived
      ensures Valid()
      ensures Outcome(View(), sent) == Raft.HandleVoteRequest(old(View()), from, term, lastLogIndex, lastLogTerm)
      // a vote is granted exactly where it is free in this term or went to the same node before,
      // and the candidate's log is no earlier
      ensures |sent| == 1 && sent[0].to == from && sent[0].msg.VoteResponse? && sent[0].msg.from == nodeId
      ensures sent[0].msg.granted <==>
                && (term > old(currentTerm) || (term == old(currentTerm) && (old(votedFor) == -1 || old(votedFor) == ToInt32(from))))
                && (lastLogTerm > EndTerm() || (lastLogTerm == EndTerm() && lastLogIndex >= lastIndex))
      ensures currentTerm == sent[0].msg.term == (if term > old(currentTerm) then term else old(currentTerm))
      ensures votedFor == (if sent[0].msg.granted then ToInt32(from) else if term > old(currentTerm) then -1 else old(votedFor))
      ensures state == (if term > old(currentTerm) then Follower else old(state))
    {
      var granted := false;
      if term > currentTerm {
        BecomeFollower(term);
      }
      if term >= currentTerm && (votedFor == -1 || votedFor == ToInt32(from)) {
        var lastTerm := LastTerm();
        if lastLogTerm > lastTerm || (lastLogTerm == lastTerm && lastLogIndex >= lastIndex) {
          granted := true;
          votedFor := ToInt32(from);
        }
      }
      sent := [Packet(from, VoteResponse(nodeId, currentTerm, granted))];
    }

    method HandleVoteResponse(term: u64, granted: bool)
      requires Valid()
      modifies this, log, nodes
      ensures Valid()
      ensures View() == Raft.HandleVoteResponse(old(View()), term, granted)
    {
      if term > currentTerm {
        BecomeFollower(term);
        return;
      }
      if state != Candidate || term != currentTerm {
        return;
      }
      if granted {
        votesReceived := (votesReceived + 1) % U32;
        var majority := nodeCount / 2 + 1;
        if votesReceived >= majority {
          BecomeLeader();
        }
      }
    }

    method HandleAppendRequest(from: nat, term: u64, prevLogIndex: u64, prevLogTerm: u64,
                               leaderCommit: nat, entryCount: nat) returns (sent: seq<Packet>)
      requires Valid()
      modifies this
      ensures Valid()
      ensures Outcome(View(), sent) ==
              Raft.HandleAppendRequest(old(View()), from, term, prevLogIndex, prevLogTerm, leaderCommit, entryCount)
      // it succeeds exactly if the term is current and the previous entry is there with its term
      ensures |sent| == 1 && sent[0].to == from && sent[0].msg.AppendResponse? && sent[0].msg.from == nodeId && sent[0].msg.term == currentTerm
      ensures sent[0].msg.success <==>
                term >= old(currentTerm) && (prevLogIndex == 0 || (prevLogIndex <= lastIndex && log[prevLogIndex].term == prevLogTerm))
      ensures sent[0].msg.matchIndex == if sent[0].msg.success then (prevLogIndex + entryCount) % U64 else 0
      ensures commitIndex == if sent[0].msg.success && leaderCommit > old(commitIndex)
                             then (if leaderCommit <= lastIndex then leaderCommit else lastIndex) else old(commitIndex)
      ensures currentTerm == (if term > old(currentTerm) then term else old(currentTerm))
      ensures state == (if term > old(currentTerm) || (term == old(currentTerm) && old(state) == Candidate) then Follower else old(state))
      ensures lastIndex == old(lastIndex) && leaderId == (if term >= old(currentTerm) then from else old(leaderId))
    {
      var success, matchIndex := false, 0;
      if term > currentTerm {
        BecomeFollower(term);
      }
      if term >= currentTerm {
        leaderId := from;
        if state == Candidate {
          BecomeFollower(term);
        }
        if !(prevLogIndex > 0 && (prevLogIndex > lastIndex || log[prevLogIndex].term != prevLogTerm)) {
          success := true;
          matchIndex := (prevLogIndex + entryCount) % U64;
          FollowCommit(leaderCommit);
        }
      }
      sent := [Packet(from, AppendResponse(nodeId, currentTerm, success, matchIndex))];
    }

    /** The commit index of a follower, bounded by its last index. */
    method FollowCommit(leaderCommit: nat)
      requires Valid()
      modifies `commitIndex
      ensures Valid()
      ensures View() == old(View()).(commit :=
                if leaderCommit <= old(commitIndex) then old(commitIndex)
                else if leaderCommit > lastIndex then lastIndex else leaderCommit)
    {
      if leaderCommit > commitIndex {
        commitIndex := leaderCommit;
        if commitIndex > lastIndex {
          commitIndex := lastIndex;
        }
      }
    }

    /** The counting loop of the commit scan. */
    method CountMatches(n: nat) returns (count: nat)
      requires Valid()
      ensures count == 1 + MatchCount(View().peers, n)
    {
      count := 1;
      for i := 0 to nodeCount
        invariant count == 1 + MatchCount(nodes[..i], n)
      {
        assert nodes[..i + 1][..i] == nodes[..i];
        if nodes[i].matchIndex >= n {
          count := count + 1;
        }
      }
    }

    method AdvanceCommit()
      requires Valid()
      modifies `commitIndex
      ensures Valid()
      ensures View() == old(View()).(commit := ScanFrom(old(View()), old(commitIndex) + 1, old(commitIndex)))
    {
      ghost var before := View();
      var n := commitIndex + 1;
      while n <= lastIndex
        invariant commitIndex < n <= lastIndex + 1
        invariant View() == before.(commit := commitIndex) && Valid()
        invariant ScanFrom(before, n, commitIndex) == ScanFrom(before, before.commit + 1, before.commit)
      {
        var count := CountMatches(n);
        var majority := nodeCount / 2 + 1;
        if count >= majority && log[n].term == currentTerm {
          commitIndex := n;
        }
        n := n + 1;
      }
    }

    method HandleAppendResponse(from: nat, term: u64, success: bool, matchIndex: u64)
      requires Valid()
      modifies this, nodes
      ensures Valid()
      ensures View() == Raft.HandleAppendResponse(old(View()), from, term, success, matchIndex)
    {
      if term > currentTerm {
        BecomeFollower(term);
        return;
      }
      if state != Leader {
        return;
      }
      var i := 0;
      while i < nodeCount && nodes[i].id != from
        invariant 0 <= i <= nodeCount
        invariant FindPeer(nodes[..nodeCount], from) >= i
      {
        i := i + 1;
      }
      if i == nodeCount {
        return;
      }
      assert i == FindPeer(nodes[..nodeCount], from);
      ghost var before := View();
      if success {
        nodes[i] := Peer(nodes[i].id, (matchIndex + 1) % U64, matchIndex);
        assert View().peers == before.peers[i := nodes[i]];
        AdvanceCommit();
      } else if nodes[i].nextIndex > 1 {
        nodes[i] := nodes[i].(nextIndex := nodes[i].nextIndex - 1);
        assert View().peers == before.peers[i := nodes[i]];
      }
    }

    /** raft_recv_message; false for an unknown message type. */
    method RecvMessage(m: Message) returns (known: bool, sent: seq<Packet>)
      requires Valid()
      modifies this, log, nodes
      ensures Valid()
      ensures Outcome(View(), sent) == Receive(old(View()), m)
      ensures RaftLog.Keeps(old(View()), View()) && lastApplied == old(lastApplied)
      ensures known == !m.Unrecognised?
    {
      RaftLog.MessageKeeps(View(), m);
      known, sent := true, [];
      match m
      case VoteRequest(from, term, li, lt) => sent := HandleVoteRequest(from, term, li, lt);
      case VoteResponse(_, term, granted) => HandleVoteResponse(term, granted);
      case AppendRequest(from, term, pi, pt, lc, ec) => sent := HandleAppendRequest(from, term, pi, pt, lc, ec);
      case AppendResponse(from, term, success, mi) => HandleAppendResponse(from, term, success, mi);
      case Unrecognised(_) => known := false;
    }

    method SendHeartbeats() returns (sent: seq<Packet>)
      requires Valid()
      ensures sent == Heartbeats(View(), View().peers)
    {
      sent := [];
      for i := 0 to nodeCount
        invariant sent == Heartbeats(View(), nodes[..i])
      {
        assert nodes[..i + 1][..i] == nodes[..i];
        if nodes[i].id != nodeId {
          var prev := (nodes[i].nextIndex + U64 - 1) % U64;
          var prevTerm := if prev <= lastIndex then log[prev].term else 0;
          sent := sent + [Packet(nodes[i].id, AppendRequest(nodeId, currentTerm, prev, prevTerm, commitIndex, 0))];
        }
      }
    }

    /** The first loop of raft_tick; `applied` lists the entries given to the apply callback. */
    method ApplyCommitted() returns (applied: seq<Entry>)
      requires Valid()
      modifies `lastApplied
      ensures Valid()
      ensures View() == old(View()).(applied := old(commitIndex))
      ensures applied == NewlyApplied(old(View()))
    {
      applied := [];
      ghost var before := View();
      while lastApplied < commitIndex
        invariant before.applied <= lastApplied <= commitIndex
        invariant applied == before.log[before.applied + 1..lastApplied + 1]
      {
        lastApplied := lastApplied + 1;
        applied := applied + [log[lastApplied]];
      }
    }

    method Tick(due: bool) returns (sent: seq<Packet>, applied: seq<Entry>)
      requires Valid()
      modifies this
      ensures Valid()
      ensures Outcome(View(), sent) == Raft.Tick(old(View()), due)
      ensures applied == NewlyApplied(old(View()))
      ensures RaftLog.Keeps(old(View()), View())
    {
      RaftLog.BookkeepingStep(View(), RaftLog.Timer(due));
      applied := ApplyCommitted();
      sent := [];
      if due {
        if state == Leader {
          sent := SendHeartbeats();
        } else {
          sent := BecomeCandidate();
        }
      }
    }

    method Submit(kind: nat, data: seq<bv8>, allocOk: bool) returns (ok: bool)
      requires Valid()
      modifies `lastIndex, log
      ensures Valid()
      ensures (View(), ok) == Raft.Submit(old(View()), kind, data, allocOk)
      ensures RaftLog.Keeps(old(View()), View())
    {
      RaftLog.BookkeepingStep(View(), RaftLog.Client(kind, data, allocOk));
      if state != Leader {
        return false;
      }
      ok := AppendLogEntry(kind, data, allocOk);
    }
  }
}
