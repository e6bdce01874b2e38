/** Clusters of RAFT nodes and their runs: the network may lose and reorder messages
    but not duplicate them, and membership is fixed. Proved over every run: at most
    one leader per term, the election restriction, and the vote discipline that
    survives the same-term vote reset of a candidate that steps down. */
module RaftElection {
  import opened Raft
  import RaftLog

  // ---- clusters and runs -----------------------------------------------------

  datatype World = World(nodes: map<nat, Node>, net: multiset<Packet>)

  datatype Action =
    | Deliver(p: Packet)
    | Lose(p: Packet)
    | Timer(a: nat, due: bool)
    | Client(a: nat, kind: nat, data: seq<bv8>, allocOk: bool)

  /** Every log is within bounds; RaftLog shows that no operation leaves this. */
  ghost predicate Good(w: World) {
    forall a :: a in w.nodes ==> WellFormed(w.nodes[a])
  }

  /** A node's list of cluster members: each member listed exactly once, itself included. */
  ghost predicate PeersOk(members: set<nat>, s: Node) {
    && |s.peers| == |members|
    && (forall i :: 0 <= i < |s.peers| ==> s.peers[i].id in members)
    && (forall i, j :: 0 <= i < j < |s.peers| ==> s.peers[i].id != s.peers[j].id)
  }

  ghost predicate Init(members: set<nat>, w: World) {
    && w.nodes.Keys == members
    && w.net == multiset{}
    && (forall a :: a in members ==>
          && a < 0x8000_0000
          && w.nodes[a] == InitialNode(a, seq(|w.nodes[a].peers|, i requires 0 <= i < |w.nodes[a].peers| => w.nodes[a].peers[i].id))
          && PeersOk(members, w.nodes[a])
          && |w.nodes[a].peers| <= MAX_NODES)
  }

  ghost predicate Next(w: World, act: Action, w': World) {
    && Good(w)
    && match act
       case Deliver(p) =>
         && p in w.net
         && p.to in w.nodes
         && var o := Receive(w.nodes[p.to], p.msg);
            w' == World(w.nodes[p.to := o.node], w.net - multiset{p} + multiset(o.sent))
       case Lose(p) =>
         p in w.net && w' == w.(net := w.net - multiset{p})
       case Timer(a, due) =>
         && a in w.nodes
         // the 64-bit term counter of this node has not run out
         && w.nodes[a].term + 1 < U64
         && var o := Tick(w.nodes[a], due);
            w' == World(w.nodes[a := o.node], w.net + multiset(o.sent))
       case Client(a, kind, data, allocOk) =>
         && a in w.nodes
         && w' == w.(nodes := w.nodes[a := Submit(w.nodes[a], kind, data, allocOk).0])
  }

  ghost predicate Steps(w: World, w': World) {
    exists act :: Next(w, act, w')
  }

  ghost predicate IsRun(members: set<nat>, run: seq<World>) {
    && |run| > 0
    && Init(members, run[0])
    && forall i :: 0 <= i < |run| - 1 ==> Steps(run[i], run[i + 1])
  }

  // ---- history: votes granted, votes counted, elections won ------------------------

  /** `step` is the position in the run of the state the voter's grant produced. */
  datatype Grant = Grant(voter: nat, candidate: nat, term: nat, step: nat, candTerm: nat, candIndex: nat)
  datatype Election = Election(leader: nat, term: nat)
  datatype History = History(grants: set<Grant>, counted: set<Grant>, elections: set<Election>)

  ghost function Voters(gs: set<Grant>, c: nat, t: nat): set<nat> {
    set g | g in gs && g.candidate == c && g.term == t :: g.voter
  }

  ghost predicate NodeInv(members: set<nat>, a: nat, s: Node) {
    && WellFormed(s)
    && s.id == a < 0x8000_0000
    && PeersOk(members, s)
    && s.votedFor >= -1
    && (s.role != Follower <==> s.votedFor == a)
  }

  ghost predicate NodesInv(members: set<nat>, w: World) {
    && w.nodes.Keys == members
    && forall a :: a in members ==> NodeInv(members, a, w.nodes[a])
  }

  ghost predicate VotesInv(w: World, h: History) {
    forall a :: a in w.nodes && w.nodes[a].role == Candidate ==>
                  w.nodes[a].votes == 1 + |Voters(h.counted, a, w.nodes[a].term)|
  }

  /** Node v's vote in term t is with c. */
  ghost predicate HasVote(w: World, v: nat, c: nat, t: nat) {
    v in w.nodes && w.nodes[v].votedFor == c && w.nodes[v].term == t
  }

  /** What a recorded grant says about the run: at `step` the vote was new. */
  ghost predicate GrantOk(members: set<nat>, run: seq<World>, g: Grant)
    requires |run| > 0
  {
    var w := run[|run| - 1];
    && g.voter in members && g.candidate in members && g.voter != g.candidate
    && members <= w.nodes.Keys
    && 0 < g.step < |run|
    && g.voter in run[g.step].nodes
    && !HasVote(run[g.step - 1], g.voter, g.candidate, g.term)
    && (var v := run[g.step].nodes[g.voter];
        && v.votedFor == g.candidate && v.term == g.term
        && UpToDate(g.candTerm, g.candIndex, LastLogTerm(v), LastIndex(v)))
    && g.term <= w.nodes[g.voter].term
    && (g.term == w.nodes[g.voter].term ==> w.nodes[g.voter].role == Follower && w.nodes[g.voter].votedFor == g.candidate)
    && g.term <= w.nodes[g.candidate].term
    && (g.term == w.nodes[g.candidate].term && w.nodes[g.candidate].role == Candidate ==>
          && g.candTerm == LastLogTerm(w.nodes[g.candidate]) && g.candIndex == LastIndex(w.nodes[g.candidate]))
  }

  ghost predicate GrantsInv(members: set<nat>, run: seq<World>, h: History)
    requires |run| > 0
  {
    && h.counted <= h.grants
    && (forall g :: g in h.grants ==> GrantOk(members, run, g))
    && (forall g, g' :: g in h.grants && g' in h.grants && g.voter == g'.voter && g.term == g'.term ==> g == g')
  }

  /** A follower that has voted did so by a recorded grant. */
  ghost predicate VotedInv(w: World, h: History) {
    forall a :: a in w.nodes && w.nodes[a].role == Follower && w.nodes[a].votedFor != -1 ==>
                  exists g :: g in h.grants && g.voter == a && g.candidate == w.nodes[a].votedFor && g.term == w.nodes[a].term
  }

  ghost predicate ReqOk(members: set<nat>, w: World, h: History, p: Packet)
    requires p.msg.VoteRequest?
  {
    var c := p.msg.from;
    && c in members && p.to in members && p.to != c && c in w.nodes
    && w.net[p] == 1
    && p.msg.term <= w.nodes[c].term
    && (forall g :: g in h.grants ==> !(g.voter == p.to && g.candidate == c && g.term == p.msg.term))
    && (p.msg.term == w.nodes[c].term && w.nodes[c].role == Candidate ==>
          && p.msg.lastLogTerm == LastLogTerm(w.nodes[c]) && p.msg.lastLogIndex == LastIndex(w.nodes[c]))
  }

  /** Two packets asking the same voter for a vote for the same candidate and term. */
  ghost predicate SameRequest(p: Packet, q: Packet) {
    && p.msg.VoteRequest? && q.msg.VoteRequest?
    && p.to == q.to && p.msg.from == q.msg.from && p.msg.term == q.msg.term
  }

  ghost predicate RequestsInv(members: set<nat>, w: World, h: History) {
    && (forall p :: p in w.net && p.msg.VoteRequest? ==> ReqOk(members, w, h, p))
    && (forall p, q :: p in w.net && q in w.net && SameRequest(p, q) ==> p == q)
  }

  ghost predicate IsGrantedResponse(p: Packet) {
    p.msg.VoteResponse? && p.msg.granted
  }

  /** A granted response in flight stands for exactly one grant, not yet counted. */
  ghost predicate ResponsesInv(w: World, h: History) {
    forall p :: p in w.net && IsGrantedResponse(p) ==>
      && w.net[p] == 1
      && exists g :: g in h.grants - h.counted && g.voter == p.msg.from && g.candidate == p.to && g.term == p.msg.term
  }

  ghost predicate ElectionOk(members: set<nat>, w: World, h: History, e: Election) {
    && e.leader in members && e.leader in w.nodes
    && e.term <= w.nodes[e.leader].term
    && (e.term == w.nodes[e.leader].term ==> w.nodes[e.leader].role == Leader)
    && |Voters(h.counted, e.leader, e.term)| + 1 >= |members| / 2 + 1
    && forall g :: g in h.grants ==> !(g.voter == e.leader && g.term == e.term)
  }

  ghost predicate ElectionsInv(members: set<nat>, run: seq<World>, h: History)
    requires |run| > 0
  {
    && (forall e :: e in h.elections ==> ElectionOk(members, run[|run| - 1], h, e))
    && (forall k, a :: 0 <= k < |run| && a in run[k].nodes && run[k].nodes[a].role == Leader ==>
          Election(a, run[k].nodes[a].term) in h.elections)
  }

  ghost predicate Inv(members: set<nat>, run: seq<World>, h: History) {
    && |run| > 0
    && NodesInv(members, run[|run| - 1])
    && VotesInv(run[|run| - 1], h)
    && GrantsInv(members, run, h)
    && VotedInv(run[|run| - 1], h)
    && RequestsInv(members, run[|run| - 1], h)
    && ResponsesInv(run[|run| - 1], h)
    && ElectionsInv(members, run, h)
  }

  // ---- small facts ---------------------------------------------------------------

  lemma SubsetCard<T>(a: set<T>, b: set<T>)
    requires a <= b
    ensures |a| <= |b|
  {
    assert b == a + (b - a);
  }

  /** Two strict majorities of one set meet. */
  lemma QuorumsMeet(members: set<nat>, a: set<nat>, b: set<nat>) returns (v: nat)
    requires a <= members && b <= members
    requires 2 * |a| > |members| && 2 * |b| > |members|
    ensures v in a && v in b
  {
    SubsetCard(a + b, members);
    assert |a + b| + |a * b| == |a| + |b|;
    assert a * b != {};
    v :| v in a * b;
  }

  lemma {:induction false} BroadcastFacts(peers: seq<Peer>, self: nat, msg: Message)
    requires forall i, j :: 0 <= i < j < |peers| ==> peers[i].id != peers[j].id
    ensures forall p :: p in Broadcast(peers, self, msg) ==>
              p.msg == msg && p.to != self && exists i :: 0 <= i < |peers| && peers[i].id == p.to
    ensures forall p :: multiset(Broadcast(peers, self, msg))[p] <= 1
  {
    if peers != [] {
      var init := peers[..|peers| - 1];
      var last := peers[|peers| - 1].id;
      BroadcastFacts(init, self, msg);
      if last != self {
        var b := Broadcast(init, self, msg);
        assert Packet(last, msg) !in b;
        assert Packet(last, msg) !in multiset(b);
        assert Broadcast(peers, self, msg) == b + [Packet(last, msg)];
        forall p ensures multiset(Broadcast(peers, self, msg))[p] <= 1 {
          assert multiset(b + [Packet(last, msg)])[p] == multiset(b)[p] + multiset([Packet(last, msg)])[p];
        }
      }
    }
  }

  lemma {:induction false} HeartbeatsCarryNoVotes(s: Node, peers: seq<Peer>)
    ensures forall p :: p in Heartbeats(s, peers) ==> p.msg.AppendRequest?
  {
    if peers != [] {
      HeartbeatsCarryNoVotes(s, peers[..|peers| - 1]);
    }
  }

  // ---- what every step does to a node ---------------------------------------------

  ghost predicate SameLast(s: Node, s': Node) {
    && LastLogTerm(s') == LastLogTerm(s) && LastIndex(s') == LastIndex(s)
  }

  /** Terms never fall; within a term a vote cast for another node stands, a leader
      stays leader, a follower stays follower, and nobody becomes candidate. */
  ghost predicate Advances(s: Node, s': Node) {
    && s'.term >= s.term
    && (s'.term == s.term ==>
          && (s.role == Follower ==> s'.role == Follower && (s.votedFor != -1 ==> s'.votedFor == s.votedFor))
          && (s.role == Leader ==> s'.role == Leader)
          && (s'.role == Candidate ==> s.role == Candidate && SameLast(s, s')))
  }

  ghost predicate AllAdvance(members: set<nat>, w: World, w': World) {
    && w.nodes.Keys == members && w'.nodes.Keys == members
    && forall b :: b in members ==> Advances(w.nodes[b], w'.nodes[b])
  }

  lemma KeepGrants(members: set<nat>, run: seq<World>, h: History, w': World)
    requires |run| > 0 && GrantsInv(members, run, h)
    requires AllAdvance(members, run[|run| - 1], w')
    ensures GrantsInv(members, run + [w'], h)
  {
    var run' := run + [w'];
    forall g | g in h.grants ensures GrantOk(members, run', g) {
      assert GrantOk(members, run, g);
      assert run'[g.step] == run[g.step] && run'[g.step - 1] == run[g.step - 1];
    }
  }

  lemma KeepElections(members: set<nat>, run: seq<World>, h: History, w': World)
    requires |run| > 0 && ElectionsInv(members, run, h)
    requires AllAdvance(members, run[|run| - 1], w')
    requires forall b :: b in members && w'.nodes[b].role == Leader ==>
               run[|run| - 1].nodes[b].role == Leader && run[|run| - 1].nodes[b].term == w'.nodes[b].term
    ensures ElectionsInv(members, run + [w'], h)
  {
    var run' := run + [w'];
    forall e | e in h.elections ensures ElectionOk(members, w', h, e) {
      assert ElectionOk(members, run[|run| - 1], h, e);
    }
    forall k, b | 0 <= k < |run'| && b in run'[k].nodes && run'[k].nodes[b].role == Leader
      ensures Election(b, run'[k].nodes[b].term) in h.elections
    {
      if k == |run| {
        assert run[|run| - 1].nodes[b].role == Leader;
      } else {
        assert run'[k] == run[k];
      }
    }
  }

  lemma KeepRequest(members: set<nat>, w: World, h: History, w': World, p: Packet)
    requires p.msg.VoteRequest? && ReqOk(members, w, h, p)
    requires AllAdvance(members, w, w')
    requires w'.net[p] == 1
    ensures ReqOk(members, w', h, p)
  {
  }

  ghost predicate VoteTrafficShrinks(net: multiset<Packet>, net': multiset<Packet>) {
    forall p: Packet :: p.msg.VoteRequest? || IsGrantedResponse(p) ==> net'[p] <= net[p]
  }

  lemma KeepTraffic(members: set<nat>, w: World, h: History, w': World)
    requires RequestsInv(members, w, h) && ResponsesInv(w, h)
    requires AllAdvance(members, w, w')
    requires VoteTrafficShrinks(w.net, w'.net)
    ensures RequestsInv(members, w', h) && ResponsesInv(w', h)
  {
    forall p | p in w'.net && p.msg.VoteRequest? ensures ReqOk(members, w', h, p) {
      assert p in w.net && ReqOk(members, w, h, p);
      KeepRequest(members, w, h, w', p);
    }
    forall p | p in w'.net && IsGrantedResponse(p) ensures w'.net[p] == 1 && p in w.net {
    }
    forall p, q | p in w'.net && q in w'.net && SameRequest(p, q) ensures p == q {
      assert p in w.net && q in w.net;
    }
  }

  // ---- steps that grant no vote, count no vote and start no election ------------------

  ghost predicate Quiet(s: Node, s': Node) {
    && s'.role == s.role && s'.term == s.term && s'.votedFor == s.votedFor && s'.votes == s.votes
    && (s.role == Candidate ==> SameLast(s, s'))
  }

  ghost predicate StepsDown(s: Node, s': Node) {
    && s'.role == Follower && s'.votedFor == -1
    && (s'.term > s.term || (s'.term == s.term && s.role == Candidate))
  }

  /** Only node a changed. */
  ghost predicate OnlyNode(members: set<nat>, w: World, w': World, a: nat) {
    && a in members
    && w.nodes.Keys == members && w'.nodes.Keys == members
    && forall b :: b in members && b != a ==> w'.nodes[b] == w.nodes[b]
  }

  lemma OneAdvances(members: set<nat>, w: World, w': World, a: nat)
    requires NodesInv(members, w)
    requires OnlyNode(members, w, w', a)
    requires Advances(w.nodes[a], w'.nodes[a])
    requires NodeInv(members, a, w'.nodes[a])
    ensures AllAdvance(members, w, w') && NodesInv(members, w')
  {
    forall b | b in members ensures Advances(w.nodes[b], w'.nodes[b]) {
      assert NodeInv(members, b, w.nodes[b]);
    }
  }

  lemma BenignVotes(members: set<nat>, w: World, h: History, w': World, a: nat)
    requires VotesInv(w, h) && VotedInv(w, h)
    requires OnlyNode(members, w, w', a)
    requires Quiet(w.nodes[a], w'.nodes[a]) || StepsDown(w.nodes[a], w'.nodes[a])
    ensures VotesInv(w', h) && VotedInv(w', h)
  {
  }

  lemma Assemble(members: set<nat>, run: seq<World>, h: History, w': World)
    requires |run| > 0
    requires NodesInv(members, w') && VotesInv(w', h) && VotedInv(w', h)
    requires GrantsInv(members, run + [w'], h)
    requires RequestsInv(members, w', h) && ResponsesInv(w', h)
    requires ElectionsInv(members, run + [w'], h)
    ensures Inv(members, run + [w'], h)
  {
    var run' := run + [w'];
    assert run'[|run'| - 1] == w';
  }

  lemma BenignStep(members: set<nat>, run: seq<World>, h: History, w': World, a: nat)
    requires Inv(members, run, h)
    requires OnlyNode(members, run[|run| - 1], w', a)
    requires NodeInv(members, a, w'.nodes[a])
    requires Quiet(run[|run| - 1].nodes[a], w'.nodes[a]) || StepsDown(run[|run| - 1].nodes[a], w'.nodes[a])
    requires VoteTrafficShrinks(run[|run| - 1].net, w'.net)
    ensures Inv(members, run + [w'], h)
    ensures AllAdvance(members, run[|run| - 1], w')
  {
    hide GrantOk, ReqOk, ElectionOk, NodeInv, SameRequest, UpToDate, PeersOk, WellFormed;
    var w := run[|run| - 1];
    OneAdvances(members, w, w', a);
    BenignVotes(members, w, h, w', a);
    KeepGrants(members, run, h, w');
    KeepElections(members, run, h, w');
    KeepTraffic(members, w, h, w');
    Assemble(members, run, h, w');
  }

  // ---- an election timeout --------------------------------------------------------

  lemma NoVotersYet(members: set<nat>, run: seq<World>, h: History, a: nat, t: nat)
    requires |run| > 0 && GrantsInv(members, run, h)
    requires a in run[|run| - 1].nodes && t > run[|run| - 1].nodes[a].term
    ensures forall g :: g in h.grants ==> !(g.candidate == a && g.term == t)
    ensures Voters(h.counted, a, t) == {}
  {
    forall g | g in h.grants ensures !(g.candidate == a && g.term == t) {
      assert GrantOk(members, run, g);
    }
  }

  lemma TimeoutTraffic(members: set<nat>, w: World, h: History, w': World, a: nat, c: Node)
    requires RequestsInv(members, w, h) && ResponsesInv(w, h)
    requires AllAdvance(members, w, w')
    requires a in members && w'.nodes[a] == c && c.id == a && c.role == Candidate && PeersOk(members, c)
    requires w.nodes[a].term < c.term
    requires forall g :: g in h.grants ==> !(g.candidate == a && g.term == c.term)
    requires w'.net == w.net + multiset(Broadcast(c.peers, a, VoteRequest(a, c.term, LastIndex(c), LastLogTerm(c))))
    ensures RequestsInv(members, w', h) && ResponsesInv(w', h)
  {
    var msg := VoteRequest(a, c.term, LastIndex(c), LastLogTerm(c));
    var sent := Broadcast(c.peers, a, msg);
    BroadcastFacts(c.peers, a, msg);
    assert forall p :: p in sent <==> p in multiset(sent);
    forall p | p in w'.net && p.msg.VoteRequest? ensures ReqOk(members, w', h, p) {
      if p in w.net {
        assert ReqOk(members, w, h, p);
        assert p !in sent;
        KeepRequest(members, w, h, w', p);
      } else {
        assert p in sent;
      }
    }
    forall p, q | p in w'.net && q in w'.net && SameRequest(p, q) ensures p == q {
      assert p in w.net ==> ReqOk(members, w, h, p);
      assert q in w.net ==> ReqOk(members, w, h, q);
    }
    forall p | p in w'.net && IsGrantedResponse(p) ensures p in w.net && w'.net[p] == w.net[p] {
      assert p !in sent;
    }
  }

  lemma CandidateFacts(members: set<nat>, a: nat, s: Node)
    requires NodeInv(members, a, s) && s.role != Leader && s.term + 1 < U64
    ensures var o := BecomeCandidate(s.(applied := s.commit)); var c := o.node;
            && NodeInv(members, a, c) && Advances(s, c) && c.role == Candidate && c.term == s.term + 1 && c.votes == 1
            && c.id == a && PeersOk(members, c)
            && o.sent == Broadcast(c.peers, a, VoteRequest(a, c.term, LastIndex(c), LastLogTerm(c)))
  {
    hide Broadcast;
  }

  lemma TimeoutStep(members: set<nat>, run: seq<World>, h: History, w': World, a: nat)
    requires Inv(members, run, h)
    requires OnlyNode(members, run[|run| - 1], w', a)
    requires var w := run[|run| - 1];
             var s := w.nodes[a].(applied := w.nodes[a].commit);
             && s.role != Leader && s.term + 1 < U64
             && w'.nodes[a] == BecomeCandidate(s).node
             && w'.net == w.net + multiset(BecomeCandidate(s).sent)
    ensures Inv(members, run + [w'], h)
    ensures AllAdvance(members, run[|run| - 1], w')
  {
    hide GrantsInv, ElectionsInv, RequestsInv, ResponsesInv, NodeInv, BecomeCandidate;
    var w := run[|run| - 1];
    CandidateFacts(members, a, w.nodes[a]);
    OneAdvances(members, w, w', a);
    NoVotersYet(members, run, h, a, w'.nodes[a].term);
    TimeoutTraffic(members, w, h, w', a, w'.nodes[a]);
    KeepGrants(members, run, h, w');
    KeepElections(members, run, h, w');
    Assemble(members, run, h, w');
  }

  // ---- a vote granted ---------------------------------------------------------------

  /** What the voter looks like when HandleVoteRequest grants a first vote in term t. */
  ghost predicate CastsVote(s: Node, s': Node, c: nat, t: nat) {
    && s'.role == Follower && s'.votedFor == c && s'.term == t && SameLast(s, s')
    && (t > s.term || (t == s.term && s.role == Follower && s.votedFor == -1))
  }

  /** No earlier grant, and no election, by this voter in this term. */
  lemma FirstVote(members: set<nat>, run: seq<World>, h: History, v: nat, s': Node, c: nat, t: nat)
    requires |run| > 0 && v in run[|run| - 1].nodes
    requires GrantsInv(members, run, h) && ElectionsInv(members, run, h)
    requires CastsVote(run[|run| - 1].nodes[v], s', c, t)
    ensures forall g :: g in h.grants ==> !(g.voter == v && g.term == t)
    ensures Election(v, t) !in h.elections
  {
    forall g | g in h.grants ensures !(g.voter == v && g.term == t) {
      assert GrantOk(members, run, g);
    }
    assert Election(v, t) in h.elections ==> ElectionOk(members, run[|run| - 1], h, Election(v, t));
  }

  lemma NewGrantOk(members: set<nat>, run: seq<World>, h: History, w': World, p: Packet, g: Grant)
    requires |run| > 0
    requires p.msg.VoteRequest? && ReqOk(members, run[|run| - 1], h, p)
    requires OnlyNode(members, run[|run| - 1], w', p.to) && AllAdvance(members, run[|run| - 1], w')
    requires CastsVote(run[|run| - 1].nodes[p.to], w'.nodes[p.to], p.msg.from, p.msg.term)
    requires UpToDate(p.msg.lastLogTerm, p.msg.lastLogIndex, LastLogTerm(w'.nodes[p.to]), LastIndex(w'.nodes[p.to]))
    requires g == Grant(p.to, p.msg.from, p.msg.term, |run|, p.msg.lastLogTerm, p.msg.lastLogIndex)
    ensures GrantOk(members, run + [w'], g)
  {
    hide UpToDate, LastLogTerm, LastIndex;
    assert (run + [w'])[|run| - 1] == run[|run| - 1];
  }

  lemma GrantChangesNoLeader(members: set<nat>, run: seq<World>, w': World, p: Packet)
    requires |run| > 0 && p.msg.VoteRequest?
    requires OnlyNode(members, run[|run| - 1], w', p.to) && AllAdvance(members, run[|run| - 1], w') && p.to in members
    requires CastsVote(run[|run| - 1].nodes[p.to], w'.nodes[p.to], p.msg.from, p.msg.term)
    ensures forall b :: b in members && w'.nodes[b].role == Leader ==>
              run[|run| - 1].nodes[b].role == Leader && run[|run| - 1].nodes[b].term == w'.nodes[b].term
  {
  }

  lemma GrantRecord(members: set<nat>, run: seq<World>, h: History, w': World, p: Packet, g: Grant, h': History)
    requires |run| > 0 && GrantsInv(members, run, h) && ElectionsInv(members, run, h)
    requires p.msg.VoteRequest? && ReqOk(members, run[|run| - 1], h, p)
    requires OnlyNode(members, run[|run| - 1], w', p.to) && AllAdvance(members, run[|run| - 1], w')
    requires CastsVote(run[|run| - 1].nodes[p.to], w'.nodes[p.to], p.msg.from, p.msg.term)
    requires UpToDate(p.msg.lastLogTerm, p.msg.lastLogIndex, LastLogTerm(w'.nodes[p.to]), LastIndex(w'.nodes[p.to]))
    requires g == Grant(p.to, p.msg.from, p.msg.term, |run|, p.msg.lastLogTerm, p.msg.lastLogIndex)
    requires h' == h.(grants := h.grants + {g})
    ensures GrantsInv(members, run + [w'], h') && ElectionsInv(members, run + [w'], h')
    ensures g !in h.grants
  {
    hide GrantOk, ElectionOk, ReqOk, UpToDate, LastLogTerm, LastIndex;
    NewGrantOk(members, run, h, w', p, g);
    GrantChangesNoLeader(members, run, w', p);
    FirstVote(members, run, h, p.to, w'.nodes[p.to], p.msg.from, p.msg.term);
    KeepGrants(members, run, h, w');
    KeepElections(members, run, h, w');
    GrantElections(members, run + [w'], h, g, h');
  }

  lemma GrantElections(members: set<nat>, run: seq<World>, h: History, g: Grant, h': History)
    requires |run| > 0 && ElectionsInv(members, run, h)
    requires Election(g.voter, g.term) !in h.elections
    requires h' == h.(grants := h.grants + {g})
    ensures ElectionsInv(members, run, h')
  {
    forall e | e in h.elections ensures ElectionOk(members, run[|run| - 1], h', e) {
      assert ElectionOk(members, run[|run| - 1], h, e);
      assert e == Election(e.leader, e.term);
    }
  }

  lemma GrantTraffic(members: set<nat>, w: World, h: History, w': World, p: Packet, g: Grant, h': History)
    requires RequestsInv(members, w, h) && ResponsesInv(w, h) && h.counted <= h.grants
    requires AllAdvance(members, w, w')
    requires p in w.net && p.msg.VoteRequest?
    requires g.voter == p.to && g.candidate == p.msg.from && g.term == p.msg.term && g !in h.grants
    requires h' == h.(grants := h.grants + {g})
    requires w'.net == w.net - multiset{p} + multiset([Packet(p.msg.from, VoteResponse(p.to, p.msg.term, true))])
    ensures RequestsInv(members, w', h') && ResponsesInv(w', h')
  {
    var r := Packet(p.msg.from, VoteResponse(p.to, p.msg.term, true));
    assert ReqOk(members, w, h, p);
    forall q | q in w'.net && q.msg.VoteRequest? ensures ReqOk(members, w', h', q) {
      assert q in w.net && q != p;
      assert ReqOk(members, w, h, q);
      KeepRequest(members, w, h, w', q);
      assert !SameRequest(p, q);
    }
    assert r !in w.net;
    forall q | q in w'.net && IsGrantedResponse(q) && q != r ensures q in w.net && w'.net[q] == w.net[q] {
    }
  }

  lemma GrantStep(members: set<nat>, run: seq<World>, h: History, w': World, p: Packet) returns (h': History)
    requires Inv(members, run, h)
    requires OnlyNode(members, run[|run| - 1], w', p.to)
    requires p in run[|run| - 1].net && p.msg.VoteRequest?
    requires NodeInv(members, p.to, w'.nodes[p.to])
    requires CastsVote(run[|run| - 1].nodes[p.to], w'.nodes[p.to], p.msg.from, p.msg.term)
    requires UpToDate(p.msg.lastLogTerm, p.msg.lastLogIndex, LastLogTerm(w'.nodes[p.to]), LastIndex(w'.nodes[p.to]))
    requires w'.net == run[|run| - 1].net - multiset{p} + multiset([Packet(p.msg.from, VoteResponse(p.to, p.msg.term, true))])
    ensures Inv(members, run + [w'], h')
    ensures AllAdvance(members, run[|run| - 1], w')
  {
    hide GrantOk, ReqOk, ElectionOk, SameRequest, UpToDate, PeersOk, WellFormed;
    var w := run[|run| - 1];
    assert ReqOk(members, w, h, p);
    var g := Grant(p.to, p.msg.from, p.msg.term, |run|, p.msg.lastLogTerm, p.msg.lastLogIndex);
    h' := h.(grants := h.grants + {g});
    OneAdvances(members, w, w', p.to);
    GrantRecord(members, run, h, w', p, g, h');
    GrantTraffic(members, w, h, w', p, g, h');
    GrantVotes(members, w, h, w', p.to, g, h');
    Assemble(members, run, h', w');
  }

  lemma GrantVotes(members: set<nat>, w: World, h: History, w': World, v: nat, g: Grant, h': History)
    requires VotesInv(w, h) && VotedInv(w, h)
    requires OnlyNode(members, w, w', v)
    requires h' == h.(grants := h.grants + {g})
    requires w'.nodes[v].role == Follower
    requires g.voter == v && g.candidate == w'.nodes[v].votedFor && g.term == w'.nodes[v].term
    ensures VotesInv(w', h') && VotedInv(w', h')
  {
    assert g in h'.grants;
  }

  // ---- a vote counted ---------------------------------------------------------------

  lemma CountedOnce(members: set<nat>, run: seq<World>, h: History, g: Grant, h': History)
    requires |run| > 0 && GrantsInv(members, run, h)
    requires g in h.grants - h.counted
    requires h'.counted == h.counted + {g}
    ensures |Voters(h'.counted, g.candidate, g.term)| == |Voters(h.counted, g.candidate, g.term)| + 1
  {
    assert g.voter !in Voters(h.counted, g.candidate, g.term);
    assert Voters(h'.counted, g.candidate, g.term) == Voters(h.counted, g.candidate, g.term) + {g.voter};
  }

  lemma CountTraffic(members: set<nat>, w: World, h: History, w': World, p: Packet, g: Grant, h': History)
    requires RequestsInv(members, w, h) && ResponsesInv(w, h)
    requires AllAdvance(members, w, w')
    requires p in w.net && IsGrantedResponse(p)
    requires g.voter == p.msg.from && g.candidate == p.to && g.term == p.msg.term
    requires h'.grants == h.grants && h'.counted == h.counted + {g}
    requires w'.net == w.net - multiset{p}
    ensures RequestsInv(members, w', h') && ResponsesInv(w', h')
  {
    KeepTraffic(members, w, h, w');
    forall q | q in w'.net && q.msg.VoteRequest? ensures ReqOk(members, w', h', q) {
      assert ReqOk(members, w', h, q);
    }
    forall q | q in w'.net && IsGrantedResponse(q)
      ensures exists g' :: g' in h'.grants - h'.counted && g'.voter == q.msg.from && g'.candidate == q.to && g'.term == q.msg.term
    {
      assert q in w.net && q != p;
      var g' :| g' in h.grants - h.counted && g'.voter == q.msg.from && g'.candidate == q.to && g'.term == q.msg.term;
      assert g' in h'.grants - h'.counted;
    }
  }

  /** The candidate after one more vote: still candidate, or leader with a majority. */
  ghost predicate CountsVote(members: set<nat>, s: Node, s': Node) {
    && s.role == Candidate && s'.term == s.term && s'.votedFor == s.votedFor
    && (|| (s'.role == Candidate && s'.votes == s.votes + 1 && SameLast(s, s'))
        || (s'.role == Leader && s.votes + 1 >= |members| / 2 + 1))
  }

  lemma OtherVoters(gs: set<Grant>, g: Grant, c: nat, t: nat)
    requires g.candidate != c || g.term != t
    ensures Voters(gs + {g}, c, t) == Voters(gs, c, t)
  {
  }

  lemma CountElection(members: set<nat>, w: World, h: History, w': World, g: Grant, h': History, e: Election)
    requires ElectionOk(members, w, h, e)
    requires AllAdvance(members, w, w')
    requires h'.grants == h.grants && h'.counted == h.counted + {g}
    ensures ElectionOk(members, w', h', e)
  {
    SubsetCard(Voters(h.counted, e.leader, e.term), Voters(h'.counted, e.leader, e.term));
  }

  /** The winner holds a majority, and voted for nobody else in the term it wins. */
  lemma Wins(members: set<nat>, run: seq<World>, h: History, w': World, a: nat, g: Grant, h': History)
    requires |run| > 0 && GrantsInv(members, run, h) && VotesInv(run[|run| - 1], h)
    requires a in members && a in run[|run| - 1].nodes && a in w'.nodes
    requires CountsVote(members, run[|run| - 1].nodes[a], w'.nodes[a]) && w'.nodes[a].role == Leader
    requires g in h.grants - h.counted && g.candidate == a && g.term == w'.nodes[a].term
    requires h'.grants == h.grants && h'.counted == h.counted + {g}
    ensures ElectionOk(members, w', h', Election(a, w'.nodes[a].term))
  {
    CountedOnce(members, run, h, g, h');
    forall g' | g' in h.grants ensures !(g'.voter == a && g'.term == w'.nodes[a].term) {
      assert GrantOk(members, run, g');
    }
  }

  lemma CountElections(members: set<nat>, run: seq<World>, h: History, w': World, a: nat, g: Grant, h': History)
    requires |run| > 0 && GrantsInv(members, run, h) && ElectionsInv(members, run, h) && VotesInv(run[|run| - 1], h)
    requires OnlyNode(members, run[|run| - 1], w', a) && AllAdvance(members, run[|run| - 1], w')
    requires CountsVote(members, run[|run| - 1].nodes[a], w'.nodes[a])
    requires g in h.grants - h.counted && g.candidate == a && g.term == w'.nodes[a].term
    requires h' == History(h.grants, h.counted + {g},
                           if w'.nodes[a].role == Leader then h.elections + {Election(a, w'.nodes[a].term)} else h.elections)
    ensures ElectionsInv(members, run + [w'], h')
  {
    hide GrantOk, ElectionOk, VotesInv, Voters;
    var w := run[|run| - 1];
    var run' := run + [w'];
    forall e | e in h.elections ensures ElectionOk(members, w', h', e) {
      CountElection(members, w, h, w', g, h', e);
    }
    if w'.nodes[a].role == Leader {
      Wins(members, run, h, w', a, g, h');
    }
    forall k, b | 0 <= k < |run'| && b in run'[k].nodes && run'[k].nodes[b].role == Leader
      ensures Election(b, run'[k].nodes[b].term) in h'.elections
    {
      if k < |run| {
        assert run'[k] == run[k];
      } else if b != a {
        assert run[|run| - 1].nodes[b].role == Leader;
      }
    }
  }

  lemma CountVotes(members: set<nat>, run: seq<World>, h: History, w': World, a: nat, g: Grant, h': History)
    requires |run| > 0 && GrantsInv(members, run, h) && VotesInv(run[|run| - 1], h) && VotedInv(run[|run| - 1], h)
    requires OnlyNode(members, run[|run| - 1], w', a)
    requires CountsVote(members, run[|run| - 1].nodes[a], w'.nodes[a])
    requires g in h.grants - h.counted && g.candidate == a && g.term == w'.nodes[a].term
    requires h'.grants == h.grants && h'.counted == h.counted + {g}
    ensures VotesInv(w', h') && VotedInv(w', h')
  {
    CountedOnce(members, run, h, g, h');
    forall b | b in members && b != a
      ensures Voters(h'.counted, b, w'.nodes[b].term) == Voters(h.counted, b, w'.nodes[b].term)
    {
      OtherVoters(h.counted, g, b, w'.nodes[b].term);
    }
  }

  lemma PendingGrant(w: World, h: History, p: Packet) returns (g: Grant)
    requires ResponsesInv(w, h) && p in w.net && IsGrantedResponse(p)
    ensures g in h.grants - h.counted && g.voter == p.msg.from && g.candidate == p.to && g.term == p.msg.term
  {
    g :| g in h.grants - h.counted && g.voter == p.msg.from && g.candidate == p.to && g.term == p.msg.term;
  }

  lemma CountStep(members: set<nat>, run: seq<World>, h: History, w': World, p: Packet) returns (h': History)
    requires Inv(members, run, h)
    requires OnlyNode(members, run[|run| - 1], w', p.to)
    requires p in run[|run| - 1].net && IsGrantedResponse(p) && p.msg.term == w'.nodes[p.to].term
    requires NodeInv(members, p.to, w'.nodes[p.to])
    requires CountsVote(members, run[|run| - 1].nodes[p.to], w'.nodes[p.to])
    requires w'.net == run[|run| - 1].net - multiset{p}
    ensures Inv(members, run + [w'], h')
    ensures AllAdvance(members, run[|run| - 1], w')
  {
    hide GrantOk, ReqOk, ElectionOk, GrantsInv, RequestsInv, ResponsesInv, ElectionsInv, VotesInv, VotedInv, NodeInv;
    var w := run[|run| - 1];
    var a := p.to;
    var g := PendingGrant(w, h, p);
    h' := History(h.grants, h.counted + {g},
                  if w'.nodes[a].role == Leader then h.elections + {Election(a, w'.nodes[a].term)} else h.elections);
    OneAdvances(members, w, w', a);
    KeepGrants(members, run, h, w');
    CountTraffic(members, w, h, w', p, g, h');
    CountVotes(members, run, h, w', a, g, h');
    CountElections(members, run, h, w', a, g, h');
    CountGrants(members, run + [w'], h, g, h');
    Assemble(members, run, h', w');
  }

  lemma CountGrants(members: set<nat>, run: seq<World>, h: History, g: Grant, h': History)
    requires |run| > 0 && GrantsInv(members, run, h) && g in h.grants
    requires h'.grants == h.grants && h'.counted == h.counted + {g}
    ensures GrantsInv(members, run, h')
  {
  }

  // ---- the handlers, as seen by an election --------------------------------------------

  lemma VoteRequestEffect(members: set<nat>, a: nat, s: Node, m: Message)
    requires NodeInv(members, a, s) && m.VoteRequest? && m.from != a && m.from < 0x8000_0000
    ensures var o := Receive(s, m);
            && NodeInv(members, a, o.node)
            && |o.sent| == 1 && o.sent[0].msg.VoteResponse?
            && o.sent[0] == Packet(m.from, VoteResponse(a, o.node.term, o.sent[0].msg.granted))
            && if o.sent[0].msg.granted
               then && o.node.term == m.term
                    && UpToDate(m.lastLogTerm, m.lastLogIndex, LastLogTerm(o.node), LastIndex(o.node))
                    && (CastsVote(s, o.node, m.from, m.term)
                        || (s.role == Follower && s.votedFor == m.from && s.term == m.term))
               else Quiet(s, o.node) || StepsDown(s, o.node)
  {
  }

  lemma VoteResponseEffect(members: set<nat>, a: nat, s: Node, m: Message)
    requires NodeInv(members, a, s) && m.VoteResponse? && s.votes < U32 - 1
    ensures var s' := Receive(s, m).node;
            && NodeInv(members, a, s')
            && (|| Quiet(s, s') || StepsDown(s, s')
                || (m.granted && m.term == s'.term && CountsVote(members, s, s')))
  {
  }

  lemma AppendEffect(members: set<nat>, a: nat, s: Node, m: Message)
    requires NodeInv(members, a, s) && (m.AppendRequest? || m.AppendResponse? || m.Unrecognised?)
    ensures var o := Receive(s, m);
            && NodeInv(members, a, o.node)
            && (Quiet(s, o.node) || StepsDown(s, o.node))
            && (forall p :: p in o.sent ==> p.msg.AppendResponse?)
  {
    RaftLog.MessageKeeps(s, m);
  }

  // ---- every step keeps the invariant --------------------------------------------------

  lemma VotesBounded(members: set<nat>, run: seq<World>, h: History, a: nat)
    requires Inv(members, run, h) && a in members && run[|run| - 1].nodes[a].role == Candidate
    ensures run[|run| - 1].nodes[a].votes < U32 - 1
  {
    var vs := Voters(h.counted, a, run[|run| - 1].nodes[a].term);
    assert vs <= members by {
      forall g | g in h.counted ensures g.voter in members {
        assert GrantOk(members, run, g);
      }
    }
    SubsetCard(vs, members);
    assert NodeInv(members, a, run[|run| - 1].nodes[a]);
  }

  lemma ResponseSendsNothing(s: Node, m: Message)
    requires m.VoteResponse?
    ensures Receive(s, m).sent == []
  {
  }

  lemma VoteResponseIgnored(members: set<nat>, a: nat, s: Node, m: Message)
    requires NodeInv(members, a, s) && m.VoteResponse? && s.role != Candidate
    ensures NodeInv(members, a, Receive(s, m).node)
    ensures Quiet(s, Receive(s, m).node) || StepsDown(s, Receive(s, m).node)
  {
  }

  /** A request in flight comes from another member, and was not granted before. */
  lemma RequestFacts(members: set<nat>, w: World, h: History, p: Packet)
    requires NodesInv(members, w) && RequestsInv(members, w, h) && VotedInv(w, h)
    requires p in w.net && p.msg.VoteRequest?
    ensures p.msg.from in members && p.to in members && p.msg.from != p.to && p.msg.from < 0x8000_0000
    ensures !(w.nodes[p.to].role == Follower && w.nodes[p.to].votedFor == p.msg.from && w.nodes[p.to].term == p.msg.term)
  {
    assert ReqOk(members, w, h, p);
    assert NodeInv(members, p.msg.from, w.nodes[p.msg.from]);
  }

  lemma DeliverRequest(members: set<nat>, run: seq<World>, h: History, p: Packet, w': World) returns (h': History)
    requires Inv(members, run, h)
    requires p.msg.VoteRequest? && Next(run[|run| - 1], Deliver(p), w')
    ensures Inv(members, run + [w'], h')
    ensures AllAdvance(members, run[|run| - 1], w')
  {
    hide GrantOk, ReqOk, ElectionOk, GrantsInv, ElectionsInv, RequestsInv, VotesInv, VotedInv, NodeInv, Receive, Good;
    var w := run[|run| - 1];
    var s := w.nodes[p.to];
    RequestFacts(members, w, h, p);
    VoteRequestEffect(members, p.to, s, p.msg);
    var o := Receive(s, p.msg);
    assert o.sent == [o.sent[0]];
    if o.sent[0].msg.granted {
      h' := GrantStep(members, run, h, w', p);
    } else {
      h' := h;
      BenignStep(members, run, h, w', p.to);
    }
  }

  lemma DeliverResponse(members: set<nat>, run: seq<World>, h: History, p: Packet, w': World) returns (h': History)
    requires Inv(members, run, h)
    requires p.msg.VoteResponse? && Next(run[|run| - 1], Deliver(p), w')
    ensures Inv(members, run + [w'], h')
    ensures AllAdvance(members, run[|run| - 1], w')
  {
    hide GrantOk, ReqOk, ElectionOk, GrantsInv, ElectionsInv, RequestsInv, VotesInv, VotedInv, NodeInv, Receive, Good;
    var s := run[|run| - 1].nodes[p.to];
    ResponseSendsNothing(s, p.msg);
    if s.role == Candidate {
      VotesBounded(members, run, h, p.to);
      VoteResponseEffect(members, p.to, s, p.msg);
    } else {
      VoteResponseIgnored(members, p.to, s, p.msg);
    }
    if Quiet(s, Receive(s, p.msg).node) || StepsDown(s, Receive(s, p.msg).node) {
      h' := h;
      BenignStep(members, run, h, w', p.to);
    } else {
      h' := CountStep(members, run, h, w', p);
    }
  }

  lemma DeliverAppend(members: set<nat>, run: seq<World>, h: History, p: Packet, w': World)
    requires Inv(members, run, h)
    requires !p.msg.VoteRequest? && !p.msg.VoteResponse? && Next(run[|run| - 1], Deliver(p), w')
    ensures Inv(members, run + [w'], h)
    ensures AllAdvance(members, run[|run| - 1], w')
  {
    hide GrantOk, ReqOk, ElectionOk, GrantsInv, ElectionsInv, RequestsInv, VotesInv, VotedInv, NodeInv, Receive, Good;
    AppendEffect(members, p.to, run[|run| - 1].nodes[p.to], p.msg);
    BenignStep(members, run, h, w', p.to);
  }

  lemma LoseStep(members: set<nat>, run: seq<World>, h: History, w': World)
    requires Inv(members, run, h)
    requires w'.nodes == run[|run| - 1].nodes && VoteTrafficShrinks(run[|run| - 1].net, w'.net)
    ensures Inv(members, run + [w'], h)
    ensures AllAdvance(members, run[|run| - 1], w')
  {
    hide GrantOk, ReqOk, ElectionOk, GrantsInv, ElectionsInv, RequestsInv, ResponsesInv, NodeInv;
    KeepGrants(members, run, h, w');
    KeepElections(members, run, h, w');
    KeepTraffic(members, run[|run| - 1], h, w');
    Assemble(members, run, h, w');
  }

  lemma TimerStep(members: set<nat>, run: seq<World>, h: History, a: nat, due: bool, w': World)
    requires Inv(members, run, h)
    requires Next(run[|run| - 1], Timer(a, due), w')
    ensures Inv(members, run + [w'], h)
    ensures AllAdvance(members, run[|run| - 1], w')
  {
    hide GrantOk, ReqOk, ElectionOk, GrantsInv, ElectionsInv, RequestsInv, ResponsesInv, Broadcast, Heartbeats, HeartbeatTo;
    var w := run[|run| - 1];
    if due && w.nodes[a].role != Leader {
      TimeoutStep(members, run, h, w', a);
    } else {
      assert NodeInv(members, a, w.nodes[a]);
      var s := w.nodes[a].(applied := w.nodes[a].commit);
      HeartbeatsCarryNoVotes(s, s.peers);
      BenignStep(members, run, h, w', a);
    }
  }

  lemma ClientStep(members: set<nat>, run: seq<World>, h: History, act: Action, w': World)
    requires Inv(members, run, h)
    requires act.Client? && Next(run[|run| - 1], act, w')
    ensures Inv(members, run + [w'], h)
    ensures AllAdvance(members, run[|run| - 1], w')
  {
    hide GrantsInv, ElectionsInv, RequestsInv, ResponsesInv, VotesInv, VotedInv, NodeInv, Submit, Good;
    SubmitEffect(members, act.a, run[|run| - 1].nodes[act.a], act.kind, act.data, act.allocOk);
    BenignStep(members, run, h, w', act.a);
  }

  lemma SubmitEffect(members: set<nat>, a: nat, s: Node, kind: nat, data: seq<bv8>, allocOk: bool)
    requires NodeInv(members, a, s)
    ensures NodeInv(members, a, Submit(s, kind, data, allocOk).0) && Quiet(s, Submit(s, kind, data, allocOk).0)
  {
  }

  lemma AnyStep(members: set<nat>, run: seq<World>, h: History, act: Action, w': World) returns (h': History)
    requires Inv(members, run, h)
    requires Next(run[|run| - 1], act, w')
    ensures Inv(members, run + [w'], h')
    ensures AllAdvance(members, run[|run| - 1], w')
  {
    hide NodesInv, GrantsInv, ElectionsInv, RequestsInv, ResponsesInv, VotesInv, VotedInv, Receive, Tick, Submit, Good;
    h' := h;
    match act
    case Deliver(p) =>
      if p.msg.VoteRequest? {
        h' := DeliverRequest(members, run, h, p, w');
      } else if p.msg.VoteResponse? {
        h' := DeliverResponse(members, run, h, p, w');
      } else {
        DeliverAppend(members, run, h, p, w');
      }
    case Lose(p) => LoseStep(members, run, h, w');
    case Timer(a, due) => TimerStep(members, run, h, a, due, w');
    case Client(_, _, _, _) => ClientStep(members, run, h, act, w');
  }

  /** Nobody becomes leader but by counting a granted vote. */
  lemma OnlyVotesWin(members: set<nat>, a: nat, s: Node, m: Message)
    requires NodeInv(members, a, s) && (s.role == Candidate ==> s.votes < U32 - 1)
    requires s.role != Leader && Receive(s, m).node.role == Leader
    ensures m.VoteResponse? && m.granted && m.term == Receive(s, m).node.term
    ensures CountsVote(members, s, Receive(s, m).node)
  {
  }

  lemma WinningStep(members: set<nat>, run: seq<World>, h: History, act: Action, w': World, a: nat)
    requires Inv(members, run, h)
    requires Next(run[|run| - 1], act, w')
    requires a in members && run[|run| - 1].nodes[a].role != Leader && a in w'.nodes && w'.nodes[a].role == Leader
    ensures act.Deliver? && act.p in run[|run| - 1].net
    ensures act.p.to == a && IsGrantedResponse(act.p) && act.p.msg.term == w'.nodes[a].term
    ensures CountsVote(members, run[|run| - 1].nodes[a], w'.nodes[a])
  {
    hide GrantOk, GrantsInv, ElectionsInv, RequestsInv, ResponsesInv, VotesInv, VotedInv, Receive, NodeInv, Good;
    var s := run[|run| - 1].nodes[a];
    if act.Deliver? {
      if s.role == Candidate {
        VotesBounded(members, run, h, a);
      }
      OnlyVotesWin(members, a, s, act.p.msg);
    }
  }
}
