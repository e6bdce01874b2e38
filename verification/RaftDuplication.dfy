/** Elections over a network that may also deliver a message more than once. Votes are counted
    without remembering their senders, so safety then depends on the size of the cluster: at
    most three members are safe over every run, four or more are not. */
module RaftDuplication {
  import opened Raft
  import opened RaftElection

  ghost predicate Duplicates(w: World, p: Packet, w': World) {
    p in w.net && w' == w.(net := w.net + multiset{p})
  }

  ghost predicate DupSteps(w: World, w': World) {
    Steps(w, w') || exists p :: Duplicates(w, p, w')
  }

  ghost predicate IsDupRun(members: set<nat>, run: seq<World>)
    ensures IsDupRun(members, run) ==> |run| > 0
  {
    && |run| > 0
    && Init(members, run[0])
    && forall i :: 0 <= i < |run| - 1 ==> DupSteps(run[i], run[i + 1])
  }

  ghost predicate LeadsAt(run: seq<World>, i: nat, a: nat, t: nat) {
    i < |run| && a in run[i].nodes && run[i].nodes[a].role == Leader && run[i].nodes[a].term == t
  }

  /** Two nodes lead the same term, at whatever moments. */
  ghost predicate TwoLeaders(run: seq<World>) {
    exists i: nat, j: nat, a: nat, b: nat, t: nat :: a != b && LeadsAt(run, i, a, t) && LeadsAt(run, j, b, t)
  }

  // ---- what holds over every run --------------------------------------------------------

  datatype Vote = Vote(voter: nat, candidate: nat, term: u64)

  /** The votes granted and the elections won so far. */
  datatype Record = Record(votes: set<Vote>, won: set<Election>)

  ghost predicate VoteStands(members: set<nat>, w: World, v: Vote) {
    && v.voter in members && v.candidate in members && v.voter != v.candidate && v.voter in w.nodes
    && v.term <= w.nodes[v.voter].term
    && (v.term == w.nodes[v.voter].term ==> w.nodes[v.voter].role == Follower && w.nodes[v.voter].votedFor == v.candidate)
  }

  ghost predicate OneVote(votes: set<Vote>) {
    forall v, v' :: v in votes && v' in votes && v.voter == v'.voter && v.term == v'.term ==> v == v'
  }

  ghost predicate VotesKnown(w: World, votes: set<Vote>) {
    forall a :: a in w.nodes && w.nodes[a].role == Follower && w.nodes[a].votedFor != -1 ==>
                  exists v :: v in votes && v.voter == a && v.candidate == w.nodes[a].votedFor && v.term == w.nodes[a].term
  }

  /** A request comes from another member, a granted response stands for a vote. */
  ghost predicate PacketOk(members: set<nat>, votes: set<Vote>, p: Packet) {
    && (p.msg.VoteRequest? ==> p.msg.from in members && p.to in members && p.msg.from != p.to)
    && (IsGrantedResponse(p) ==> Vote(p.msg.from, p.to, p.msg.term) in votes)
  }

  /** The winner voted for nobody else in its term, and somebody else voted for it. */
  ghost predicate WonOk(members: set<nat>, w: World, votes: set<Vote>, e: Election) {
    && e.leader in members && e.leader in w.nodes && e.term <= w.nodes[e.leader].term
    && (e.term == w.nodes[e.leader].term ==> w.nodes[e.leader].role == Leader)
    && (forall v :: v in votes ==> !(v.voter == e.leader && v.term == e.term))
    && (exists v :: v in votes && v.candidate == e.leader && v.term == e.term)
  }

  ghost predicate LeadersKnown(w: World, won: set<Election>) {
    forall a :: a in w.nodes && w.nodes[a].role == Leader ==> Election(a, w.nodes[a].term) in won
  }

  ghost predicate DupInv(members: set<nat>, w: World, r: Record) {
    && NodesInv(members, w)
    && (forall v :: v in r.votes ==> VoteStands(members, w, v))
    && OneVote(r.votes)
    && VotesKnown(w, r.votes)
    && (forall p :: p in w.net ==> PacketOk(members, r.votes, p))
    && (forall e :: e in r.won ==> WonOk(members, w, r.votes, e))
    && LeadersKnown(w, r.won)
  }

  /** Votes and victories of the past outlast a step. */
  lemma PastStands(members: set<nat>, w: World, r: Record, w': World)
    requires DupInv(members, w, r) && AllAdvance(members, w, w')
    ensures forall v :: v in r.votes ==> VoteStands(members, w', v)
    ensures forall e :: e in r.won ==> WonOk(members, w', r.votes, e)
  {
    forall v | v in r.votes ensures VoteStands(members, w', v) {
      assert VoteStands(members, w, v);
    }
    forall e | e in r.won ensures WonOk(members, w', r.votes, e) {
      assert WonOk(members, w, r.votes, e);
    }
  }

  // ---- the kinds of step ----------------------------------------------------------------

  /** Packets of w' that carry votes were there before, or are harmless. */
  ghost predicate NetOk(members: set<nat>, w: World, votes: set<Vote>, w': World) {
    forall p :: p in w'.net ==> p in w.net || PacketOk(members, votes, p)
  }

  /** A node stays, steps down, or becomes candidate of a higher term. */
  ghost predicate Plain(a: nat, s: Node, s': Node) {
    Quiet(s, s') || StepsDown(s, s') || (s'.role == Candidate && s'.term > s.term)
  }

  lemma PlainStep(members: set<nat>, w: World, r: Record, w': World, a: nat)
    requires DupInv(members, w, r) && OnlyNode(members, w, w', a) && NodeInv(members, a, w'.nodes[a])
    requires Plain(a, w.nodes[a], w'.nodes[a]) && NetOk(members, w, r.votes, w')
    ensures DupInv(members, w', r)
  {
    hide VoteStands, WonOk, PacketOk, NodeInv;
    OneAdvances(members, w, w', a);
    PastStands(members, w, r, w');
  }

  lemma VoteStep(members: set<nat>, w: World, r: Record, w': World, c: nat, v: nat) returns (r': Record)
    requires DupInv(members, w, r) && OnlyNode(members, w, w', v) && NodeInv(members, v, w'.nodes[v])
    requires c in members && c != v && CastsVote(w.nodes[v], w'.nodes[v], c, w'.nodes[v].term)
    requires forall p :: p in w'.net ==> p in w.net || p == Packet(c, VoteResponse(v, w'.nodes[v].term, true))
    ensures DupInv(members, w', r') && r.won <= r'.won
  {
    hide VoteStands, WonOk, PacketOk, NodeInv, OneVote, VotesKnown;
    var x := Vote(v, c, w'.nodes[v].term);
    r' := Record(r.votes + {x}, r.won);
    OneAdvances(members, w, w', v);
    PastStands(members, w, r, w');
    NewVote(members, w, r, w', x);
    WonStays(members, w, r, w', x);
    VoteKnown(members, w, r, w', x);
    forall p | p in w'.net ensures PacketOk(members, r'.votes, p) {
      PacketStays(members, r.votes, x, p);
    }
  }

  lemma NewVote(members: set<nat>, w: World, r: Record, w': World, x: Vote)
    requires DupInv(members, w, r) && OnlyNode(members, w, w', x.voter)
    requires x.candidate in members && x.candidate != x.voter && x.term == w'.nodes[x.voter].term
    requires CastsVote(w.nodes[x.voter], w'.nodes[x.voter], x.candidate, x.term)
    ensures VoteStands(members, w', x) && OneVote(r.votes + {x})
  {
    hide NodesInv, WonOk, VotesKnown, PacketOk, LeadersKnown;
    NotYetVoted(members, w, r.votes, w'.nodes[x.voter], x);
    OneMore(r.votes, x);
  }

  lemma NotYetVoted(members: set<nat>, w: World, votes: set<Vote>, s': Node, x: Vote)
    requires (forall v :: v in votes ==> VoteStands(members, w, v)) && x.voter in w.nodes
    requires CastsVote(w.nodes[x.voter], s', x.candidate, x.term)
    ensures forall y :: y in votes ==> !(y.voter == x.voter && y.term == x.term)
  {
    forall y | y in votes ensures !(y.voter == x.voter && y.term == x.term) {
      assert VoteStands(members, w, y);
    }
  }

  lemma OneMore(votes: set<Vote>, x: Vote)
    requires OneVote(votes) && forall y :: y in votes ==> !(y.voter == x.voter && y.term == x.term)
    ensures OneVote(votes + {x})
  {
  }

  lemma WonStays(members: set<nat>, w: World, r: Record, w': World, x: Vote)
    requires DupInv(members, w, r) && OnlyNode(members, w, w', x.voter)
    requires CastsVote(w.nodes[x.voter], w'.nodes[x.voter], x.candidate, x.term)
    requires forall e :: e in r.won ==> WonOk(members, w', r.votes, e)
    ensures forall e :: e in r.won ==> WonOk(members, w', r.votes + {x}, e)
  {
    hide OneVote, VotesKnown, PacketOk, VoteStands;
    forall e | e in r.won ensures WonOk(members, w', r.votes + {x}, e) {
      assert WonOk(members, w, r.votes, e) && WonOk(members, w', r.votes, e);
    }
  }

  lemma PacketStays(members: set<nat>, votes: set<Vote>, x: Vote, p: Packet)
    ensures PacketOk(members, votes, p) ==> PacketOk(members, votes + {x}, p)
    ensures p == Packet(x.candidate, VoteResponse(x.voter, x.term, true)) ==> PacketOk(members, votes + {x}, p)
  {
  }

  lemma VoteKnown(members: set<nat>, w: World, r: Record, w': World, x: Vote)
    requires VotesKnown(w, r.votes) && OnlyNode(members, w, w', x.voter)
    requires w'.nodes[x.voter].votedFor == x.candidate && w'.nodes[x.voter].term == x.term
    ensures VotesKnown(w', r.votes + {x})
  {
    assert x in r.votes + {x};
  }

  /** A candidate counts a granted vote: it stays candidate or wins. */
  ghost predicate Counts(s: Node, s': Node) {
    s.role == Candidate && s'.role != Follower && s'.term == s.term && s'.votedFor == s.votedFor
    && (s'.role == Candidate ==> SameLast(s, s'))
  }

  lemma CountStep(members: set<nat>, w: World, r: Record, w': World, p: Packet) returns (r': Record)
    requires DupInv(members, w, r) && OnlyNode(members, w, w', p.to) && NodeInv(members, p.to, w'.nodes[p.to])
    requires p in w.net && IsGrantedResponse(p) && p.msg.term == w'.nodes[p.to].term
    requires Counts(w.nodes[p.to], w'.nodes[p.to])
    requires forall q :: q in w'.net ==> q in w.net
    ensures DupInv(members, w', r') && r.won <= r'.won
  {
    hide VoteStands, WonOk, PacketOk, NodeInv, OneVote;
    var a := p.to;
    var e := Election(a, w'.nodes[a].term);
    r' := if w'.nodes[a].role == Leader then Record(r.votes, r.won + {e}) else r;
    OneAdvances(members, w, w', a);
    PastStands(members, w, r, w');
    if w'.nodes[a].role == Leader {
      Victory(members, w, r, w', p);
    }
  }

  lemma Victory(members: set<nat>, w: World, r: Record, w': World, p: Packet)
    requires DupInv(members, w, r) && p.to in members && p.to in w.nodes && p.to in w'.nodes
    requires p in w.net && IsGrantedResponse(p) && p.msg.term == w'.nodes[p.to].term
    requires Counts(w.nodes[p.to], w'.nodes[p.to]) && w'.nodes[p.to].role == Leader
    ensures WonOk(members, w', r.votes, Election(p.to, w'.nodes[p.to].term))
  {
    assert PacketOk(members, r.votes, p);
    var x := Vote(p.msg.from, p.to, p.msg.term);
    assert x in r.votes;
    forall v | v in r.votes ensures !(v.voter == p.to && v.term == p.msg.term) {
      assert VoteStands(members, w, v);
    }
  }

  lemma ResponseEffect(members: set<nat>, a: nat, s: Node, m: Message)
    requires NodeInv(members, a, s) && m.VoteResponse?
    ensures var o := Receive(s, m);
            && NodeInv(members, a, o.node) && o.sent == []
            && (Quiet(s, o.node) || StepsDown(s, o.node) || (m.granted && m.term == o.node.term && Counts(s, o.node)))
  {
  }

  // ---- every step keeps the invariant ----------------------------------------------------

  lemma DeliverStep(members: set<nat>, w: World, r: Record, p: Packet, w': World) returns (r': Record)
    requires DupInv(members, w, r) && Next(w, Deliver(p), w')
    ensures DupInv(members, w', r') && r.won <= r'.won
  {
    hide Receive, Good, VoteStands, WonOk, VotesKnown, LeadersKnown, OneVote, UpToDate, NodeInv, PacketOk;
    NewPackets(w.net, p, Receive(w.nodes[p.to], p.msg).sent);
    r' := r;
    if p.msg.VoteRequest? {
      r' := RequestStep(members, w, r, p, w');
    } else if p.msg.VoteResponse? {
      ResponseEffect(members, p.to, w.nodes[p.to], p.msg);
      if Quiet(w.nodes[p.to], w'.nodes[p.to]) || StepsDown(w.nodes[p.to], w'.nodes[p.to]) {
        PlainStep(members, w, r, w', p.to);
      } else {
        r' := CountStep(members, w, r, w', p);
      }
    } else {
      AppendEffect(members, p.to, w.nodes[p.to], p.msg);
      AppendsHarmless(members, r.votes, Receive(w.nodes[p.to], p.msg).sent);
      PlainStep(members, w, r, w', p.to);
    }
  }

  lemma AppendsHarmless(members: set<nat>, votes: set<Vote>, sent: seq<Packet>)
    ensures forall p :: p in sent && (p.msg.AppendResponse? || p.msg.AppendRequest?) ==> PacketOk(members, votes, p)
  {
  }

  lemma RequestStep(members: set<nat>, w: World, r: Record, p: Packet, w': World) returns (r': Record)
    requires DupInv(members, w, r) && p in w.net && p.to in w.nodes && p.msg.VoteRequest?
    requires OnlyNode(members, w, w', p.to) && w'.nodes[p.to] == Receive(w.nodes[p.to], p.msg).node
    requires forall q :: q in w'.net ==> q in w.net || q in Receive(w.nodes[p.to], p.msg).sent
    ensures DupInv(members, w', r') && r.won <= r'.won
  {
    hide Receive, Good, VoteStands, WonOk, VotesKnown, LeadersKnown, OneVote, UpToDate, PeersOk, WellFormed;
    var s, o := w.nodes[p.to], Receive(w.nodes[p.to], p.msg);
    r' := r;
    assert NodeInv(members, p.to, s) && PacketOk(members, r.votes, p);
    assert NodeInv(members, p.msg.from, w.nodes[p.msg.from]);
    VoteRequestEffect(members, p.to, s, p.msg);
    assert o.sent == [o.sent[0]];
    if o.sent[0].msg.granted && CastsVote(s, o.node, p.msg.from, p.msg.term) {
      r' := VoteStep(members, w, r, w', p.msg.from, p.to);
    } else {
      if o.sent[0].msg.granted {
        RegrantEffect(members, p.to, s, p.msg);
        VoteAgain(w, r.votes, p.to);
      }
      PlainStep(members, w, r, w', p.to);
    }
  }

  lemma NewPackets(net: multiset<Packet>, p: Packet, sent: seq<Packet>)
    ensures forall q :: q in net - multiset{p} + multiset(sent) ==> q in net || q in sent
  {
  }

  /** A vote granted again changes nothing. */
  lemma RegrantEffect(members: set<nat>, a: nat, s: Node, m: Message)
    requires NodeInv(members, a, s) && m.VoteRequest? && m.from != a && m.from < 0x8000_0000
    requires Receive(s, m).sent[0].msg.granted && !CastsVote(s, Receive(s, m).node, m.from, m.term)
    ensures Quiet(s, Receive(s, m).node)
    ensures s.role == Follower && s.votedFor == m.from && s.term == m.term
  {
  }

  lemma VoteAgain(w: World, votes: set<Vote>, a: nat)
    requires VotesKnown(w, votes) && a in w.nodes && w.nodes[a].role == Follower && w.nodes[a].votedFor >= 0
    ensures Vote(a, w.nodes[a].votedFor, w.nodes[a].term) in votes
  {
    var v :| v in votes && v.voter == a && v.candidate == w.nodes[a].votedFor && v.term == w.nodes[a].term;
    assert v == Vote(a, w.nodes[a].votedFor, w.nodes[a].term);
  }

  lemma TickStep(members: set<nat>, w: World, r: Record, a: nat, due: bool, w': World)
    requires DupInv(members, w, r) && Next(w, Timer(a, due), w')
    ensures DupInv(members, w', r)
  {
    hide Tick, Good, VoteStands, WonOk, VotesKnown, LeadersKnown, OneVote, PeersOk, PacketOk, NodeInv;
    TickEffect(members, r.votes, a, w.nodes[a], due);
    PlainStep(members, w, r, w', a);
  }

  lemma TickEffect(members: set<nat>, votes: set<Vote>, a: nat, s: Node, due: bool)
    requires NodeInv(members, a, s) && a in members && s.term + 1 < U64
    ensures var o := Tick(s, due);
            && NodeInv(members, a, o.node) && Plain(a, s, o.node)
            && forall p :: p in o.sent ==> PacketOk(members, votes, p)
  {
    hide Broadcast, Heartbeats, HeartbeatTo;
    var s1 := s.(applied := s.commit);
    HeartbeatsCarryNoVotes(s1, s1.peers);
    var c := BecomeCandidate(s1).node;
    BroadcastFacts(s.peers, s.id, VoteRequest(c.id, c.term, LastIndex(c), LastLogTerm(c)));
  }

  lemma ClientKeeps(members: set<nat>, w: World, r: Record, act: Action, w': World)
    requires DupInv(members, w, r) && act.Client? && Next(w, act, w')
    ensures DupInv(members, w', r)
  {
    hide VoteStands, WonOk, VotesKnown, LeadersKnown, OneVote, PacketOk, NodeInv, Submit, Good;
    SubmitEffect(members, act.a, w.nodes[act.a], act.kind, act.data, act.allocOk);
    PlainStep(members, w, r, w', act.a);
  }

  /** The net may lose packets or hold some more often. */
  lemma NetStep(members: set<nat>, w: World, r: Record, w': World)
    requires DupInv(members, w, r) && w'.nodes == w.nodes && forall p :: p in w'.net ==> p in w.net
    ensures DupInv(members, w', r)
  {
    hide NodeInv, PacketOk, OneVote;
    forall v | v in r.votes ensures VoteStands(members, w', v) {
      assert VoteStands(members, w, v);
    }
    forall e | e in r.won ensures WonOk(members, w', r.votes, e) {
      assert WonOk(members, w, r.votes, e);
    }
  }

  lemma DupStep(members: set<nat>, w: World, r: Record, w': World) returns (r': Record)
    requires DupInv(members, w, r) && DupSteps(w, w')
    ensures DupInv(members, w', r') && r.won <= r'.won
  {
    hide DupInv, Receive, Tick, Submit, Good;
    r' := r;
    if act :| Next(w, act, w') {
      match act
      case Deliver(p) => r' := DeliverStep(members, w, r, p, w');
      case Lose(p) => NetStep(members, w, r, w');
      case Timer(a, due) => TickStep(members, w, r, a, due, w');
      case Client(_, _, _, _) => ClientKeeps(members, w, r, act, w');
    } else {
      NetStep(members, w, r, w');
    }
  }

  lemma PrefixIsDupRun(members: set<nat>, run: seq<World>, n: nat)
    requires IsDupRun(members, run) && 0 < n <= |run|
    ensures IsDupRun(members, run[..n])
  {
    hide Init, DupSteps;
    forall k | 0 <= k < n - 1 ensures DupSteps(run[..n][k], run[..n][k + 1]) {
      assert DupSteps(run[k], run[k + 1]);
    }
  }

  /** Every leader a run has had is on record. */
  lemma {:induction false} RecordOf(members: set<nat>, run: seq<World>) returns (r: Record)
    requires IsDupRun(members, run)
    ensures DupInv(members, run[|run| - 1], r)
    ensures forall i: nat, a: nat, t: nat :: LeadsAt(run, i, a, t) ==> Election(a, t) in r.won
  {
    hide Init, DupSteps, NodesInv, VoteStands, WonOk, OneVote, VotesKnown, PacketOk;
    var n := |run| - 1;
    if n == 0 {
      r := Record({}, {});
      InitialRecord(members, run[0]);
    } else {
      PrefixIsDupRun(members, run, n);
      var before := RecordOf(members, run[..n]);
      assert DupSteps(run[n - 1], run[n]);
      r := DupStep(members, run[n - 1], before, run[n]);
      forall i: nat, a: nat, t: nat | LeadsAt(run, i, a, t) ensures Election(a, t) in r.won {
        if i < n {
          assert LeadsAt(run[..n], i, a, t);
        }
      }
    }
  }

  lemma InitialRecord(members: set<nat>, w: World)
    requires Init(members, w)
    ensures DupInv(members, w, Record({}, {})) && forall a :: a in w.nodes ==> w.nodes[a].role == Follower
  {
  }

  // ---- at most three members ---------------------------------------------------------------

  /** Two leaders of one term need two voters besides them. */
  lemma SmallClusterSafe(members: set<nat>, run: seq<World>)
    requires IsDupRun(members, run) && |members| <= 3
    ensures !TwoLeaders(run)
  {
    if i: nat, j: nat, a: nat, b: nat, t: nat :| a != b && LeadsAt(run, i, a, t) && LeadsAt(run, j, b, t) {
      var r := RecordOf(members, run);
      FourMembers(members, run[|run| - 1], r, a, b, t);
      assert false;
    }
  }

  lemma FourMembers(members: set<nat>, w: World, r: Record, a: nat, b: nat, t: nat)
    requires DupInv(members, w, r) && a != b && Election(a, t) in r.won && Election(b, t) in r.won
    ensures |members| >= 4
  {
    hide NodesInv, VotesKnown, PacketOk;
    assert WonOk(members, w, r.votes, Election(a, t)) && WonOk(members, w, r.votes, Election(b, t));
    var u :| u in r.votes && u.candidate == a && u.term == t;
    var v :| v in r.votes && v.candidate == b && v.term == t;
    assert VoteStands(members, w, u) && VoteStands(members, w, v);
    SubsetCard({a, b, u.voter, v.voter}, members);
  }

  // ---- four members or more ----------------------------------------------------------------

  /** The nodes of a set in some order, each once. */
  lemma {:induction false} ListOf(members: set<nat>) returns (l: seq<nat>)
    ensures |l| == |members| && forall x :: x in l <==> x in members
    ensures forall i, j :: 0 <= i < j < |l| ==> l[i] != l[j]
  {
    if members == {} {
      l := [];
    } else {
      var x :| x in members;
      var rest := ListOf(members - {x});
      l := rest + [x];
    }
  }

  lemma Start(members: set<nat>) returns (w: World, l: seq<nat>)
    requires |members| <= MAX_NODES && forall a :: a in members ==> a < 0x8000_0000
    ensures Init(members, w) && |l| == |members| && forall x :: x in l <==> x in members
    ensures forall a :: a in members ==> w.nodes[a] == InitialNode(a, l)
  {
    l := ListOf(members);
    w := World(map a | a in members :: InitialNode(a, l), multiset{});
    forall a | a in members ensures PeersOk(members, w.nodes[a]) && InitialNode(a, l) == InitialNode(a, seq(|w.nodes[a].peers|, i requires 0 <= i < |w.nodes[a].peers| => w.nodes[a].peers[i].id)) {
      assert l == seq(|w.nodes[a].peers|, i requires 0 <= i < |w.nodes[a].peers| => w.nodes[a].peers[i].id);
    }
  }

  lemma Extended(members: set<nat>, run: seq<World>, w': World)
    requires IsDupRun(members, run) && DupSteps(run[|run| - 1], w')
    ensures IsDupRun(members, run + [w'])
  {
    hide Init, DupSteps;
    var run' := run + [w'];
    forall i | 0 <= i < |run'| - 1 ensures DupSteps(run'[i], run'[i + 1]) {
      assert i < |run| - 1 ==> DupSteps(run[i], run[i + 1]);
    }
  }

  lemma {:induction false} BroadcastReaches(peers: seq<Peer>, self: nat, msg: Message, i: nat)
    requires i < |peers| && peers[i].id != self
    ensures Packet(peers[i].id, msg) in Broadcast(peers, self, msg)
  {
    if i < |peers| - 1 {
      BroadcastReaches(peers[..|peers| - 1], self, msg, i);
    }
  }

  /** A node whose election timer runs out as the first thing it does. */
  lemma Campaign(members: set<nat>, run: seq<World>, l: seq<nat>, c: nat, u: nat) returns (w': World)
    requires IsDupRun(members, run) && Good(run[|run| - 1])
    requires c in run[|run| - 1].nodes && run[|run| - 1].nodes[c] == InitialNode(c, l) && c < 0x8000_0000 && |l| <= MAX_NODES
    requires u in l && u != c
    ensures IsDupRun(members, run + [w']) && Good(w')
    ensures w'.nodes == run[|run| - 1].nodes[c := BecomeCandidate(InitialNode(c, l)).node]
    ensures run[|run| - 1].net <= w'.net && Packet(u, VoteRequest(c, 1, 0, 0)) in w'.net
  {
    hide Init, DupSteps, Broadcast;
    var w, s := run[|run| - 1], InitialNode(c, l);
    var o := Tick(s, true);
    assert o == BecomeCandidate(s);
    w' := World(w.nodes[c := o.node], w.net + multiset(o.sent));
    TimerOf(w, c, w');
    Extended(members, run, w');
    var i :| 0 <= i < |l| && l[i] == u;
    BroadcastReaches(s.peers, c, VoteRequest(c, 1, 0, 0), i);
  }

  lemma TimerOf(w: World, c: nat, w': World)
    requires Good(w) && c in w.nodes && w.nodes[c].term + 1 < U64
    requires w' == World(w.nodes[c := Tick(w.nodes[c], true).node], w.net + multiset(Tick(w.nodes[c], true).sent))
    ensures DupSteps(w, w')
  {
    hide Tick;
    assert Next(w, Timer(c, true), w');
  }

  lemma DeliveryOf(w: World, p: Packet, w': World)
    requires Good(w) && p in w.net && p.to in w.nodes
    requires w' == World(w.nodes[p.to := Receive(w.nodes[p.to], p.msg).node], w.net - multiset{p} + multiset(Receive(w.nodes[p.to], p.msg).sent))
    ensures DupSteps(w, w')
  {
    hide Receive;
    assert Next(w, Deliver(p), w');
  }

  /** A node that has heard nothing yet grants its first vote. */
  lemma FirstGrant(members: set<nat>, run: seq<World>, l: seq<nat>, c: nat, u: nat) returns (w': World)
    requires IsDupRun(members, run) && Good(run[|run| - 1])
    requires u in run[|run| - 1].nodes && run[|run| - 1].nodes[u] == InitialNode(u, l) && c < 0x8000_0000 && |l| <= MAX_NODES
    requires Packet(u, VoteRequest(c, 1, 0, 0)) in run[|run| - 1].net
    ensures IsDupRun(members, run + [w']) && Good(w')
    ensures w'.nodes.Keys == run[|run| - 1].nodes.Keys
    ensures SameBut(run[|run| - 1], w', u)
    ensures forall p :: p in run[|run| - 1].net && p != Packet(u, VoteRequest(c, 1, 0, 0)) ==> p in w'.net
    ensures Packet(c, VoteResponse(u, 1, true)) in w'.net
  {
    hide Init, DupSteps;
    var w, p := run[|run| - 1], Packet(u, VoteRequest(c, 1, 0, 0));
    var o := Receive(w.nodes[u], p.msg);
    assert o.sent == [Packet(c, VoteResponse(u, 1, true))];
    w' := World(w.nodes[u := o.node], w.net - multiset{p} + multiset(o.sent));
    DeliveryOf(w, p, w');
    Extended(members, run, w');
  }

  /** The candidate's next count of the same response, delivered once more. */
  ghost function Counted(s: Node, msg: Message): Node {
    Receive(s, msg).node
  }

  lemma CountedFacts(s: Node, msg: Message)
    requires WellFormed(s) && s.role == Candidate && msg.VoteResponse? && msg.granted && msg.term == s.term && s.votes < U32 - 1
    ensures WellFormed(Counted(s, msg)) && Counted(s, msg).term == s.term && Receive(s, msg).sent == []
    ensures if s.votes + 1 >= Majority(s) then Counted(s, msg).role == Leader
            else Counted(s, msg) == s.(votes := s.votes + 1)
  {
  }

  ghost predicate SameBut(w: World, w': World, a: nat) {
    forall x :: x in w.nodes && x != a ==> x in w'.nodes && w'.nodes[x] == w.nodes[x]
  }

  /** One response is enough to win, delivered as often as it takes. */
  lemma {:induction false} Elect(members: set<nat>, run: seq<World>, a: nat, msg: Message) returns (run': seq<World>)
    requires IsDupRun(members, run) && Good(run[|run| - 1])
    requires a in run[|run| - 1].nodes && Packet(a, msg) in run[|run| - 1].net
    requires var s := run[|run| - 1].nodes[a];
             s.role == Candidate && msg.VoteResponse? && msg.granted && msg.term == s.term && s.votes < U32 - 1
    ensures IsDupRun(members, run') && run <= run' && Good(run'[|run'| - 1])
    ensures run'[|run'| - 1].net == run[|run| - 1].net && run'[|run'| - 1].nodes.Keys == run[|run| - 1].nodes.Keys
    ensures SameBut(run[|run| - 1], run'[|run'| - 1], a)
    ensures run'[|run'| - 1].nodes[a].role == Leader && run'[|run'| - 1].nodes[a].term == run[|run| - 1].nodes[a].term
    decreases Majority(run[|run| - 1].nodes[a]) - run[|run| - 1].nodes[a].votes
  {
    hide Init, DupSteps, Receive;
    var w, p := run[|run| - 1], Packet(a, msg);
    var s := w.nodes[a];
    CountedFacts(s, msg);
    var w1 := w.(net := w.net + multiset{p});
    TwiceThere(w, p, w1);
    Extended(members, run, w1);
    var w2 := World(w.nodes[a := Counted(s, msg)], w.net);
    assert w.net == w1.net - multiset{p} + multiset(Receive(s, msg).sent);
    DeliveryOf(w1, p, w2);
    Extended(members, run + [w1], w2);
    run' := run + [w1] + [w2];
    if Counted(s, msg).role != Leader {
      run' := Elect(members, run', a, msg);
    }
  }

  lemma TwiceThere(w: World, p: Packet, w': World)
    requires Duplicates(w, p, w')
    ensures DupSteps(w, w')
  {
  }

  /** Candidate c of term 1 has v's vote on its way. */
  ghost predicate Promised(w: World, c: nat, v: nat) {
    && c in w.nodes && w.nodes[c].role == Candidate && w.nodes[c].term == 1 && w.nodes[c].votes == 1
    && Packet(c, VoteResponse(v, 1, true)) in w.net
  }

  /** Candidate c of term 1 has asked u, which has heard nothing yet. */
  ghost predicate Asked(w: World, l: seq<nat>, c: nat, u: nat) {
    && c in w.nodes && w.nodes[c].role == Candidate && w.nodes[c].term == 1 && w.nodes[c].votes == 1
    && u in w.nodes && w.nodes[u] == InitialNode(u, l) && u != c && c < 0x8000_0000
    && Packet(u, VoteRequest(c, 1, 0, 0)) in w.net
  }

  lemma TwoCampaigns(members: set<nat>) returns (run: seq<World>, l: seq<nat>, a: nat, b: nat, u: nat, v: nat)
    requires 4 <= |members| <= MAX_NODES && forall a :: a in members ==> a < 0x8000_0000
    ensures IsDupRun(members, run) && Good(run[|run| - 1]) && |l| <= MAX_NODES
    ensures a != b && u != v && a != v && b != u && Asked(run[|run| - 1], l, a, u) && Asked(run[|run| - 1], l, b, v)
  {
    hide Init, DupSteps, IsDupRun, Broadcast, Good;
    var w;
    w, l := Start(members);
    a, b, u, v := FourOf(members);
    FirstWorld(members, w);
    var w1 := Campaign(members, [w], l, a, u);
    var w2 := Campaign(members, [w] + [w1], l, b, v);
    run := [w] + [w1] + [w2];
  }

  /** Two candidates of term 1, each with the promise of one vote. */
  lemma TwoPromises(members: set<nat>) returns (run: seq<World>, a: nat, b: nat, u: nat, v: nat)
    requires 4 <= |members| <= MAX_NODES && forall a :: a in members ==> a < 0x8000_0000
    ensures IsDupRun(members, run) && Good(run[|run| - 1])
    ensures a != b && Promised(run[|run| - 1], a, u) && Promised(run[|run| - 1], b, v)
  {
    hide Init, DupSteps, IsDupRun, Good;
    var before, l;
    before, l, a, b, u, v := TwoCampaigns(members);
    var w1 := FirstGrant(members, before, l, a, u);
    var w2 := FirstGrant(members, before + [w1], l, b, v);
    run := before + [w1] + [w2];
  }

  lemma LargeClusterUnsafe(members: set<nat>) returns (run: seq<World>)
    requires 4 <= |members| <= MAX_NODES && forall a :: a in members ==> a < 0x8000_0000
    ensures IsDupRun(members, run) && TwoLeaders(run)
  {
    hide IsDupRun, Good;
    var start, a, b, u, v := TwoPromises(members);
    var once := Elect(members, start, a, VoteResponse(u, 1, true));
    run := Elect(members, once, b, VoteResponse(v, 1, true));
    assert LeadsAt(run, |run| - 1, a, 1) && LeadsAt(run, |run| - 1, b, 1);
  }

  lemma FirstWorld(members: set<nat>, w: World)
    requires Init(members, w)
    ensures IsDupRun(members, [w]) && Good(w) && w.nodes.Keys == members
  {
  }

  lemma FourOf(members: set<nat>) returns (a: nat, b: nat, u: nat, v: nat)
    requires |members| >= 4
    ensures {a, b, u, v} <= members && a != b && a != u && a != v && b != u && b != v && u != v
  {
    a :| a in members;
    var m1 := members - {a};
    assert |m1| >= 3 && m1 != {};
    b :| b in m1;
    var m2 := m1 - {b};
    assert |m2| >= 2 && m2 != {};
    u :| u in m2;
    var m3 := m2 - {u};
    assert |m3| >= 1 && m3 != {};
    v :| v in m3;
  }

  /** With messages that may be duplicated, election safety holds over every run if and only if
      the cluster has at most three members. */
  lemma SafeExactlyIfSmall(members: set<nat>)
    requires |members| <= MAX_NODES && forall a :: a in members ==> a < 0x8000_0000
    ensures (forall run :: IsDupRun(members, run) ==> !TwoLeaders(run)) <==> |members| <= 3
  {
    if |members| <= 3 {
      forall run | IsDupRun(members, run) ensures !TwoLeaders(run) {
        SmallClusterSafe(members, run);
      }
    } else {
      var run := LargeClusterUnsafe(members);
    }
  }
}
