/** The safety theorems of RAFT elections, stated of every run of a cluster and of
    nothing but the states in it. */
module RaftSafety {
  import opened Raft
  import opened RaftElection

  lemma InitialInv(members: set<nat>, w: World)
    requires Init(members, w)
    ensures Inv(members, [w], History({}, {}, {}))
  {
  }

  lemma PrefixIsRun(members: set<nat>, run: seq<World>, n: nat)
    requires IsRun(members, run) && 0 < n <= |run|
    ensures IsRun(members, run[..n])
  {
    hide Init, Steps;
    forall k | 0 <= k < n - 1 ensures Steps(run[..n][k], run[..n][k + 1]) {
      assert Steps(run[k], run[k + 1]);
    }
  }

  /** Every run has a history that explains its votes and elections. */
  lemma {:induction false} HistoryOf(members: set<nat>, run: seq<World>) returns (h: History)
    requires IsRun(members, run)
    ensures Inv(members, run, h)
    ensures forall k :: 0 <= k < |run| - 1 ==> AllAdvance(members, run[k], run[k + 1])
    ensures forall k :: 0 <= k < |run| ==> NodesInv(members, run[k])
  {
    hide Init, Next, NodesInv, GrantsInv, ElectionsInv, RequestsInv, ResponsesInv, VotesInv, VotedInv, AllAdvance;
    var n := |run| - 1;
    if n == 0 {
      h := History({}, {}, {});
      InitialInv(members, run[0]);
      assert run == [run[0]];
    } else {
      var before := run[..n];
      PrefixIsRun(members, run, n);
      h := HistoryOf(members, before);
      assert Steps(run[n - 1], run[n]);
      var act :| Next(run[n - 1], act, run[n]);
      h := AnyStep(members, before, h, act, run[n]);
      assert run == before + [run[n]];
    }
  }

  /** The bounds that guard every step of a run hold in each of its states, so the
      guard excludes no behaviour. */
  lemma RunsStayGood(members: set<nat>, run: seq<World>, k: nat)
    requires IsRun(members, run) && k < |run|
    ensures Good(run[k])
  {
    hide Init, Steps, Inv, PeersOk, AllAdvance;
    var _ := HistoryOf(members, run);
    assert NodesInv(members, run[k]);
  }

  /** Election safety: two nodes that lead the same term, at any two moments of a run,
      are one node. */
  lemma OneLeaderPerTerm(members: set<nat>, run: seq<World>, i: nat, j: nat, a: nat, b: nat)
    requires IsRun(members, run)
    requires i < |run| && j < |run| && a in run[i].nodes && b in run[j].nodes
    requires run[i].nodes[a].role == Leader && run[j].nodes[b].role == Leader
    requires run[i].nodes[a].term == run[j].nodes[b].term
    ensures a == b
  {
    var h := HistoryOf(members, run);
    var t := run[i].nodes[a].term;
    ElectionsAgree(members, run, h, Election(a, t), Election(b, t));
  }

  lemma ElectionsAgree(members: set<nat>, run: seq<World>, h: History, e: Election, f: Election)
    requires |run| > 0 && GrantsInv(members, run, h) && ElectionsInv(members, run, h)
    requires e in h.elections && f in h.elections && e.term == f.term
    ensures e.leader == f.leader
  {
    assert ElectionOk(members, run[|run| - 1], h, e) && ElectionOk(members, run[|run| - 1], h, f);
    var qe, qf := Quorum(members, run, h, e), Quorum(members, run, h, f);
    var v := QuorumsMeet(members, qe, qf);
  }

  /** The winner and the voters it counted form a strict majority. */
  ghost function Quorum(members: set<nat>, run: seq<World>, h: History, e: Election): (q: set<nat>)
    requires |run| > 0 && GrantsInv(members, run, h) && ElectionOk(members, run[|run| - 1], h, e)
    ensures q <= members && 2 * |q| > |members|
    ensures forall v :: v in q && v != e.leader ==>
              exists g :: g in h.counted && g.voter == v && g.candidate == e.leader && g.term == e.term
    ensures e.leader in q
  {
    var vs := Voters(h.counted, e.leader, e.term);
    assert vs <= members && e.leader !in vs by {
      forall g | g in h.counted && g.candidate == e.leader && g.term == e.term ensures g.voter in members && g.voter != e.leader {
        assert GrantOk(members, run, g);
      }
    }
    vs + {e.leader}
  }

  // ---- the election restriction ---------------------------------------------------------

  /** At moment k node v casts its vote for a in term t, and its last log position is no
      later than (lastTerm, lastIndex). */
  ghost predicate VotedBehind(run: seq<World>, k: nat, v: nat, a: nat, t: nat, lastTerm: nat, lastIndex: nat) {
    && 0 < k < |run| && v in run[k].nodes
    && HasVote(run[k], v, a, t) && !HasVote(run[k - 1], v, a, t)
    && UpToDate(lastTerm, lastIndex, LastLogTerm(run[k].nodes[v]), LastIndex(run[k].nodes[v]))
  }

  ghost predicate BecomesLeader(run: seq<World>, i: nat, a: nat) {
    && i + 1 < |run| && a in run[i].nodes && a in run[i + 1].nodes
    && run[i].nodes[a].role != Leader && run[i + 1].nodes[a].role == Leader
  }

  /** Up to moment i, every node of q has voted for a in term t with a log no later than
      a's at moment i. */
  ghost predicate AllVotedBehind(run: seq<World>, i: nat, q: set<nat>, a: nat, t: nat) {
    && i < |run| && a in run[i].nodes
    && forall v :: v in q ==> VotedBehindBy(run, i, v, a, t, LastLogTerm(run[i].nodes[a]), LastIndex(run[i].nodes[a]))
  }

  ghost predicate VotedBehindBy(run: seq<World>, i: nat, v: nat, a: nat, t: nat, lastTerm: nat, lastIndex: nat) {
    exists k: nat {:trigger VotedBehind(run, k, v, a, t, lastTerm, lastIndex)} ::
      k <= i && VotedBehind(run, k, v, a, t, lastTerm, lastIndex)
  }

  /** Election restriction: when a becomes leader, a strict majority of the members has
      voted for it in that term, each with a last (term, index) no later than a's at the
      moment it cast its vote. */
  lemma ElectionRestriction(members: set<nat>, run: seq<World>, i: nat, a: nat) returns (quorum: set<nat>)
    requires IsRun(members, run) && a in members
    requires BecomesLeader(run, i, a)
    ensures quorum <= members && 2 * |quorum| > |members|
    ensures AllVotedBehind(run, i, quorum, a, run[i + 1].nodes[a].term)
  {
    hide Init, Next, NodesInv, GrantsInv, RequestsInv, ResponsesInv, ElectionsInv, VotesInv, VotedInv, AllAdvance;
    var prefix := run[..i + 1];
    PrefixIsRun(members, run, i + 1);
    var h := HistoryOf(members, prefix);
    assert Steps(run[i], run[i + 1]);
    var act :| Next(run[i], act, run[i + 1]);
    WinningStep(members, prefix, h, act, run[i + 1], a);
    var g := PendingGrant(run[i], h, act.p);
    quorum := WinningQuorum(members, prefix, h, a, g);
    PathOf(members, run, i);
    forall v | v in quorum
      ensures VotedBehindBy(run, i, v, a, g.term, LastLogTerm(run[i].nodes[a]), LastIndex(run[i].nodes[a]))
    {
      QuorumVoted(members, run, i, h, a, v, g.term);
    }
  }

  /** What is known of the states up to moment i. */
  ghost predicate SoundPath(members: set<nat>, run: seq<World>, i: nat) {
    && i < |run|
    && Init(members, run[0]) && (forall k :: 0 <= k <= i ==> NodesInv(members, run[k]))
    && forall k :: 0 <= k < i ==> AllAdvance(members, run[k], run[k + 1])
  }

  lemma PathOf(members: set<nat>, run: seq<World>, i: nat)
    requires IsRun(members, run) && i < |run|
    ensures SoundPath(members, run, i) && run[i].nodes.Keys == members
  {
    hide Init, Steps, NodeInv, Advances, Inv;
    var _ := HistoryOf(members, run);
    forall k | 0 <= k < i ensures AllAdvance(members, run[k], run[k + 1]) {
    }
    assert NodesInv(members, run[i]);
  }

  lemma QuorumVoted(members: set<nat>, run: seq<World>, i: nat, h: History, a: nat, v: nat, t: nat)
    requires i < |run| && a in members && a in run[i].nodes && SoundPath(members, run, i) && GrantsInv(members, run[..i + 1], h)
    requires run[i].nodes[a].role == Candidate && run[i].nodes[a].term == t
    requires v == a || exists g :: g in h.grants && g.voter == v && g.candidate == a && g.term == t
    ensures VotedBehindBy(run, i, v, a, t, LastLogTerm(run[i].nodes[a]), LastIndex(run[i].nodes[a]))
  {
    hide SoundPath, GrantsInv, LastLogTerm, LastIndex;
    if v == a {
      OwnVote(members, run, i, a);
    } else {
      var g :| g in h.grants && g.voter == v && g.candidate == a && g.term == t;
      GrantedVote(members, run, i, h, g);
    }
  }

  lemma GrantedVote(members: set<nat>, run: seq<World>, i: nat, h: History, g: Grant)
    requires i < |run| && GrantsInv(members, run[..i + 1], h) && g in h.grants && g.candidate in run[i].nodes
    requires run[i].nodes[g.candidate].role == Candidate && run[i].nodes[g.candidate].term == g.term
    ensures var s := run[i].nodes[g.candidate]; VotedBehindBy(run, i, g.voter, g.candidate, g.term, LastLogTerm(s), LastIndex(s))
  {
    hide UpToDate, LastLogTerm, LastIndex;
    assert GrantOk(members, run[..i + 1], g);
    var s := run[i].nodes[g.candidate];
    assert VotedBehind(run, g.step, g.voter, g.candidate, g.term, LastLogTerm(s), LastIndex(s));
  }

  /** A candidate cast its own vote when it became candidate, and its log is still the same. */
  lemma {:induction false} OwnVote(members: set<nat>, run: seq<World>, i: nat, a: nat)
    requires i < |run| && SoundPath(members, run, i) && a in members && a in run[i].nodes && run[i].nodes[a].role == Candidate
    ensures VotedBehindBy(run, i, a, a, run[i].nodes[a].term, LastLogTerm(run[i].nodes[a]), LastIndex(run[i].nodes[a]))
  {
    hide SoundPath, LastLogTerm, LastIndex;
    PathStep(members, run, i, a);
    var s := run[i].nodes[a];
    if HasVote(run[i - 1], a, a, s.term) {
      OwnVote(members, run, i - 1, a);
    } else {
      assert VotedBehind(run, i, a, a, s.term, LastLogTerm(s), LastIndex(s));
    }
  }

  lemma PathStep(members: set<nat>, run: seq<World>, i: nat, a: nat)
    requires SoundPath(members, run, i) && a in members && a in run[i].nodes && run[i].nodes[a].role == Candidate
    ensures i > 0 && SoundPath(members, run, i - 1) && a in run[i - 1].nodes && run[i].nodes[a].votedFor == a
    ensures Advances(run[i - 1].nodes[a], run[i].nodes[a])
  {
    hide LastLogTerm, LastIndex, PeersOk, WellFormed, Advances;
    assert NodeInv(members, a, run[i].nodes[a]);
    assert i > 0 ==> NodesInv(members, run[i - 1]) && AllAdvance(members, run[i - 1], run[i - 1 + 1]);
  }

  lemma WinningQuorum(members: set<nat>, run: seq<World>, h: History, a: nat, g: Grant) returns (q: set<nat>)
    requires |run| > 0 && GrantsInv(members, run, h) && VotesInv(run[|run| - 1], h)
    requires a in members && a in run[|run| - 1].nodes
    requires var s := run[|run| - 1].nodes[a];
             s.role == Candidate && s.votes + 1 >= |members| / 2 + 1 && g.term == s.term
    requires g in h.grants - h.counted && g.candidate == a
    ensures q <= members && 2 * |q| > |members|
    ensures forall v :: v in q && v != a ==>
              exists g' :: g' in h.grants && g'.voter == v && g'.candidate == a && g'.term == g.term
  {
    var gs := h.counted + {g};
    CountedOnce(members, run, h, g, h.(counted := gs));
    var vs := Voters(gs, a, g.term);
    forall g' | g' in gs && g'.candidate == a ensures g'.voter in members && g'.voter != a {
      assert GrantOk(members, run, g');
    }
    q := vs + {a};
  }

  // ---- the vote discipline -----------------------------------------------------------

  lemma {:induction false} TermPath(members: set<nat>, run: seq<World>, i: nat, j: nat, a: nat)
    requires i <= j < |run| && a in members
    requires forall k :: 0 <= k < |run| - 1 ==> AllAdvance(members, run[k], run[k + 1])
    requires forall k :: 0 <= k < |run| ==> run[k].nodes.Keys == members
    ensures Advances(run[i].nodes[a], run[j].nodes[a])
    decreases j
  {
    if i < j {
      TermPath(members, run, i, j - 1, a);
      assert AllAdvance(members, run[j - 1], run[j - 1 + 1]);
    }
  }

  /** Node a leads term t at some moment of the run. */
  ghost predicate Leads(run: seq<World>, a: nat, t: nat) {
    exists k :: 0 <= k < |run| && a in run[k].nodes && run[k].nodes[a].role == Leader && run[k].nodes[a].term == t
  }

  ghost predicate ChangesVote(s: Node, s': Node) {
    s.term == s'.term && s.votedFor != -1 && s'.votedFor != -1 && s.votedFor != s'.votedFor
  }

  /** Vote discipline: terms never fall, and if a node's vote changes within a term then
      the first vote was the one it cast for itself as candidate, the second went to
      another node, and the node leads that term at no moment of the run. */
  lemma VoteDiscipline(members: set<nat>, run: seq<World>, i: nat, j: nat, a: nat)
    requires IsRun(members, run)
    requires i <= j < |run| && a in members
    ensures a in run[i].nodes && a in run[j].nodes
    ensures run[i].nodes[a].term <= run[j].nodes[a].term
    ensures ChangesVote(run[i].nodes[a], run[j].nodes[a]) ==>
              && run[i].nodes[a].votedFor == a && run[i].nodes[a].role == Candidate
              && run[j].nodes[a].votedFor != a
              && !Leads(run, a, run[i].nodes[a].term)
  {
    hide Init, Steps, Inv, PeersOk, WellFormed, SameLast;
    var h := HistoryOf(members, run);
    TermPath(members, run, i, j, a);
    assert NodeInv(members, a, run[i].nodes[a]) && NodeInv(members, a, run[j].nodes[a]);
    if ChangesVote(run[i].nodes[a], run[j].nodes[a]) && Leads(run, a, run[i].nodes[a].term) {
      var k :| 0 <= k < |run| && a in run[k].nodes && run[k].nodes[a].role == Leader && run[k].nodes[a].term == run[i].nodes[a].term;
      if k <= j {
        TermPath(members, run, k, j, a);
      } else {
        TermPath(members, run, j, k, a);
      }
    }
  }
}
